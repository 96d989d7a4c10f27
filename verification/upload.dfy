/** The upload filter of the web front end: a file is accepted when its
    name has an extension, and the extension, lower-cased, is one of the
    image formats the generator can open. */
module Upload {

  const AllowedExtensions: set<string> := {"png", "jpg", "jpeg", "gif", "bmp", "tiff"}

  /** `str.lower()` on the characters that matter: the ASCII capitals. No
      other character lowers to a string in `AllowedExtensions` (the only
      non-ASCII characters whose lower case holds ASCII letters are the
      Kelvin sign, to `k`, and the dotted capital I, to `i` and a combining
      dot), so the filter's answer is the same as with full lower-casing. */
  function LowerChar(c: char): (d: char)
    ensures 'A' <= c <= 'Z' ==> d as int == c as int + 32
    ensures !('A' <= c <= 'Z') ==> d == c
  {
    if 'A' <= c <= 'Z' then (c as int + 32) as char else c
  }

  function Lower(s: string): (t: string)
    ensures |t| == |s| && forall i :: 0 <= i < |s| ==> t[i] == LowerChar(s[i])
  {
    seq(|s|, i requires 0 <= i < |s| => LowerChar(s[i]))
  }

  function UpperChar(c: char): char {
    if 'a' <= c <= 'z' then (c as int - 32) as char else c
  }

  function Upper(s: string): (t: string)
    ensures |t| == |s| && forall i :: 0 <= i < |s| ==> t[i] == UpperChar(s[i])
  {
    seq(|s|, i requires 0 <= i < |s| => UpperChar(s[i]))
  }

  /** The text after the last dot, or the whole name when it has none.
      `allowed_file` writes `filename.rsplit('.', 1)[1]`, the second of the
      two pieces; it asks for it only after testing `'.' in filename`, when
      there are two pieces and the second one is this text. */
  function AfterLastDot(s: string): (e: string)
    ensures '.' !in e
    ensures |e| <= |s| && e == s[|s| - |e|..]
    ensures '.' in s ==> |e| < |s| && s[|s| - |e| - 1] == '.'
    ensures '.' !in s ==> e == s
    decreases |s|
  {
    if |s| == 0 then []
    else if s[|s| - 1] == '.' then []
    else
      var init := s[..|s| - 1];
      assert s == init + [s[|s| - 1]];
      AfterLastDot(init) + [s[|s| - 1]]
  }

  /** `allowed_file`. An accepted name ends in a dot and an extension of
      three or four characters. */
  function AllowedFile(filename: string): (r: bool)
    ensures r ==>
      var e := AfterLastDot(filename);
      3 <= |e| <= 4 && |e| < |filename| && filename[|filename| - |e| - 1] == '.'
  {
    '.' in filename && Lower(AfterLastDot(filename)) in AllowedExtensions
  }

  /** A name is accepted exactly when it ends in a dot followed by a
      dot-free extension that lower-cases to an allowed one; what comes
      before that dot does not matter. */
  lemma AllowedFileIff(filename: string)
    ensures AllowedFile(filename) <==>
      exists name, ext :: filename == name + "." + ext && '.' !in ext && Lower(ext) in AllowedExtensions
  {
    if AllowedFile(filename) {
      AcceptedSplits(filename);
    }
    if exists name, ext :: filename == name + "." + ext && '.' !in ext && Lower(ext) in AllowedExtensions {
      var name, ext :| filename == name + "." + ext && '.' !in ext && Lower(ext) in AllowedExtensions;
      ExtensionDecides(name, ext);
    }
  }

  /** An accepted name splits at its last dot. */
  lemma AcceptedSplits(filename: string)
    requires AllowedFile(filename)
    ensures var ext := AfterLastDot(filename);
      filename == filename[..|filename| - |ext| - 1] + "." + ext
  {
    var ext := AfterLastDot(filename);
    var name := filename[..|filename| - |ext| - 1];
    assert filename == name + "." + ext;
  }

  /** The extension of `name.ext` is `ext` when `ext` holds no dot. */
  lemma {:induction false} AfterLastDotAppend(name: string, ext: string)
    requires '.' !in ext
    ensures AfterLastDot(name + "." + ext) == ext
    decreases |ext|
  {
    var s := name + "." + ext;
    if |ext| == 0 {
      assert s[|s| - 1] == '.';
    } else {
      var init := ext[..|ext| - 1];
      assert s[..|s| - 1] == name + "." + init;
      assert s[|s| - 1] == ext[|ext| - 1];
      AfterLastDotAppend(name, init);
      assert ext == init + [ext[|ext| - 1]];
    }
  }

  /** Only the last extension counts: `cover.png.exe` is refused and
      `cover.exe.png` accepted. */
  lemma LastExtensionCounts(name: string)
    ensures !AllowedFile(name + ".png.exe")
    ensures AllowedFile(name + ".exe.png")
  {
    ExeRefused(name + ".png");
    PngAccepted(name + ".exe");
    assert name + ".png.exe" == (name + ".png") + ".exe";
    assert name + ".exe.png" == (name + ".exe") + ".png";
  }

  lemma ExeRefused(name: string)
    ensures !AllowedFile(name + ".exe")
  {
    assert name + ".exe" == name + "." + "exe";
    ExtensionDecides(name, "exe");
    assert Lower("exe") == "exe";
  }

  lemma PngAccepted(name: string)
    ensures AllowedFile(name + ".png")
  {
    assert name + ".png" == name + "." + "png";
    ExtensionDecides(name, "png");
    assert Lower("png") == "png";
  }

  /** For `name.ext` with a dot-free `ext`, only `ext` decides. */
  lemma ExtensionDecides(name: string, ext: string)
    requires '.' !in ext
    ensures AllowedFile(name + "." + ext) == (Lower(ext) in AllowedExtensions)
  {
    AfterLastDotAppend(name, ext);
  }

  /** The comparison ignores ASCII case. */
  lemma CaseInsensitive(filename: string)
    ensures AllowedFile(Upper(filename)) == AllowedFile(filename)
  {
    UpperKeepsDots(filename);
    if '.' in filename {
      var e := AfterLastDot(filename);
      var name := filename[..|filename| - |e| - 1];
      assert filename == name + "." + e;
      UpperAppend(name, e);
      UpperKeepsDots(e);
      AfterLastDotAppend(Upper(name), Upper(e));
      LowerUpper(e);
    }
  }

  lemma UpperKeepsDots(s: string)
    ensures ('.' in Upper(s)) == ('.' in s)
  {
    var u := Upper(s);
    if '.' in u {
      var i :| 0 <= i < |u| && u[i] == '.';
      assert s[i] == '.';
    }
    if '.' in s {
      var i :| 0 <= i < |s| && s[i] == '.';
      assert u[i] == '.';
    }
  }

  lemma UpperAppend(a: string, b: string)
    ensures Upper(a + "." + b) == Upper(a) + "." + Upper(b)
  {
  }

  lemma LowerUpper(e: string)
    ensures Lower(Upper(e)) == Lower(e)
  {
  }

  /** A name without a dot, or ending in one, is refused. */
  lemma NeedsExtension(name: string)
    ensures '.' !in name ==> !AllowedFile(name)
    ensures !AllowedFile(name + ".")
  {
    AfterLastDotAppend(name, "");
    assert "" !in AllowedExtensions;
  }
}
