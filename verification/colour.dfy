/** The text colour setting: an `RRGGBB` string with an optional leading
    `#`, read by slicing it into three two-character pieces and converting
    each with Python's `int(piece, 16)`. */
module Colour {
  import opened PyText
  import opened Results

  /** A colour as the drawing calls receive it: three Python integers.
      Nothing forces them into 0..255 (see `ParseColor`). */
  datatype Color = Color(r: int, g: int, b: int)

  predicate IsHexDigit(c: char) {
    ('0' <= c <= '9') || ('a' <= c <= 'f') || ('A' <= c <= 'F')
  }

  function HexValue(c: char): (v: int)
    requires IsHexDigit(c)
    ensures 0 <= v < 16
  {
    if '0' <= c <= '9' then c as int - '0' as int
    else if 'a' <= c <= 'f' then c as int - 'a' as int + 10
    else c as int - 'A' as int + 10
  }

  /** The lower-case hexadecimal digit of `v`. */
  function HexDigit(v: int): (c: char)
    requires 0 <= v < 16
    ensures IsHexDigit(c) && HexValue(c) == v
  {
    if v < 10 then ('0' as int + v) as char else ('a' as int + v - 10) as char
  }

  /** Hex digits with single underscores between them, as Python's integer
      literals allow, read onto the value `acc` of the digits before them. */
  function DigitsValue(s: string, acc: int): Option<int>
    decreases |s|
  {
    if |s| == 0 || !IsHexDigit(s[0]) then None
    else
      var a := acc * 16 + HexValue(s[0]);
      if |s| == 1 then Some(a)
      else if s[1] == '_' then DigitsValue(s[2..], a)
      else DigitsValue(s[1..], a)
  }

  /** Python's `int(s, 16)`: surrounding whitespace is ignored, then an
      optional sign, an optional `0x`/`0X` prefix (which may be followed by
      one underscore) and at least one hex digit; anything else is a
      `ValueError`, here `None`. */
  function ParseHex(s: string): (r: Option<int>)
    ensures IsBlank(s) ==> r.None?
  {
    var t := Strip(s);
    match DigitsValue(Unprefixed(Unsigned(t)), 0)
    case None => None
    case Some(v) => Some(if |t| > 0 && t[0] == '-' then -v else v)
  }

  function Unsigned(t: string): (u: string)
    ensures |u| <= |t|
  {
    if |t| > 0 && (t[0] == '+' || t[0] == '-') then t[1..] else t
  }

  function Unprefixed(u: string): (d: string)
    ensures |d| <= |u|
  {
    if |u| >= 2 && u[0] == '0' && (u[1] == 'x' || u[1] == 'X') then
      (if |u| >= 3 && u[2] == '_' then u[3..] else u[2..])
    else u
  }

  /** One or two characters of digits read as at most 255. */
  lemma DigitsValueShort(d: string)
    requires |d| <= 2
    ensures DigitsValue(d, 0).Some? ==> 0 <= DigitsValue(d, 0).value <= 255
    ensures DigitsValue(d, 0).Some? && |d| <= 1 ==> DigitsValue(d, 0).value <= 15
  {
    if |d| == 2 && IsHexDigit(d[0]) {
      if d[1] == '_' {
        assert DigitsValue(d[2..], HexValue(d[0])) == None;
      } else {
        assert DigitsValue(d, 0) == DigitsValue(d[1..], HexValue(d[0]));
      }
    }
  }

  /** Python's `s[i:j]` for `0 <= i <= j`: the bounds are clamped to the
      string, so a short string gives a short or empty slice. */
  function Slice(s: string, i: nat, j: nat): (r: string)
    requires i <= j
    ensures |r| <= j - i
    ensures j <= |s| ==> r == s[i..j]
  {
    if i >= |s| then [] else if j >= |s| then s[i..] else s[i..j]
  }

  /** The parsing shared by the three text-drawing steps: one leading `#`
      is dropped and the pieces `[0:2]`, `[2:4]` and `[4:6]` are converted;
      any failed conversion raises, which the drawing step turns into
      drawing nothing (`None`). Whatever the setting, a parsed colour
      has components in -15..255 (`"-f"` is -15): out-of-range components
      reach the drawing calls unchecked. */
  function ParseColor(setting: string): (r: Option<Color>)
    ensures r.Some? ==>
      && -15 <= r.value.r <= 255
      && -15 <= r.value.g <= 255
      && -15 <= r.value.b <= 255
  {
    var c := Unhashed(setting);
    ParseHexShort(Slice(c, 0, 2));
    ParseHexShort(Slice(c, 2, 4));
    ParseHexShort(Slice(c, 4, 6));
    ParsePieces(c)
  }

  function Unhashed(setting: string): (c: string)
    ensures |setting| > 0 && setting[0] == '#' ==> c == setting[1..]
    ensures (|setting| == 0 || setting[0] != '#') ==> c == setting
  {
    if |setting| > 0 && setting[0] == '#' then setting[1..] else setting
  }

  function ParsePieces(c: string): Option<Color>
  {
    match (ParseHex(Slice(c, 0, 2)), ParseHex(Slice(c, 2, 4)), ParseHex(Slice(c, 4, 6)))
    case (Some(r), Some(g), Some(b)) => Some(Color(r, g, b))
    case _ => None
  }

  /** The three pieces of six characters. */
  lemma SlicesOfSix(x: string, y: string, z: string)
    requires |x| == 2 && |y| == 2 && |z| == 2
    ensures Slice(x + y + z, 0, 2) == x
    ensures Slice(x + y + z, 2, 4) == y
    ensures Slice(x + y + z, 4, 6) == z
  {
    assert (x + y + z)[0..2] == x;
    assert (x + y + z)[2..4] == y;
    assert (x + y + z)[4..6] == z;
  }

  /** Three pairs of hex digits parse to their three values. */
  lemma ParsePiecesHex(r: int, g: int, b: int)
    requires 0 <= r < 256 && 0 <= g < 256 && 0 <= b < 256
    ensures ParsePieces(Hex2(r) + Hex2(g) + Hex2(b)) == Some(Color(r, g, b))
  {
    SlicesOfSix(Hex2(r), Hex2(g), Hex2(b));
    ParseHexPair(r);
    ParseHexPair(g);
    ParseHexPair(b);
  }

  lemma ParseHexPair(v: int)
    requires 0 <= v < 256
    ensures ParseHex(Hex2(v)) == Some(v)
  {
    ParseHex2(Hex2(v), v);
  }

  /** `#rrggbb` in lower-case hex, the form an HTML colour input submits. */
  function FormatColor(c: Color): (s: string)
    requires 0 <= c.r < 256 && 0 <= c.g < 256 && 0 <= c.b < 256
    ensures |s| == 7 && s[0] == '#'
  {
    "#" + Hex2(c.r) + Hex2(c.g) + Hex2(c.b)
  }

  function Hex2(v: int): (s: string)
    requires 0 <= v < 256
    ensures |s| == 2 && IsHexDigit(s[0]) && IsHexDigit(s[1])
    ensures 16 * HexValue(s[0]) + HexValue(s[1]) == v
  {
    [HexDigit(v / 16), HexDigit(v % 16)]
  }

  /** Two hex digits read back as their value. */
  lemma ParseHex2(s: string, v: int)
    requires |s| == 2 && IsHexDigit(s[0]) && IsHexDigit(s[1])
    requires v == 16 * HexValue(s[0]) + HexValue(s[1])
    ensures ParseHex(s) == Some(v)
  {
    assert !IsSpace(s[0]) && !IsSpace(s[1]);
    StripNoSpace(s);
    DigitPair(s, v);
  }

  lemma DigitPair(s: string, v: int)
    requires |s| == 2 && IsHexDigit(s[0]) && IsHexDigit(s[1])
    requires v == 16 * HexValue(s[0]) + HexValue(s[1])
    ensures Unprefixed(Unsigned(s)) == s
    ensures DigitsValue(s, 0) == Some(v)
  {
    assert DigitsValue(s, 0) == DigitsValue(s[1..], HexValue(s[0]));
  }

  lemma StripNoSpace(s: string)
    requires |s| > 0 && !IsSpace(s[0]) && !IsSpace(s[|s| - 1])
    ensures Strip(s) == s
  {
    assert LeadingSpaces(s) == 0;
    assert StripStart(s) == s;
    assert TrailingSpaces(s) == 0;
  }

  /** Formatting then parsing gives the colour back. */
  lemma ParseFormatColor(c: Color)
    requires 0 <= c.r < 256 && 0 <= c.g < 256 && 0 <= c.b < 256
    ensures ParseColor(FormatColor(c)) == Some(c)
  {
    var s := FormatColor(c);
    assert Unhashed(s) == Hex2(c.r) + Hex2(c.g) + Hex2(c.b);
    ParsePiecesHex(c.r, c.g, c.b);
  }

  /** The `#` is optional: the bare digits parse to the same colour. */
  lemma ParseColorWithoutHash(c: Color)
    requires 0 <= c.r < 256 && 0 <= c.g < 256 && 0 <= c.b < 256
    ensures ParseColor(FormatColor(c)[1..]) == Some(c)
  {
    var body := FormatColor(c)[1..];
    assert body == Hex2(c.r) + Hex2(c.g) + Hex2(c.b);
    assert Unhashed(body) == body;
    ParsePiecesHex(c.r, c.g, c.b);
  }

  /** A piece of at most two characters converts to a value in -15..255:
      two hex digits, or a sign and one digit (`"-f"` is -15). */
  lemma ParseHexShort(s: string)
    requires |s| <= 2
    ensures ParseHex(s).Some? ==> -15 <= ParseHex(s).value <= 255
  {
    var t := Strip(s);
    var d := Unprefixed(Unsigned(t));
    DigitsValueShort(d);
    if |t| > 0 && t[0] == '-' {
      assert |d| <= 1;
    }
  }

  /** Characters after the sixth digit are ignored. */
  lemma ParseColorIgnoresTail(setting: string, tail: string)
    requires |setting| >= 6 && (setting[0] == '#' ==> |setting| >= 7)
    ensures ParseColor(setting + tail) == ParseColor(setting)
  {
    var s := setting + tail;
    var c := Unhashed(setting);
    var d := Unhashed(s);
    assert d == c + tail;
    assert Slice(d, 0, 2) == Slice(c, 0, 2);
    assert Slice(d, 2, 4) == Slice(c, 2, 4);
    assert Slice(d, 4, 6) == Slice(c, 4, 6);
  }

  /** Fewer than five characters after the optional `#` never parse: the
      last piece is empty. */
  lemma ShortSettingFails(setting: string)
    requires |Unhashed(setting)| < 5
    ensures ParseColor(setting).None?
  {
    var c := Unhashed(setting);
    assert Slice(c, 4, 6) == [];
    assert Strip([]) == [];
  }

  /** Five digits still parse: the last piece is the single fifth digit. */
  lemma FiveDigits(r: int, g: int, v: int)
    requires 0 <= r < 256 && 0 <= g < 256 && 0 <= v < 16
    ensures ParseColor("#" + Hex2(r) + Hex2(g) + [HexDigit(v)]) == Some(Color(r, g, v))
  {
    var x, y, z := Hex2(r), Hex2(g), [HexDigit(v)];
    assert Unhashed("#" + x + y + z) == x + y + z;
    SlicesOfFive(x, y, z);
    ParseHexPair(r);
    ParseHexPair(g);
    ParseHexDigit(v);
  }

  lemma SlicesOfFive(x: string, y: string, z: string)
    requires |x| == 2 && |y| == 2 && |z| == 1
    ensures Slice(x + y + z, 0, 2) == x
    ensures Slice(x + y + z, 2, 4) == y
    ensures Slice(x + y + z, 4, 6) == z
  {
    assert (x + y + z)[0..2] == x;
    assert (x + y + z)[2..4] == y;
    assert (x + y + z)[4..] == z;
  }

  lemma ParseHexDigit(v: int)
    requires 0 <= v < 16
    ensures ParseHex([HexDigit(v)]) == Some(v)
  {
    var z := [HexDigit(v)];
    StripNoSpace(z);
    assert DigitsValue(z, 0) == Some(v);
  }

  /** Only one `#` is dropped: a second one spoils the first piece. */
  lemma DoubleHash(s: string)
    ensures ParseColor("##" + s).None?
  {
    var c := Unhashed("##" + s);
    var p := Slice(c, 0, 2);
    assert p[0] == '#';
    StripHash(p);
  }

  lemma StripHash(p: string)
    requires |p| > 0 && p[0] == '#'
    ensures ParseHex(p).None?
  {
    var t := Strip(p);
    assert t == StripEnd(StripStart(p));
    assert StripStart(p) == p;
    assert t[0] == '#';
  }
}
