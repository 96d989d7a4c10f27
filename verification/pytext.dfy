/** Python `str` operations the cover generator relies on: `isspace`,
    `split()`, `strip()`, `' '.join(...)` and `split('\n')`, stated over
    Dafny strings (sequences of Unicode scalar values). */
module PyText {

  /** Python's `str.isspace()` for one character; `split()` and `strip()`
      use exactly this set of separators. */
  predicate IsSpace(c: char) {
    || c == ' '
    || ('\t' <= c <= '\r')
    || ('\U{1c}' <= c <= '\U{1f}')
    || c == '\U{85}' || c == '\U{a0}' || c == '\U{1680}'
    || ('\U{2000}' <= c <= '\U{200a}')
    || c == '\U{2028}' || c == '\U{2029}' || c == '\U{202f}'
    || c == '\U{205f}' || c == '\U{3000}'
  }

  /** `not s.strip()`: the string holds whitespace only (or nothing). */
  predicate IsBlank(s: string) {
    forall i :: 0 <= i < |s| ==> IsSpace(s[i])
  }

  /** A word as `split()` produces it: non-empty, free of whitespace. */
  predicate IsWord(w: string) {
    |w| > 0 && forall i :: 0 <= i < |w| ==> !IsSpace(w[i])
  }

  predicate AllWords(ws: seq<string>) {
    forall i :: 0 <= i < |ws| ==> IsWord(ws[i])
  }

  /** Length of the leading whitespace run of `s`. */
  function LeadingSpaces(s: string): (n: nat)
    ensures n <= |s|
    ensures n < |s| ==> !IsSpace(s[n])
  {
    if |s| == 0 || !IsSpace(s[0]) then 0 else 1 + LeadingSpaces(s[1..])
  }

  /** Length of the trailing whitespace run of `s`. */
  function TrailingSpaces(s: string): (n: nat)
    ensures n <= |s|
    ensures n < |s| ==> !IsSpace(s[|s| - n - 1])
  {
    if |s| == 0 || !IsSpace(s[|s| - 1]) then 0 else 1 + TrailingSpaces(s[..|s| - 1])
  }

  lemma {:induction false} LeadingSpacesBlank(s: string)
    ensures IsBlank(s[..LeadingSpaces(s)])
    decreases |s|
  {
    if |s| > 0 && IsSpace(s[0]) {
      LeadingSpacesBlank(s[1..]);
      assert s[..LeadingSpaces(s)] == [s[0]] + s[1..][..LeadingSpaces(s[1..])];
    }
  }

  lemma {:induction false} TrailingSpacesBlank(s: string)
    ensures IsBlank(s[|s| - TrailingSpaces(s)..])
    decreases |s|
  {
    if |s| > 0 && IsSpace(s[|s| - 1]) {
      var t := s[..|s| - 1];
      TrailingSpacesBlank(t);
      var k := |t| - TrailingSpaces(t);
      assert k == |s| - TrailingSpaces(s);
      forall i | k <= i < |s| ensures IsSpace(s[i]) {
        if i < |t| {
          assert s[i] == t[k..][i - k];
        }
      }
    }
  }

  /** `s.split()`: the maximal whitespace-free runs of `s`, in order.
      Every piece is a word, and there is none exactly when `s` is
      whitespace only. */
  function Words(s: string): (r: seq<string>)
    ensures AllWords(r)
    ensures r == [] <==> IsBlank(s)
  {
    WordsAfterAreWords(s, "");
    WordsAfterEmpty(s, "");
    WordsAfter(s, "")
  }

  /** Python's splitting loop: `cur` is the word being collected when the
      remaining input is `s`; a whitespace character ends it. */
  function WordsAfter(s: string, cur: string): seq<string>
  {
    if s == [] then Emit(cur)
    else if IsSpace(s[0]) then Emit(cur) + WordsAfter(s[1..], "")
    else WordsAfter(s[1..], cur + [s[0]])
  }

  function Emit(cur: string): seq<string>
  {
    if cur == [] then [] else [cur]
  }

  /** `s.lstrip()`. */
  function StripStart(s: string): (r: string)
    ensures |r| <= |s| && r == s[|s| - |r|..] && IsBlank(s[..|s| - |r|])
    ensures r != [] ==> !IsSpace(r[0])
  {
    var a := LeadingSpaces(s);
    LeadingSpacesBlank(s);
    assert s[a..] == s[|s| - |s[a..]|..];
    s[a..]
  }

  /** `s.rstrip()`. */
  function StripEnd(s: string): (r: string)
    ensures |r| <= |s| && r == s[..|r|] && IsBlank(s[|r|..])
    ensures r != [] ==> !IsSpace(r[|r| - 1])
  {
    TrailingSpacesBlank(s);
    s[..|s| - TrailingSpaces(s)]
  }

  /** `s.strip()`: `s` without its leading and trailing whitespace. */
  function Strip(s: string): (r: string)
    ensures |r| <= |s|
    ensures exists a :: 0 <= a <= |s| - |r| && r == s[a..a + |r|] && IsBlank(s[..a]) && IsBlank(s[a + |r|..])
    ensures IsBlank(s) <==> r == []
    ensures r != [] ==> !IsSpace(r[0]) && !IsSpace(r[|r| - 1])
  {
    StripSlice(s);
    StripEmpty(s);
    StripEnds(s);
    StripEnd(StripStart(s))
  }

  lemma StripSlice(s: string)
    ensures var r := StripEnd(StripStart(s));
      exists a :: 0 <= a <= |s| - |r| && r == s[a..a + |r|] && IsBlank(s[..a]) && IsBlank(s[a + |r|..])
  {
    var t := StripStart(s);
    var r := StripEnd(t);
    var a := |s| - |t|;
    assert s[a + |r|..] == t[|r|..];
    assert r == s[a..a + |r|];
  }

  lemma StripEmpty(s: string)
    ensures IsBlank(s) <==> StripEnd(StripStart(s)) == []
  {
    var t := StripStart(s);
    if StripEnd(t) == [] {
      assert t == [];
      assert s == s[..|s| - |t|];
    }
  }

  lemma StripEnds(s: string)
    ensures var r := StripEnd(StripStart(s));
      r != [] ==> !IsSpace(r[0]) && !IsSpace(r[|r| - 1])
  {
    var t := StripStart(s);
    var r := StripEnd(t);
    if r != [] {
      assert r[0] == t[0];
    }
  }

  /** `' '.join(ws)`: it ends with the last word, after a space when
      there are several. */
  function JoinWords(ws: seq<string>): (r: string)
    ensures |ws| > 0 ==> |ws[|ws| - 1]| <= |r| && r[|r| - |ws[|ws| - 1]|..] == ws[|ws| - 1]
    ensures |ws| > 1 ==> |ws[|ws| - 1]| < |r| && r[|r| - |ws[|ws| - 1]| - 1] == ' '
  {
    if |ws| == 0 then ""
    else if |ws| == 1 then ws[0]
    else JoinWords(ws[..|ws| - 1]) + " " + ws[|ws| - 1]
  }

  /** `s.split('\n')`: the pieces between newline characters; always at
      least one piece, and re-joining them with newlines gives `s` back. */
  function SplitLines(s: string): (ps: seq<string>)
    ensures |ps| >= 1
    ensures forall i :: 0 <= i < |ps| ==> '\n' !in ps[i]
    ensures JoinLines(ps) == s
    decreases |s|
  {
    if '\n' !in s then [s]
    else
      var i := IndexOf(s, '\n');
      [s[..i]] + SplitLines(s[i + 1..])
  }

  /** `'\n'.join(ps)`, the inverse of `SplitLines`. */
  function JoinLines(ps: seq<string>): string
  {
    if |ps| == 0 then ""
    else if |ps| == 1 then ps[0]
    else ps[0] + "\n" + JoinLines(ps[1..])
  }

  /** Position of the first occurrence of `c` in `s`. */
  function IndexOf(s: string, c: char): (i: nat)
    requires c in s
    ensures i < |s| && s[i] == c && c !in s[..i]
  {
    if s[0] == c then 0 else 1 + IndexOf(s[1..], c)
  }

  /** Concatenation of a sequence of word lists. */
  function Flatten(xss: seq<seq<string>>): seq<string>
  {
    if |xss| == 0 then [] else xss[0] + Flatten(xss[1..])
  }

  lemma {:induction false} FlattenAppend(a: seq<seq<string>>, b: seq<seq<string>>)
    ensures Flatten(a + b) == Flatten(a) + Flatten(b)
  {
    if |a| == 0 {
      assert a + b == b;
    } else {
      assert (a + b)[1..] == a[1..] + b;
      FlattenAppend(a[1..], b);
    }
  }

  // ---------------------------------------------------------------------
  // What `split()` produces, and how it behaves on concatenations.

  lemma {:induction false} WordsAfterAreWords(s: string, cur: string)
    requires cur == [] || IsWord(cur)
    ensures AllWords(WordsAfter(s, cur))
    decreases |s|
  {
    if s != [] {
      if IsSpace(s[0]) {
        WordsAfterAreWords(s[1..], "");
      } else {
        WordsAfterAreWords(s[1..], cur + [s[0]]);
      }
    }
  }

  lemma {:induction false} WordsAfterEmpty(s: string, cur: string)
    ensures WordsAfter(s, cur) == [] <==> cur == [] && IsBlank(s)
    decreases |s|
  {
    if s != [] {
      if IsSpace(s[0]) {
        WordsAfterEmpty(s[1..], "");
        assert IsBlank(s) <==> IsBlank(s[1..]);
      } else {
        WordsAfterEmpty(s[1..], cur + [s[0]]);
      }
    }
  }

  /** Gluing with one whitespace character: `(a + c + b).split()` is
      `a.split() + b.split()`, whatever word `a` continues. */
  lemma {:induction false} WordsAfterAppendSpace(a: string, c: char, b: string, cur: string)
    requires IsSpace(c)
    ensures WordsAfter(a + [c] + b, cur) == WordsAfter(a, cur) + Words(b)
    decreases |a|
  {
    var s := a + [c] + b;
    if a == [] {
      assert s[1..] == b;
    } else {
      assert s[1..] == a[1..] + [c] + b;
      if IsSpace(a[0]) {
        WordsAfterAppendSpace(a[1..], c, b, "");
      } else {
        WordsAfterAppendSpace(a[1..], c, b, cur + [a[0]]);
      }
    }
  }

  lemma {:induction false} WordsAppendSpace(a: string, c: char, b: string)
    requires IsSpace(c)
    ensures Words(a + [c] + b) == Words(a) + Words(b)
  {
    WordsAfterAppendSpace(a, c, b, "");
  }

  /** A leading whitespace run contributes no word. */
  lemma {:induction false} WordsBlankPrefix(a: string, b: string)
    requires IsBlank(a)
    ensures Words(a + b) == Words(b)
    decreases |a|
  {
    if a == [] {
      assert a + b == b;
    } else {
      assert (a + b)[1..] == a[1..] + b;
      WordsBlankPrefix(a[1..], b);
    }
  }

  /** Trailing whitespace contributes no word. */
  lemma {:induction false} WordsBlankSuffix(a: string, b: string)
    requires IsBlank(b)
    ensures Words(a + b) == Words(a)
  {
    if |b| > 0 {
      assert a + b == a + [b[0]] + b[1..];
      WordsAppendSpace(a, b[0], b[1..]);
    } else {
      assert a + b == a;
    }
  }

  /** A single word splits to itself. */
  lemma {:induction false} WordsOfWord(w: string)
    requires IsWord(w)
    ensures Words(w) == [w]
  {
    WordsAfterWord(w, "");
    assert [] + w == w;
  }

  lemma {:induction false} WordsAfterWord(w: string, cur: string)
    requires forall i :: 0 <= i < |w| ==> !IsSpace(w[i])
    requires |cur + w| > 0
    ensures WordsAfter(w, cur) == [cur + w]
    decreases |w|
  {
    if w == [] {
      assert cur + w == cur;
    } else {
      WordsAfterWord(w[1..], cur + [w[0]]);
      assert cur + [w[0]] + w[1..] == cur + w;
    }
  }

  /** Round trip: splitting `' '.join(ws)` gives back the words `ws`. */
  lemma {:induction false} WordsOfJoin(ws: seq<string>)
    requires AllWords(ws)
    ensures Words(JoinWords(ws)) == ws
    decreases |ws|
  {
    if |ws| == 1 {
      WordsOfWord(ws[0]);
    } else if |ws| > 1 {
      WordsOfJoin(ws[..|ws| - 1]);
      WordsOfJoinStep(ws);
    }
  }

  lemma {:induction false} WordsOfJoinStep(ws: seq<string>)
    requires |ws| > 1 && IsWord(ws[|ws| - 1])
    requires Words(JoinWords(ws[..|ws| - 1])) == ws[..|ws| - 1]
    ensures Words(JoinWords(ws)) == ws
  {
    var init, last := ws[..|ws| - 1], ws[|ws| - 1];
    assert ws == init + [last];
    var j := JoinWords(init);
    assert JoinWords(ws) == j + [' '] + last;
    assert Words(j + [' '] + last) == init + [last] by {
      WordsAppendSpace(j, ' ', last);
      WordsOfWord(last);
    }
  }

  /** `strip()` keeps every word. */
  lemma {:induction false} WordsOfStrip(s: string)
    ensures Words(Strip(s)) == Words(s)
  {
    WordsOfStripStart(s);
    WordsOfStripEnd(StripStart(s));
  }

  lemma {:induction false} WordsOfStripStart(s: string)
    ensures Words(StripStart(s)) == Words(s)
  {
    var t := StripStart(s);
    assert s == s[..|s| - |t|] + t;
    WordsBlankPrefix(s[..|s| - |t|], t);
  }

  lemma {:induction false} WordsOfStripEnd(t: string)
    ensures Words(StripEnd(t)) == Words(t)
  {
    var r := StripEnd(t);
    assert t == r + t[|r|..];
    WordsBlankSuffix(r, t[|r|..]);
  }

  /** Splitting at newlines first and then splitting each piece into words
      gives the same words as splitting the whole text. */
  lemma {:induction false} WordsOfLines(ps: seq<string>)
    ensures Flatten(WordsEach(ps)) == Words(JoinLines(ps))
    decreases |ps|
  {
    if |ps| == 0 {
      assert Words("") == [];
    } else if |ps| == 1 {
      assert WordsEach(ps)[1..] == [];
    } else {
      WordsOfLines(ps[1..]);
      assert WordsEach(ps)[1..] == WordsEach(ps[1..]);
      assert JoinLines(ps) == ps[0] + ['\n'] + JoinLines(ps[1..]);
      WordsAppendSpace(ps[0], '\n', JoinLines(ps[1..]));
    }
  }

  /** The words of each string of a sequence. */
  function WordsEach(ps: seq<string>): (r: seq<seq<string>>)
    ensures |r| == |ps|
    ensures forall i :: 0 <= i < |ps| ==> r[i] == Words(ps[i])
  {
    seq(|ps|, i requires 0 <= i < |ps| => Words(ps[i]))
  }
}
