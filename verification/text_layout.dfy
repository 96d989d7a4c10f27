/** Text layout: the greedy word wrap and line placement of
    `draw_text_centered`, and the paragraph handling and placement of
    `add_back_cover_text`. Text width is whatever the font engine
    reports, an arbitrary function `measure` from a line to its width in
    pixels. */
module TextLayout {
  import opened PyText

  // ---------------------------------------------------------------------
  // Greedy wrap.

  /** A group of words that the wrap keeps on one line without the
      single-word escape: one word or none, or a line within the width. */
  predicate Fits(g: seq<string>, measure: string -> int, maxWidth: int) {
    |g| <= 1 || measure(JoinWords(g)) <= maxWidth
  }

  /** Every line fits. */
  predicate AllFit(gs: seq<seq<string>>, measure: string -> int, maxWidth: int) {
    forall i :: 0 <= i < |gs| ==> Fits(gs[i], measure, maxWidth)
  }

  /** Every line after the first starts with a word that would have
      overflowed the line before it. */
  predicate BreaksForced(gs: seq<seq<string>>, measure: string -> int, maxWidth: int)
    requires forall i :: 0 <= i < |gs| ==> gs[i] != []
  {
    forall i :: 0 < i < |gs| ==> measure(JoinWords(gs[i - 1] + [gs[i][0]])) > maxWidth
  }

  /** Every line is made of words. */
  predicate AllWordGroups(gs: seq<seq<string>>) {
    forall i :: 0 <= i < |gs| ==> AllWords(gs[i])
  }

  /** The wrap loop of `draw_text_centered` and `add_back_cover_text`,
      continuing a current line `cur`: each word joins the current line
      when the joined line measures within `maxWidth`, or when the current
      line is empty; otherwise the current line is closed and the word
      starts the next one. Returns the words of each line. */
  function WrapGroups(words: seq<string>, cur: seq<string>, measure: string -> int, maxWidth: int): (gs: seq<seq<string>>)
    ensures Flatten(gs) == cur + words
    ensures forall i :: 0 <= i < |gs| ==> gs[i] != []
    ensures cur != [] ==> |gs| > 0 && gs[0][0] == cur[0]
    decreases |words|
  {
    if |words| == 0 then
      if cur == [] then [] else
        assert Flatten([cur]) == cur + Flatten([cur][1..]);
        [cur]
    else
      var word := words[0];
      assert cur + words == (cur + [word]) + words[1..];
      if measure(JoinWords(cur + [word])) <= maxWidth || cur == [] then
        WrapGroups(words[1..], cur + [word], measure, maxWidth)
      else
        var rest := WrapGroups(words[1..], [word], measure, maxWidth);
        assert ([cur] + rest)[1..] == rest;
        [cur] + rest
  }

  /** Every line of two or more words fits the width, provided the line
      the wrap started from did. */
  lemma {:induction false} WrapFits(words: seq<string>, cur: seq<string>, measure: string -> int, maxWidth: int)
    requires Fits(cur, measure, maxWidth)
    ensures AllFit(WrapGroups(words, cur, measure, maxWidth), measure, maxWidth)
    decreases |words|
  {
    if |words| > 0 {
      var word := words[0];
      if measure(JoinWords(cur + [word])) <= maxWidth || cur == [] {
        assert Fits(cur + [word], measure, maxWidth);
        WrapFits(words[1..], cur + [word], measure, maxWidth);
        assert WrapGroups(words, cur, measure, maxWidth) == WrapGroups(words[1..], cur + [word], measure, maxWidth);
      } else {
        WrapFits(words[1..], [word], measure, maxWidth);
        var rest := WrapGroups(words[1..], [word], measure, maxWidth);
        var gs := [cur] + rest;
        assert WrapGroups(words, cur, measure, maxWidth) == gs;
        forall i | 0 <= i < |gs|
          ensures Fits(gs[i], measure, maxWidth)
        {
          if i > 0 {
            assert gs[i] == rest[i - 1];
          }
        }
      }
    }
  }

  /** Every line break is forced: the first word of each line would not
      have fitted on the line before it. */
  lemma {:induction false} WrapBreaksForced(words: seq<string>, cur: seq<string>, measure: string -> int, maxWidth: int)
    ensures BreaksForced(WrapGroups(words, cur, measure, maxWidth), measure, maxWidth)
    decreases |words|
  {
    if |words| > 0 {
      var word := words[0];
      if measure(JoinWords(cur + [word])) <= maxWidth || cur == [] {
        WrapBreaksForced(words[1..], cur + [word], measure, maxWidth);
        assert WrapGroups(words, cur, measure, maxWidth) == WrapGroups(words[1..], cur + [word], measure, maxWidth);
      } else {
        WrapBreaksForced(words[1..], [word], measure, maxWidth);
        var rest := WrapGroups(words[1..], [word], measure, maxWidth);
        var gs := [cur] + rest;
        assert WrapGroups(words, cur, measure, maxWidth) == gs;
        forall i | 0 < i < |gs|
          ensures measure(JoinWords(gs[i - 1] + [gs[i][0]])) > maxWidth
        {
          assert gs[i] == rest[i - 1];
          if i > 1 {
            assert gs[i - 1] == rest[i - 2];
          }
        }
      }
    }
  }

  /** Lines are made of words when the input is. */
  lemma {:induction false} WrapKeepsWords(words: seq<string>, cur: seq<string>, measure: string -> int, maxWidth: int)
    requires AllWords(cur) && AllWords(words)
    ensures AllWordGroups(WrapGroups(words, cur, measure, maxWidth))
    decreases |words|
  {
    if |words| > 0 {
      var word := words[0];
      if measure(JoinWords(cur + [word])) <= maxWidth || cur == [] {
        WrapKeepsWords(words[1..], cur + [word], measure, maxWidth);
        assert WrapGroups(words, cur, measure, maxWidth) == WrapGroups(words[1..], cur + [word], measure, maxWidth);
      } else {
        WrapKeepsWords(words[1..], [word], measure, maxWidth);
        var rest := WrapGroups(words[1..], [word], measure, maxWidth);
        var gs := [cur] + rest;
        assert WrapGroups(words, cur, measure, maxWidth) == gs;
        forall i | 0 <= i < |gs|
          ensures AllWords(gs[i])
        {
          if i > 0 {
            assert gs[i] == rest[i - 1];
          }
        }
      }
    }
  }

  /** Font widths that never shrink when words are added to a line. */
  ghost predicate LineWidthBoundsWords(measure: string -> int) {
    forall g: seq<string>, k {:trigger measure(JoinWords(g)), g[k]} :: 0 <= k < |g| ==> measure(g[k]) <= measure(JoinWords(g))
  }

  /** With such a font, a word wider than the line width gets a line of
      its own. */
  lemma OverWideWordAlone(words: seq<string>, measure: string -> int, maxWidth: int, i: int, k: int)
    requires LineWidthBoundsWords(measure)
    requires var gs := WrapGroups(words, [], measure, maxWidth);
      0 <= i < |gs| && 0 <= k < |gs[i]| && measure(gs[i][k]) > maxWidth
    ensures var gs := WrapGroups(words, [], measure, maxWidth); gs[i] == [gs[i][k]]
  {
    WrapFits(words, [], measure, maxWidth);
    WideWordAlone(WrapGroups(words, [], measure, maxWidth), measure, maxWidth, i, k);
  }

  lemma WideWordAlone(gs: seq<seq<string>>, measure: string -> int, maxWidth: int, i: int, k: int)
    requires LineWidthBoundsWords(measure) && AllFit(gs, measure, maxWidth)
    requires 0 <= i < |gs| && 0 <= k < |gs[i]| && measure(gs[i][k]) > maxWidth
    ensures gs[i] == [gs[i][k]]
  {
    var g := gs[i];
    assert Fits(g, measure, maxWidth);
    assert measure(g[k]) <= measure(JoinWords(g));
  }

  /** `' '.join(...)` of each group. */
  function Lines(gs: seq<seq<string>>): (ls: seq<string>)
    ensures |ls| == |gs| && forall i :: 0 <= i < |gs| ==> ls[i] == JoinWords(gs[i])
  {
    seq(|gs|, i requires 0 <= i < |gs| => JoinWords(gs[i]))
  }

  /** The wrapped lines of a text: there is at least one exactly when the
      text holds a non-whitespace character, and none of them is blank. */
  function WrapText(text: string, measure: string -> int, maxWidth: int): (r: seq<string>)
    ensures r == [] <==> IsBlank(text)
    ensures NoBlankLine(r)
  {
    var gs := WrapGroups(Words(text), [], measure, maxWidth);
    WrapKeepsWords(Words(text), [], measure, maxWidth);
    LinesNotBlank(gs);
    Lines(gs)
  }

  /** Lines made of non-empty groups of words are never blank. */
  lemma LinesNotBlank(gs: seq<seq<string>>)
    requires forall i :: 0 <= i < |gs| ==> gs[i] != [] && AllWords(gs[i])
    ensures NoBlankLine(Lines(gs))
  {
    forall i | 0 <= i < |gs|
      ensures !IsBlank(Lines(gs)[i])
    {
      JoinedWordsNotBlank(gs[i]);
    }
  }

  /** Splitting the lines of a wrap into words gives back the words of the
      text, in order, none lost and none added. */
  lemma WrapTextWords(text: string, measure: string -> int, maxWidth: int)
    ensures Flatten(WordsEach(WrapText(text, measure, maxWidth))) == Words(text)
  {
    var gs := WrapGroups(Words(text), [], measure, maxWidth);
    WrapKeepsWords(Words(text), [], measure, maxWidth);
    forall i | 0 <= i < |gs|
      ensures WordsEach(Lines(gs))[i] == gs[i]
    {
      WordsOfJoin(gs[i]);
    }
    assert WordsEach(Lines(gs)) == gs;
  }

  /** A line made of words is never blank. */
  lemma JoinedWordsNotBlank(g: seq<string>)
    requires g != [] && AllWords(g)
    ensures !IsBlank(JoinWords(g))
  {
    var r, last := JoinWords(g), g[|g| - 1];
    assert IsWord(last);
    assert r[|r| - |last|] == last[0];
  }

  predicate NoBlankLine(ls: seq<string>) {
    forall i :: 0 <= i < |ls| ==> !IsBlank(ls[i])
  }

  // ---------------------------------------------------------------------
  // draw_text_centered.

  /** A line of text drawn with its top-left corner at `(x, y)`. */
  datatype Placed = Placed(x: int, y: int, text: string)

  /** The lines `draw_text_centered` draws: the wrapped text when a width
      is given (any non-zero width, as Python tests `if max_width`), the
      text itself otherwise. */
  function CenteredLines(text: string, measure: string -> int, maxWidth: int): seq<string>
  {
    if maxWidth != 0 then WrapText(text, measure, maxWidth) else [text]
  }

  /** Lines stacked from `y` down, one `lineHeight` apart, each centred on
      the column `ax` by its own width. */
  function StackCentered(lines: seq<string>, ax: int, y: int, measure: string -> int, lineHeight: int): (ps: seq<Placed>)
    ensures |ps| == |lines|
    ensures forall i :: 0 <= i < |ps| ==> ps[i].text == lines[i]
    ensures forall i :: 0 <= i < |ps| ==> 0 <= measure(ps[i].text) - 2 * (ax - ps[i].x) <= 1
    ensures |ps| > 0 ==> ps[0].y == y
    ensures forall i :: 0 < i < |ps| ==> ps[i].y - ps[i - 1].y == lineHeight
    decreases |lines|
  {
    if |lines| == 0 then []
    else
      var rest := StackCentered(lines[1..], ax, y + lineHeight, measure, lineHeight);
      var ps := [Placed(ax - measure(lines[0]) / 2, y, lines[0])] + rest;
      assert forall i :: 0 < i < |ps| ==> ps[i] == rest[i - 1];
      ps
  }

  /** `draw_text_centered(draw, text, (ax, ay), font, fill, maxWidth)`:
      nothing for whitespace-only text; otherwise its lines, the block
      vertically centred on `ay` and each line horizontally centred on
      `ax`. */
  function DrawTextCentered(text: string, ax: int, ay: int, measure: string -> int, lineHeight: int, maxWidth: int): (ps: seq<Placed>)
    ensures ps == [] <==> IsBlank(text)
    ensures forall i :: 0 <= i < |ps| ==> 0 <= measure(ps[i].text) - 2 * (ax - ps[i].x) <= 1
    ensures |ps| > 0 ==> ps[0].y == ay - (|ps| * lineHeight) / 2
    ensures forall i :: 0 < i < |ps| ==> ps[i].y - ps[i - 1].y == lineHeight
  {
    if IsBlank(text) then []
    else
      var lines := CenteredLines(text, measure, maxWidth);
      StackCentered(lines, ax, ay - (|lines| * lineHeight) / 2, measure, lineHeight)
  }

  /** The texts of placed lines. */
  function Texts(ps: seq<Placed>): (ts: seq<string>)
    ensures |ts| == |ps| && forall i :: 0 <= i < |ps| ==> ts[i] == ps[i].text
  {
    seq(|ps|, i requires 0 <= i < |ps| => ps[i].text)
  }

  /** With a width, splitting the drawn lines into words gives back the
      wrap's lines: so they hold exactly the words of the text, in order,
      every line of two or more words fits the width, and every break was
      forced by the next word. */
  lemma DrawTextCenteredWraps(text: string, ax: int, ay: int, measure: string -> int, lineHeight: int, maxWidth: int)
    requires maxWidth != 0
    ensures WordsEach(Texts(DrawTextCentered(text, ax, ay, measure, lineHeight, maxWidth)))
            == WrapGroups(Words(text), [], measure, maxWidth)
    ensures Flatten(WordsEach(Texts(DrawTextCentered(text, ax, ay, measure, lineHeight, maxWidth)))) == Words(text)
    ensures AllFit(WordsEach(Texts(DrawTextCentered(text, ax, ay, measure, lineHeight, maxWidth))), measure, maxWidth)
    ensures BreaksForced(WordsEach(Texts(DrawTextCentered(text, ax, ay, measure, lineHeight, maxWidth))), measure, maxWidth)
    ensures Texts(DrawTextCentered(text, ax, ay, measure, lineHeight, maxWidth)) == WrapText(text, measure, maxWidth)
  {
    var ps := DrawTextCentered(text, ax, ay, measure, lineHeight, maxWidth);
    var gs := WrapGroups(Words(text), [], measure, maxWidth);
    WrapKeepsWords(Words(text), [], measure, maxWidth);
    WrapFits(Words(text), [], measure, maxWidth);
    WrapBreaksForced(Words(text), [], measure, maxWidth);
    if !IsBlank(text) {
      assert Texts(ps) == Lines(gs);
      forall i | 0 <= i < |gs|
        ensures WordsEach(Lines(gs))[i] == gs[i]
      {
        WordsOfJoin(gs[i]);
      }
      assert WordsEach(Lines(gs)) == gs;
    } else {
      assert Texts(ps) == [];
      assert WordsEach([]) == [];
    }
  }

  // ---------------------------------------------------------------------
  // add_back_cover_text.

  /** The description font size: four points below the author's, but
      never below 12. */
  function DescriptionFontSize(authorFontSize: int): (size: int)
    ensures size >= 12 && size >= authorFontSize - 4
    ensures size == 12 || size == authorFontSize - 4
  {
    if authorFontSize - 4 > 12 then authorFontSize - 4 else 12
  }

  /** The paragraph loop of `add_back_cover_text`: each paragraph with
      some non-whitespace text contributes its wrapped lines followed by
      one empty line; whitespace-only paragraphs contribute nothing. So
      there are lines exactly when some paragraph is not blank, and then
      they start with a non-blank line and end with a non-blank line and
      the empty one after it. */
  function ParagraphLines(ps: seq<string>, measure: string -> int, width: int): (r: seq<string>)
    ensures r == [] <==> AllBlank(ps)
    ensures r != [] ==> ParagraphShaped(r)
    decreases |ps|
  {
    if |ps| == 0 then []
    else
      var head := if IsBlank(ps[0]) then [] else WrapText(ps[0], measure, width) + [""];
      var tail := ParagraphLines(ps[1..], measure, width);
      AllBlankCons(ps);
      ParagraphGlue(head, tail);
      head + tail
  }

  lemma AllBlankCons(ps: seq<string>)
    requires ps != []
    ensures AllBlank(ps) <==> IsBlank(ps[0]) && AllBlank(ps[1..])
  {
    assert forall i :: 0 < i < |ps| ==> ps[i] == ps[1..][i - 1];
  }

  /** Paragraph-shaped runs of lines glue into one. */
  lemma ParagraphGlue(head: seq<string>, tail: seq<string>)
    requires head == [] || ParagraphShaped(head)
    requires tail == [] || ParagraphShaped(tail)
    ensures head + tail == [] || ParagraphShaped(head + tail)
  {
    var r := head + tail;
    if head != [] {
      assert r[0] == head[0];
      if tail == [] {
        assert r == head;
      } else {
        assert r[|r| - 2] == tail[|tail| - 2];
        assert r[|r| - 1] == tail[|tail| - 1];
      }
    }
  }

  predicate AllBlank(ps: seq<string>) {
    forall i :: 0 <= i < |ps| ==> IsBlank(ps[i])
  }

  /** Lines starting with a non-blank line and ending with a non-blank
      line and the empty one after it. */
  predicate ParagraphShaped(r: seq<string>) {
    |r| >= 2 && !IsBlank(r[0]) && !IsBlank(r[|r| - 2]) && r[|r| - 1] == ""
  }

  /** The description lines: the text is stripped and split at newlines,
      the paragraphs are wrapped, and the empty line after the last
      paragraph is removed, so that the description starts and ends with a
      non-blank line. */
  function BackCoverLines(text: string, measure: string -> int, width: int): (r: seq<string>)
    ensures r != [] ==> !IsBlank(r[0]) && !IsBlank(r[|r| - 1])
  {
    var all := ParagraphLines(SplitLines(Strip(text)), measure, width);
    if |all| > 0 && all[|all| - 1] == "" then all[..|all| - 1] else all
  }

  /** Reference description: the wrapped non-blank paragraphs... */
  function Blocks(ps: seq<string>, measure: string -> int, width: int): (bs: seq<seq<string>>)
    ensures forall i :: 0 <= i < |bs| ==> bs[i] != [] && NoBlankLine(bs[i])
    decreases |ps|
  {
    if |ps| == 0 then []
    else if IsBlank(ps[0]) then Blocks(ps[1..], measure, width)
    else
      var rest := Blocks(ps[1..], measure, width);
      var bs := [WrapText(ps[0], measure, width)] + rest;
      assert forall i :: 0 < i < |bs| ==> bs[i] == rest[i - 1];
      bs
  }

  /** ...joined with exactly one empty line between consecutive ones. */
  function JoinBlocks(bs: seq<seq<string>>): seq<string>
    decreases |bs|
  {
    if |bs| == 0 then []
    else if |bs| == 1 then bs[0]
    else bs[0] + [""] + JoinBlocks(bs[1..])
  }

  /** The paragraph loop leaves one empty line after every block. */
  lemma {:induction false} ParagraphLinesBlocks(ps: seq<string>, measure: string -> int, width: int)
    ensures ParagraphLines(ps, measure, width) ==
      if Blocks(ps, measure, width) == [] then [] else JoinBlocks(Blocks(ps, measure, width)) + [""]
    decreases |ps|
  {
    if |ps| > 0 {
      ParagraphLinesBlocks(ps[1..], measure, width);
      var tail := ParagraphLines(ps[1..], measure, width);
      if IsBlank(ps[0]) {
        assert ParagraphLines(ps, measure, width) == tail;
      } else {
        var w := WrapText(ps[0], measure, width);
        var rest := Blocks(ps[1..], measure, width);
        assert ParagraphLines(ps, measure, width) == (w + [""]) + tail;
        assert Blocks(ps, measure, width) == [w] + rest;
        BlocksStep(w, rest, tail);
      }
    }
  }

  /** One more block in front of the joined blocks. */
  lemma BlocksStep(w: seq<string>, rest: seq<seq<string>>, tail: seq<string>)
    requires tail == if rest == [] then [] else JoinBlocks(rest) + [""]
    ensures (w + [""]) + tail == JoinBlocks([w] + rest) + [""]
  {
    var bs := [w] + rest;
    if rest != [] {
      assert bs[1..] == rest;
      assert JoinBlocks(bs) == w + [""] + JoinBlocks(rest);
    }
  }

  /** `add_back_cover_text`'s lines are the wrapped non-blank paragraphs
      with exactly one empty line between consecutive paragraphs and none
      before the first or after the last. */
  lemma BackCoverLinesAreJoinedBlocks(text: string, measure: string -> int, width: int)
    ensures BackCoverLines(text, measure, width) ==
      JoinBlocks(Blocks(SplitLines(Strip(text)), measure, width))
  {
    var ps := SplitLines(Strip(text));
    ParagraphLinesBlocks(ps, measure, width);
    var all := ParagraphLines(ps, measure, width);
    var bs := Blocks(ps, measure, width);
    if bs != [] {
      assert all[..|all| - 1] == JoinBlocks(bs);
    }
  }

  /** Lines where every blank line is empty and lies strictly between two
      non-blank lines. */
  predicate Separated(ls: seq<string>) {
    && (|ls| > 0 ==> !IsBlank(ls[0]) && !IsBlank(ls[|ls| - 1]))
    && forall i :: 0 <= i < |ls| && IsBlank(ls[i]) ==>
         ls[i] == "" && 0 < i < |ls| - 1 && !IsBlank(ls[i - 1]) && !IsBlank(ls[i + 1])
  }

  /** Joining non-empty blocks of non-blank lines gives separated lines. */
  lemma {:induction false} JoinBlocksSeparated(bs: seq<seq<string>>)
    requires forall i :: 0 <= i < |bs| ==> bs[i] != [] && NoBlankLine(bs[i])
    ensures Separated(JoinBlocks(bs))
    decreases |bs|
  {
    if |bs| > 1 {
      JoinBlocksSeparated(bs[1..]);
      SeparatedGlue(bs[0], JoinBlocks(bs[1..]));
    }
  }

  lemma SeparatedGlue(a: seq<string>, c: seq<string>)
    requires a != [] && NoBlankLine(a) && c != [] && Separated(c)
    ensures Separated(a + [""] + c)
  {
    var ls := a + [""] + c;
    forall i | 0 <= i < |ls| && IsBlank(ls[i])
      ensures ls[i] == "" && 0 < i < |ls| - 1 && !IsBlank(ls[i - 1]) && !IsBlank(ls[i + 1])
    {
      if i > |a| {
        assert ls[i] == c[i - |a| - 1];
        assert ls[i + 1] == c[i - |a|];
        if i > |a| + 1 {
          assert ls[i - 1] == c[i - |a| - 2];
        }
      }
    }
  }

  /** The description never starts or ends with an empty line, and never
      holds two empty lines in a row. */
  lemma BackCoverLinesSeparated(text: string, measure: string -> int, width: int)
    ensures Separated(BackCoverLines(text, measure, width))
  {
    BackCoverLinesAreJoinedBlocks(text, measure, width);
    JoinBlocksSeparated(Blocks(SplitLines(Strip(text)), measure, width));
  }

  lemma WordsEachAppend(a: seq<string>, b: seq<string>)
    ensures WordsEach(a + b) == WordsEach(a) + WordsEach(b)
  {
  }

  /** The paragraph loop keeps the words of every paragraph. */
  lemma {:induction false} ParagraphLinesWords(ps: seq<string>, measure: string -> int, width: int)
    ensures Flatten(WordsEach(ParagraphLines(ps, measure, width))) == Flatten(WordsEach(ps))
    decreases |ps|
  {
    if |ps| > 0 {
      ParagraphLinesWords(ps[1..], measure, width);
      var tail := ParagraphLines(ps[1..], measure, width);
      var head := if IsBlank(ps[0]) then [] else WrapText(ps[0], measure, width) + [""];
      assert ParagraphLines(ps, measure, width) == head + tail;
      FlattenWordsEachAppend(head, tail);
      FlattenWordsEachCons(ps);
      if !IsBlank(ps[0]) {
        ParagraphWords(ps[0], measure, width);
      }
    }
  }

  lemma FlattenWordsEachCons(ps: seq<string>)
    requires ps != []
    ensures Flatten(WordsEach(ps)) == Words(ps[0]) + Flatten(WordsEach(ps[1..]))
  {
    assert WordsEach(ps) == [Words(ps[0])] + WordsEach(ps[1..]);
  }

  /** The words of a concatenation of lines. */
  lemma FlattenWordsEachAppend(a: seq<string>, b: seq<string>)
    ensures Flatten(WordsEach(a + b)) == Flatten(WordsEach(a)) + Flatten(WordsEach(b))
  {
    WordsEachAppend(a, b);
    FlattenAppend(WordsEach(a), WordsEach(b));
  }

  /** A wrapped paragraph and the empty line after it carry the words of
      the paragraph. */
  lemma ParagraphWords(p: string, measure: string -> int, width: int)
    ensures Flatten(WordsEach(WrapText(p, measure, width) + [""])) == Words(p)
  {
    var w := WrapText(p, measure, width);
    FlattenWordsEachAppend(w, [""]);
    assert Words("") == [];
    assert WordsEach([""]) == [[]];
    assert Flatten([[]]) == [];
    WrapTextWords(p, measure, width);
  }

  /** No word of the description is lost, added or reordered: splitting
      the lines into words gives `text.split()`. */
  lemma BackCoverLinesWords(text: string, measure: string -> int, width: int)
    ensures Flatten(WordsEach(BackCoverLines(text, measure, width))) == Words(text)
  {
    var ps := SplitLines(Strip(text));
    var all := ParagraphLines(ps, measure, width);
    ParagraphLinesWords(ps, measure, width);
    WordsOfLines(ps);
    WordsOfStrip(text);
    if |all| > 0 && all[|all| - 1] == "" {
      DropTrailingEmpty(all);
    }
  }

  /** An empty last line carries no words. */
  lemma DropTrailingEmpty(ls: seq<string>)
    requires |ls| > 0 && ls[|ls| - 1] == ""
    ensures Flatten(WordsEach(ls[..|ls| - 1])) == Flatten(WordsEach(ls))
  {
    var init := ls[..|ls| - 1];
    assert ls == init + [""];
    WordsEachAppend(init, [""]);
    assert Words("") == [];
    assert WordsEach([""]) == [[]];
    FlattenAppend(WordsEach(init), [[]]);
    assert Flatten([[]]) == [];
  }

  /** A description line drawn at `at`, or an empty separator line that
      only takes up its slot. */
  datatype Slot = Slot(at: Placed, drawn: bool)

  /** Description lines stacked from `y` down, `lineHeight` apart; each
      non-blank one centred in the box from `x` of the given width. */
  function StackInBox(lines: seq<string>, x: int, width: int, y: int, measure: string -> int, lineHeight: int): (ss: seq<Slot>)
    ensures |ss| == |lines|
    ensures forall i :: 0 <= i < |ss| ==> ss[i].at.text == lines[i] && (ss[i].drawn <==> !IsBlank(lines[i]))
    ensures forall i :: 0 <= i < |ss| ==>
      0 <= (width - measure(lines[i])) - 2 * (ss[i].at.x - x) <= 1
    ensures |ss| > 0 ==> ss[0].at.y == y
    ensures forall i :: 0 < i < |ss| ==> ss[i].at.y - ss[i - 1].at.y == lineHeight
    decreases |lines|
  {
    if |lines| == 0 then []
    else
      var rest := StackInBox(lines[1..], x, width, y + lineHeight, measure, lineHeight);
      var ss := [Slot(Placed(x + (width - measure(lines[0])) / 2, y, lines[0]), !IsBlank(lines[0]))] + rest;
      assert forall i :: 0 < i < |ss| ==> ss[i] == rest[i - 1];
      ss
  }

  /** `add_back_cover_text` inside the box at `(x, y)` of the given size,
      with the description font's measure and glyph height: nothing for a
      whitespace-only description; otherwise the description lines, four
      pixels of leading added to the glyph height, the block centred
      vertically in the half of the box that starts an eighth of the way
      down. */
  function BackCoverSlots(text: string, x: int, y: int, width: int, height: int,
                          measure: string -> int, glyphHeight: int): (ss: seq<Slot>)
    ensures IsBlank(text) ==> ss == []
    ensures |ss| == |BackCoverLines(text, measure, width)|
    ensures forall i :: 0 <= i < |ss| ==>
      ss[i].at.text == BackCoverLines(text, measure, width)[i] && (ss[i].drawn <==> !IsBlank(ss[i].at.text))
    ensures forall i :: 0 <= i < |ss| ==>
      0 <= (width - measure(ss[i].at.text)) - 2 * (ss[i].at.x - x) <= 1
    ensures |ss| > 0 ==>
      ss[0].at.y == y + height / 8 + (height / 2 - |ss| * (glyphHeight + 4)) / 2
    ensures forall i :: 0 < i < |ss| ==> ss[i].at.y - ss[i - 1].at.y == glyphHeight + 4
  {
    var lines := BackCoverLines(text, measure, width);
    if IsBlank(text) then
      BackCoverLinesWords(text, measure, width);
      BackCoverLinesSeparated(text, measure, width);
      BlankFreeWordless(lines);
      []
    else
      var lh := glyphHeight + 4;
      StackInBox(lines, x, width, y + height / 8 + (height / 2 - |lines| * lh) / 2, measure, lh)
  }

  /** Separated lines without words are no lines at all. */
  lemma BlankFreeWordless(ls: seq<string>)
    requires Separated(ls) && Flatten(WordsEach(ls)) == []
    ensures ls == []
  {
  }

  function SlotTexts(ss: seq<Slot>): (ts: seq<string>)
    ensures |ts| == |ss| && forall i :: 0 <= i < |ss| ==> ts[i] == ss[i].at.text
  {
    seq(|ss|, i requires 0 <= i < |ss| => ss[i].at.text)
  }

  /** The back cover shows the words of the description, in order, and
      nothing else; its empty lines only separate paragraphs. */
  lemma BackCoverSlotsWords(text: string, x: int, y: int, width: int, height: int,
                            measure: string -> int, glyphHeight: int)
    ensures Flatten(WordsEach(SlotTexts(BackCoverSlots(text, x, y, width, height, measure, glyphHeight))))
            == Words(text)
    ensures Separated(SlotTexts(BackCoverSlots(text, x, y, width, height, measure, glyphHeight)))
  {
    var ss := BackCoverSlots(text, x, y, width, height, measure, glyphHeight);
    assert SlotTexts(ss) == BackCoverLines(text, measure, width);
    BackCoverLinesWords(text, measure, width);
    BackCoverLinesSeparated(text, measure, width);
  }
}
