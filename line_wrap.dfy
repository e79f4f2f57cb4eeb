/** `wrapToWidth` of the editor view: greedy word wrapping of a file's content into
    display lines of at most `maxChars` characters, with words longer than a line
    hard-split into fixed-width slices.

    The specification functions below follow the source's loops step by step
    (`PlaceWord` is one turn of the loop over words, `PackWords` the loop over one
    paragraph, `Wrap` the loop over paragraphs); `WrapToWidth` is the loop program
    itself, proved equal to `Wrap`; the lemmas state what the wrapping guarantees. */
module LineWrap {
  import opened Text

  /** The state of the loop over the words of one paragraph: the lines pushed so far
      and the pending `line`. */
  datatype Pack = Pack(lines: seq<string>, line: string)

  function Min(a: int, b: int): int { if a <= b then a else b }

  /** The hard split of an over-long word: `w.slice(i, i + maxChars)` for
      i = 0, maxChars, 2 * maxChars, ... while i < |w|. */
  function Slices(w: string, maxChars: int): seq<string>
    requires maxChars >= 1
    decreases |w|
  {
    if |w| == 0 then []
    else if |w| <= maxChars then [w]
    else [w[..maxChars]] + Slices(w[maxChars..], maxChars)
  }

  /** The slices spell out the word, none is empty, and all but the last are exactly
      `maxChars` wide. */
  lemma {:induction false} SlicesSpellWord(w: string, maxChars: int)
    requires maxChars >= 1
    ensures Flatten(Slices(w, maxChars)) == w
    ensures forall i | 0 <= i < |Slices(w, maxChars)| :: 0 < |Slices(w, maxChars)[i]| <= maxChars
    ensures forall i | 0 <= i < |Slices(w, maxChars)| - 1 :: |Slices(w, maxChars)[i]| == maxChars
    decreases |w|
  {
    if 0 < |w| <= maxChars {
      FlattenSingle(w);
    } else if |w| > maxChars {
      var rest := Slices(w[maxChars..], maxChars);
      SlicesSpellWord(w[maxChars..], maxChars);
      assert Slices(w, maxChars) == [w[..maxChars]] + rest;
      assert ([w[..maxChars]] + rest)[1..] == rest;
      assert w == w[..maxChars] + w[maxChars..];
    }
  }

  /** One turn of the loop over words: a word longer than `maxChars` first flushes a
      pending line that is not blank (with its trailing white space trimmed) and is
      then emitted as slices; any other word joins the pending line, after one space
      when the line is not empty, if the result fits, and otherwise the non-empty
      pending line is emitted and the word starts a new one. */
  function PlaceWord(acc: Pack, w: string, maxChars: int): Pack
    requires maxChars >= 1
  {
    Pack(acc.lines + Emitted(acc.line, w, maxChars), Pending(acc.line, w, maxChars))
  }

  /** The lines that placing `w` after the pending `line` pushes. */
  function Emitted(line: string, w: string, maxChars: int): seq<string>
    requires maxChars >= 1
  {
    if |w| > maxChars then
      (if IsBlank(line) then [] else [TrimEnd(line)]) + Slices(w, maxChars)
    else if |Candidate(line, w)| <= maxChars || |line| == 0 then []
    else [line]
  }

  /** The pending line after placing `w`. */
  function Pending(line: string, w: string, maxChars: int): string
    requires maxChars >= 1
  {
    if |w| > maxChars then (if IsBlank(line) then line else "")
    else if |Candidate(line, w)| <= maxChars then Candidate(line, w)
    else w
  }

  /** `line.length ? `${line} ${w}` : w` */
  function Candidate(line: string, w: string): string {
    if |line| > 0 then line + " " + w else w
  }

  /** The loop over the words of one paragraph, from an empty pending line. */
  function PackWords(words: seq<string>, maxChars: int): Pack
    requires maxChars >= 1
  {
    if |words| == 0 then Pack([], "")
    else PlaceWord(PackWords(words[..|words| - 1], maxChars), words[|words| - 1], maxChars)
  }

  /** The lines of one paragraph: one empty line for a blank paragraph, else the
      packed words of its split on single spaces and the last pending line if it is
      not empty. */
  function WrapParagraph(p: string, maxChars: int): seq<string>
    requires maxChars >= 1
  {
    if IsBlank(p) then [""]
    else
      var done := PackWords(Split(p, ' '), maxChars);
      done.lines + (if |done.line| > 0 then [done.line] else [])
  }

  /** The lines of the paragraphs, in order. */
  function WrapParagraphs(ps: seq<string>, maxChars: int): seq<string>
    requires maxChars >= 1
  {
    if |ps| == 0 then []
    else WrapParagraphs(ps[..|ps| - 1], maxChars) + WrapParagraph(ps[|ps| - 1], maxChars)
  }

  /** `wrapToWidth(text, maxChars)`: the paragraphs are the pieces between newlines. */
  function Wrap(text: string, maxChars: int): seq<string>
    requires maxChars >= 1
  {
    WrapParagraphs(Split(text, '\n'), maxChars)
  }

  /** `wrapToWidth` as the source runs it: a loop over the paragraphs, pushing the
      lines of each onto `out`. Every line it returns fits the budget. */
  method WrapToWidth(text: string, maxChars: int) returns (out: seq<string>)
    requires maxChars >= 1
    ensures out == Wrap(text, maxChars)
    ensures forall i | 0 <= i < |out| :: |out[i]| <= maxChars
  {
    var paragraphs := Split(text, '\n');
    out := [];
    var k := 0;
    while k < |paragraphs|
      invariant 0 <= k <= |paragraphs|
      invariant out == WrapParagraphs(paragraphs[..k], maxChars)
    {
      assert paragraphs[..k + 1][..k] == paragraphs[..k];
      out := PushParagraph(out, paragraphs[k], maxChars);
      k := k + 1;
    }
    assert paragraphs[..|paragraphs|] == paragraphs;
    WrapFits(text, maxChars);
  }

  /** The body of the loop over paragraphs: a blank paragraph pushes one empty line;
      any other is split on single spaces, its words are packed, and the last pending
      line is pushed if it is not empty. */
  method PushParagraph(out0: seq<string>, p: string, maxChars: int) returns (out: seq<string>)
    requires maxChars >= 1
    ensures out == out0 + WrapParagraph(p, maxChars)
  {
    var words := Split(p, ' ');
    if IsBlank(p) {
      out := out0 + [""];
    } else {
      var line;
      out, line := PackWordsInto(out0, words, maxChars);
      if |line| > 0 {
        out := out + [line];
      }
    }
  }

  /** The loop over the words of a paragraph, which updates the pending `line` and
      pushes the lines it completes onto `out`. */
  method PackWordsInto(out0: seq<string>, words: seq<string>, maxChars: int)
    returns (out: seq<string>, line: string)
    requires maxChars >= 1
    ensures out == out0 + PackWords(words, maxChars).lines
    ensures line == PackWords(words, maxChars).line
  {
    out, line := out0, "";
    var j := 0;
    while j < |words|
      invariant 0 <= j <= |words|
      invariant out == out0 + PackWords(words[..j], maxChars).lines
      invariant line == PackWords(words[..j], maxChars).line
    {
      PackWordsStep(words, j, maxChars);
      out, line := PlaceNextWord(out0, PackWords(words[..j], maxChars), words[j], out, line, maxChars);
      j := j + 1;
    }
    assert words[..|words|] == words;
  }

  /** One round of the loop over words: from the state after the words packed into
      `acc` to the state after `w` too. It exists only to carry the ghost `acc` that
      ties the loop's variables to `PackWords`; the work is in `PlaceWordInto`. */
  method PlaceNextWord(out0: seq<string>, ghost acc: Pack, w: string,
                       out1: seq<string>, line1: string, maxChars: int)
    returns (out: seq<string>, line: string)
    requires maxChars >= 1
    requires out1 == out0 + acc.lines && line1 == acc.line
    ensures out == out0 + PlaceWord(acc, w, maxChars).lines
    ensures line == PlaceWord(acc, w, maxChars).line
  {
    out, line := PlaceWordInto(out1, line1, w, maxChars);
    assert out == out0 + (acc.lines + Emitted(acc.line, w, maxChars));
  }

  lemma PackWordsStep(words: seq<string>, j: nat, maxChars: int)
    requires maxChars >= 1 && j < |words|
    ensures PackWords(words[..j + 1], maxChars) == PlaceWord(PackWords(words[..j], maxChars), words[j], maxChars)
  {
    assert words[..j + 1][..j] == words[..j];
  }

  /** The body of the loop over words: places `w` after the pending `line`,
      pushing onto `out` the lines it completes. */
  method PlaceWordInto(out0: seq<string>, line0: string, w: string, maxChars: int)
    returns (out: seq<string>, line: string)
    requires maxChars >= 1
    ensures out == out0 + Emitted(line0, w, maxChars)
    ensures line == Pending(line0, w, maxChars)
  {
    if |w| > maxChars {
      out, line := FlushAndSlice(out0, line0, w, maxChars);
      return;
    }
    out, line := out0, line0;
    var candidate := if |line| > 0 then line + " " + w else w;
    if |candidate| <= maxChars {
      line := candidate;
    } else {
      if |line| > 0 {
        out := out + [line];
      }
      line := w;
    }
  }

  /** The branch for a word longer than the budget: the pending line is pushed with its
      trailing white space trimmed unless it is blank, then the word's slices. */
  method FlushAndSlice(out0: seq<string>, line0: string, w: string, maxChars: int)
    returns (out: seq<string>, line: string)
    requires maxChars >= 1 && |w| > maxChars
    ensures out == out0 + Emitted(line0, w, maxChars)
    ensures line == Pending(line0, w, maxChars)
  {
    out, line := out0, line0;
    var flushed: seq<string> := [];
    if !IsBlank(line) {
      flushed := [TrimEnd(line)];
      out := out + flushed;
      line := "";
    }
    var slices := Slices(w, maxChars);
    assert Emitted(line0, w, maxChars) == flushed + slices;
    out := PushSlices(out, w, maxChars);
    assert out == out0 + (flushed + slices);
  }

  /** The hard split of an over-long word: `w.slice(i, i + maxChars)` is pushed for
      i = 0, maxChars, 2 * maxChars, ... while i < |w|. */
  method PushSlices(out0: seq<string>, w: string, maxChars: int) returns (out: seq<string>)
    requires maxChars >= 1
    ensures out == out0 + Slices(w, maxChars)
  {
    out := out0;
    var i := 0;
    assert w[0..] == w;
    while i < |w|
      invariant 0 <= i
      invariant out0 + Slices(w, maxChars) == out + Slices(w[Min(i, |w|)..], maxChars)
      decreases |w| - i
    {
      var rest := w[i..];
      assert w[i..Min(i + maxChars, |w|)] == rest[..Min(maxChars, |rest|)];
      assert w[Min(i + maxChars, |w|)..] == rest[Min(maxChars, |rest|)..];
      if |rest| <= maxChars {
        assert rest[..|rest|] == rest && rest[|rest|..] == [];
      }
      assert Slices(rest, maxChars)
          == [rest[..Min(maxChars, |rest|)]] + Slices(rest[Min(maxChars, |rest|)..], maxChars);
      out := out + [w[i..Min(i + maxChars, |w|)]];
      i := i + maxChars;
    }
    assert w[|w|..] == [];
  }

  // ---------------------------------------------------------------------------
  // Lines stay within the budget

  /** A line as the wrapper emits it: within the budget, without a line break, and
      not starting with a space. */
  predicate WellFormed(line: string, maxChars: int) {
    |line| <= maxChars && '\n' !in line && (|line| > 0 ==> line[0] != ' ')
  }

  predicate AllWellFormed(ls: seq<string>, maxChars: int) {
    forall i | 0 <= i < |ls| :: WellFormed(ls[i], maxChars)
  }

  /** A piece of a paragraph's split on spaces. */
  predicate IsWord(w: string) {
    ' ' !in w && '\n' !in w
  }

  lemma SlicesWellFormed(w: string, maxChars: int)
    requires maxChars >= 1 && IsWord(w)
    ensures AllWellFormed(Slices(w, maxChars), maxChars)
  {
    var s := Slices(w, maxChars);
    SlicesSpellWord(w, maxChars);
    forall i | 0 <= i < |s| ensures WellFormed(s[i], maxChars) {
      if '\n' in s[i] {
        InFlatten(s, i, '\n');
      }
      InFlatten(s, i, s[i][0]);
    }
  }

  lemma PlaceWordWellFormed(acc: Pack, w: string, maxChars: int)
    requires maxChars >= 1 && IsWord(w)
    requires AllWellFormed(acc.lines, maxChars) && WellFormed(acc.line, maxChars)
    ensures AllWellFormed(PlaceWord(acc, w, maxChars).lines, maxChars)
    ensures WellFormed(PlaceWord(acc, w, maxChars).line, maxChars)
  {
    if |w| > maxChars {
      SlicesWellFormed(w, maxChars);
      if !IsBlank(acc.line) {
        var t := TrimEnd(acc.line);
        assert |t| > 0;
        assert t[0] == acc.line[0];
        assert WellFormed(t, maxChars);
      }
    } else if |acc.line| > 0 {
      assert (acc.line + " " + w)[0] == acc.line[0];
    } else if |w| > 0 {
      assert w[0] in w;
    }
  }

  lemma {:induction false} PackWordsWellFormed(words: seq<string>, maxChars: int)
    requires maxChars >= 1
    requires forall i | 0 <= i < |words| :: IsWord(words[i])
    ensures AllWellFormed(PackWords(words, maxChars).lines, maxChars)
    ensures WellFormed(PackWords(words, maxChars).line, maxChars)
    decreases |words|
  {
    if |words| > 0 {
      PackWordsWellFormed(words[..|words| - 1], maxChars);
      PlaceWordWellFormed(PackWords(words[..|words| - 1], maxChars), words[|words| - 1], maxChars);
    }
  }

  lemma ParagraphWellFormed(p: string, maxChars: int)
    requires maxChars >= 1 && '\n' !in p
    ensures AllWellFormed(WrapParagraph(p, maxChars), maxChars)
  {
    if !IsBlank(p) {
      var words := Split(p, ' ');
      forall i | 0 <= i < |words| ensures IsWord(words[i]) {
        if '\n' in words[i] {
          InJoin(words, ' ', i, '\n');
        }
      }
      PackWordsWellFormed(words, maxChars);
    }
  }

  lemma {:induction false} ParagraphsWellFormed(ps: seq<string>, maxChars: int)
    requires maxChars >= 1
    requires forall i | 0 <= i < |ps| :: '\n' !in ps[i]
    ensures AllWellFormed(WrapParagraphs(ps, maxChars), maxChars)
    decreases |ps|
  {
    if |ps| > 0 {
      ParagraphsWellFormed(ps[..|ps| - 1], maxChars);
      ParagraphWellFormed(ps[|ps| - 1], maxChars);
    }
  }

  /** Every line of the result has at most `maxChars` characters (slices of long words,
      adopted candidates and restarted lines alike), holds no newline, and does not
      start with a space. */
  lemma WrapFits(text: string, maxChars: int)
    requires maxChars >= 1
    ensures forall i | 0 <= i < |Wrap(text, maxChars)| :: |Wrap(text, maxChars)[i]| <= maxChars
    ensures AllWellFormed(Wrap(text, maxChars), maxChars)
  {
    ParagraphsWellFormed(Split(text, '\n'), maxChars);
  }

  // ---------------------------------------------------------------------------
  // The two placement rules

  /** A word longer than the budget: a pending line that is not blank is pushed
      first, with its trailing white space trimmed; then come slices that spell out
      the word, exactly `maxChars` wide but the last, which is not empty; afterwards
      the pending line is empty, unless it was blank, in which case it is kept. */
  lemma LongWordIsSliced(acc: Pack, w: string, maxChars: int)
    requires maxChars >= 1 && |w| > maxChars
    ensures var r := PlaceWord(acc, w, maxChars);
      var k := if IsBlank(acc.line) then |acc.lines| else |acc.lines| + 1;
      k < |r.lines|
      && r.lines[..|acc.lines|] == acc.lines
      && (!IsBlank(acc.line) ==> r.lines[|acc.lines|] == TrimEnd(acc.line))
      && Flatten(r.lines[k..]) == w
      && (forall i | k <= i < |r.lines| - 1 :: |r.lines[i]| == maxChars)
      && 0 < |r.lines[|r.lines| - 1]| <= maxChars
      && r.line == (if IsBlank(acc.line) then acc.line else [])
  {
    var r := PlaceWord(acc, w, maxChars);
    var flushed := if IsBlank(acc.line) then [] else [TrimEnd(acc.line)];
    var s := Slices(w, maxChars);
    SlicesSpellWord(w, maxChars);
    assert |s| > 0;
    assert r.lines == acc.lines + flushed + s;
    assert r.lines[|acc.lines| + |flushed|..] == s;
  }

  /** Any other word joins the pending line, after one space when the line is not
      empty, exactly when the result fits the budget; otherwise the pending line,
      which is then not empty, is pushed and the word starts the next line. This
      greedy rule is how `Emitted` and `Pending` are defined, so the lemma only
      restates those definitions case by case and needs no proof steps. */
  lemma GreedyPlacement(acc: Pack, w: string, maxChars: int)
    requires maxChars >= 1 && |w| <= maxChars
    ensures var r := PlaceWord(acc, w, maxChars);
      var joins := |acc.line| == 0 || |acc.line| + 1 + |w| <= maxChars;
      (joins ==> r.lines == acc.lines && r.line == (if |acc.line| == 0 then w else acc.line + " " + w))
      && (!joins ==> |acc.line| > 0 && r.lines == acc.lines + [acc.line] && r.line == w)
  {
  }

  /** A word of exactly `maxChars` characters always ends up alone on the pending line. */
  lemma FullWidthWordStandsAlone(acc: Pack, w: string, maxChars: int)
    requires maxChars >= 1 && |w| == maxChars
    ensures PlaceWord(acc, w, maxChars).line == w
  {
    GreedyPlacement(acc, w, maxChars);
  }

  // ---------------------------------------------------------------------------
  // Paragraphs are wrapped independently and in order

  lemma {:induction false} WrapParagraphsAppend(ps: seq<string>, qs: seq<string>, maxChars: int)
    requires maxChars >= 1
    ensures WrapParagraphs(ps + qs, maxChars) == WrapParagraphs(ps, maxChars) + WrapParagraphs(qs, maxChars)
    decreases |qs|
  {
    if |qs| == 0 {
      assert ps + qs == ps;
    } else {
      var init, last := qs[..|qs| - 1], qs[|qs| - 1];
      assert (ps + qs)[..|ps + qs| - 1] == ps + init;
      assert (ps + qs)[|ps + qs| - 1] == last;
      calc {
        WrapParagraphs(ps + qs, maxChars);
        WrapParagraphs(ps + init, maxChars) + WrapParagraph(last, maxChars);
        { WrapParagraphsAppend(ps, init, maxChars); }
        WrapParagraphs(ps, maxChars) + WrapParagraphs(init, maxChars) + WrapParagraph(last, maxChars);
        WrapParagraphs(ps, maxChars) + WrapParagraphs(qs, maxChars);
      }
    }
  }

  /** Text without a newline is a single paragraph. */
  lemma WrapOneParagraph(p: string, maxChars: int)
    requires maxChars >= 1 && '\n' !in p
    ensures Wrap(p, maxChars) == WrapParagraph(p, maxChars)
  {
    SplitWithoutSeparator(p, '\n');
    assert [p][..0] == [];
    assert WrapParagraphs([p], maxChars) == WrapParagraphs([], maxChars) + WrapParagraph(p, maxChars);
  }

  /** The lines of `a + "\n" + b` are the lines of `a` followed by the lines of `b`. */
  lemma WrapAtNewline(a: string, b: string, maxChars: int)
    requires maxChars >= 1
    ensures Wrap(a + "\n" + b, maxChars) == Wrap(a, maxChars) + Wrap(b, maxChars)
  {
    SplitAtSeparator(a, b, '\n');
    WrapParagraphsAppend(Split(a, '\n'), Split(b, '\n'), maxChars);
  }

  /** A blank or white-space-only paragraph becomes exactly one empty line. */
  lemma BlankParagraphIsOneEmptyLine(p: string, maxChars: int)
    requires maxChars >= 1 && '\n' !in p && IsBlank(p)
    ensures Wrap(p, maxChars) == [""]
  {
    WrapOneParagraph(p, maxChars);
  }

  /** An empty line between two texts survives as one empty display line. */
  lemma EmptyLineKept(a: string, b: string, maxChars: int)
    requires maxChars >= 1
    ensures Wrap(a + "\n\n" + b, maxChars) == Wrap(a, maxChars) + [""] + Wrap(b, maxChars)
  {
    var nb := [] + "\n" + b;
    assert a + "\n\n" + b == a + "\n" + nb;
    WrapAtNewline([], b, maxChars);
    BlankParagraphIsOneEmptyLine([], maxChars);
    var wb := Wrap(b, maxChars);
    assert Wrap(nb, maxChars) == [""] + wb;
    WrapAtNewline(a, nb, maxChars);
  }

  // ---------------------------------------------------------------------------
  // No visible character is lost, duplicated or moved

  lemma PlacementVisible(line: string, w: string, maxChars: int)
    requires maxChars >= 1
    ensures Visible(Flatten(Emitted(line, w, maxChars))) + Visible(Pending(line, w, maxChars))
         == Visible(line) + Visible(w)
  {
    if |w| > maxChars {
      LongWordVisible(line, w, maxChars);
    } else {
      ShortWordVisible(line, w, maxChars);
    }
  }

  lemma LongWordVisible(line: string, w: string, maxChars: int)
    requires maxChars >= 1 && |w| > maxChars
    ensures Visible(Flatten(Emitted(line, w, maxChars))) + Visible(Pending(line, w, maxChars))
         == Visible(line) + Visible(w)
  {
    var s := Slices(w, maxChars);
    var vw := Visible(w);
    SlicesSpellWord(w, maxChars);
    if IsBlank(line) {
      assert Emitted(line, w, maxChars) == s;
      assert Pending(line, w, maxChars) == line;
      VisibleBlank(line);
      assert vw + [] == [] + vw;
    } else {
      var t := TrimEnd(line);
      assert Emitted(line, w, maxChars) == [t] + s;
      assert Pending(line, w, maxChars) == [];
      FlushVisible(line, s, w);
    }
  }

  /** A flushed, trimmed line followed by the slices of `w` shows what the line and
      the word show. */
  lemma FlushVisible(line: string, s: seq<string>, w: string)
    requires Flatten(s) == w
    ensures Visible(Flatten([TrimEnd(line)] + s)) + Visible([]) == Visible(line) + Visible(w)
  {
    var t := TrimEnd(line);
    FlattenAppend([t], s);
    FlattenSingle(t);
    VisibleAppend(t, w);
    VisibleTrimEnd(line);
    VisibleBlank([]);
    var vt, vw := Visible(t), Visible(w);
    assert vt + vw + [] == vt + vw;
  }

  lemma ShortWordVisible(line: string, w: string, maxChars: int)
    requires maxChars >= 1 && |w| <= maxChars
    ensures Visible(Flatten(Emitted(line, w, maxChars))) + Visible(Pending(line, w, maxChars))
         == Visible(line) + Visible(w)
  {
    var vw := Visible(w);
    if |Candidate(line, w)| <= maxChars {
      assert Emitted(line, w, maxChars) == [];
      assert Pending(line, w, maxChars) == Candidate(line, w);
      if |line| > 0 {
        VisibleAppend(line + " ", w);
        VisibleAppend(line, " ");
        VisibleSeparator(' ');
        var vl := Visible(line);
        assert vl + [] == vl;
      } else {
        assert [] + vw == vw;
      }
    } else {
      assert |line| > 0;
      assert Emitted(line, w, maxChars) == [line];
      assert Pending(line, w, maxChars) == w;
      FlattenSingle(line);
    }
  }

  /** One step of the loop over words seen through `Visible`, stated on plain values. */
  lemma StepVisible(lines: seq<string>, emitted: seq<string>, line: string, pending: string, w: string)
    requires Visible(Flatten(emitted)) + Visible(pending) == Visible(line) + Visible(w)
    ensures Visible(Flatten(lines + emitted)) + Visible(pending)
         == Visible(Flatten(lines)) + Visible(line) + Visible(w)
  {
    FlattenAppend(lines, emitted);
    VisibleAppend(Flatten(lines), Flatten(emitted));
    Regroup(Visible(Flatten(lines)), Visible(Flatten(emitted)), Visible(pending), Visible(line), Visible(w));
  }

  /** The visible text of `init` followed by one more word. */
  lemma SnocVisible(words: seq<string>, init: seq<string>, w: string)
    requires words == init + [w]
    ensures Visible(Flatten(words)) == Visible(Flatten(init)) + Visible(w)
  {
    FlattenSnoc(init, w);
    VisibleAppend(Flatten(init), w);
  }

  /** A step of the loop over words keeps the visible text of the words placed so far. */
  lemma PackStepVisible(words: seq<string>, maxChars: int)
    requires maxChars >= 1 && |words| > 0
    requires Visible(Flatten(PackWords(words[..|words| - 1], maxChars).lines))
           + Visible(PackWords(words[..|words| - 1], maxChars).line)
          == Visible(Flatten(words[..|words| - 1]))
    ensures Visible(Flatten(PackWords(words, maxChars).lines)) + Visible(PackWords(words, maxChars).line)
         == Visible(Flatten(words))
  {
    var init, w := words[..|words| - 1], words[|words| - 1];
    SplitLast(words);
    assert PackWords(words, maxChars) == PlaceWord(PackWords(init, maxChars), w, maxChars);
    PlaceVisible(PackWords(words, maxChars), PackWords(init, maxChars), w, words, init, maxChars);
  }

  lemma PlaceVisible(r: Pack, acc: Pack, w: string, words: seq<string>, init: seq<string>, maxChars: int)
    requires maxChars >= 1
    requires r == PlaceWord(acc, w, maxChars) && words == init + [w]
    requires Visible(Flatten(acc.lines)) + Visible(acc.line) == Visible(Flatten(init))
    ensures Visible(Flatten(r.lines)) + Visible(r.line) == Visible(Flatten(words))
  {
    PlacementVisible(acc.line, w, maxChars);
    StepVisible(acc.lines, Emitted(acc.line, w, maxChars), acc.line, r.line, w);
    SnocVisible(words, init, w);
  }

  lemma {:induction false} PackWordsVisible(words: seq<string>, maxChars: int)
    requires maxChars >= 1
    ensures Visible(Flatten(PackWords(words, maxChars).lines)) + Visible(PackWords(words, maxChars).line)
         == Visible(Flatten(words))
    decreases |words|
  {
    if |words| > 0 {
      PackWordsVisible(words[..|words| - 1], maxChars);
      PackStepVisible(words, maxChars);
    }
  }

  lemma ParagraphVisible(p: string, maxChars: int)
    requires maxChars >= 1
    ensures Visible(Flatten(WrapParagraph(p, maxChars))) == Visible(p)
  {
    VisibleBlank(p);
    if IsBlank(p) {
      FlattenSingle("");
    } else {
      var words := Split(p, ' ');
      var done := PackWords(words, maxChars);
      var tail := if |done.line| > 0 then [done.line] else [];
      FlattenAppend(done.lines, tail);
      FlattenSingle(done.line);
      VisibleAppend(Flatten(done.lines), Flatten(tail));
      PackWordsVisible(words, maxChars);
      VisibleJoin(words, ' ');
    }
  }

  lemma {:induction false} ParagraphsVisible(ps: seq<string>, maxChars: int)
    requires maxChars >= 1
    ensures Visible(Flatten(WrapParagraphs(ps, maxChars))) == Visible(Flatten(ps))
    decreases |ps|
  {
    if |ps| > 0 {
      var init, p := ps[..|ps| - 1], ps[|ps| - 1];
      ParagraphsVisible(init, maxChars);
      ParagraphVisible(p, maxChars);
      SplitLast(ps);
      AppendVisible(WrapParagraphs(ps, maxChars), WrapParagraphs(init, maxChars), WrapParagraph(p, maxChars), ps, init, p);
    }
  }

  /** Lines that show what `init` shows, followed by lines that show what `p` shows,
      show what `init` and then `p` show. */
  lemma AppendVisible(out: seq<string>, before: seq<string>, lines: seq<string>,
                      ps: seq<string>, init: seq<string>, p: string)
    requires out == before + lines && ps == init + [p]
    requires Visible(Flatten(before)) == Visible(Flatten(init))
    requires Visible(Flatten(lines)) == Visible(p)
    ensures Visible(Flatten(out)) == Visible(Flatten(ps))
  {
    FlattenAppend(before, lines);
    VisibleAppend(Flatten(before), Flatten(lines));
    FlattenSnoc(init, p);
    VisibleAppend(Flatten(init), p);
  }

  /** Wrapping only adds and drops white space: the characters that are not white
      space come out exactly as they went in, in the same order. */
  lemma WrapKeepsVisibleText(text: string, maxChars: int)
    requires maxChars >= 1
    ensures Visible(Flatten(Wrap(text, maxChars))) == Visible(text)
  {
    var ps := Split(text, '\n');
    ParagraphsVisible(ps, maxChars);
    VisibleJoin(ps, '\n');
  }

  lemma ParagraphNotEmpty(p: string, maxChars: int)
    requires maxChars >= 1
    ensures |WrapParagraph(p, maxChars)| >= 1
  {
    if !IsBlank(p) {
      VisibleBlank(p);
      ParagraphVisible(p, maxChars);
    }
  }

  /** Every paragraph gives at least one line, so every text gives at least one. */
  lemma WrapNotEmpty(text: string, maxChars: int)
    requires maxChars >= 1
    ensures |Wrap(text, maxChars)| >= |Split(text, '\n')| >= 1
  {
    ParagraphsAtLeastOneLineEach(Split(text, '\n'), maxChars);
  }

  lemma {:induction false} ParagraphsAtLeastOneLineEach(ps: seq<string>, maxChars: int)
    requires maxChars >= 1
    ensures |WrapParagraphs(ps, maxChars)| >= |ps|
    decreases |ps|
  {
    if |ps| > 0 {
      ParagraphsAtLeastOneLineEach(ps[..|ps| - 1], maxChars);
      ParagraphNotEmpty(ps[|ps| - 1], maxChars);
    }
  }

  // ---------------------------------------------------------------------------
  // Wrapping the wrapped text again

  /** The lines with every blank one replaced by the empty line. */
  function Blanked(ls: seq<string>): seq<string> {
    if |ls| == 0 then []
    else Blanked(ls[..|ls| - 1]) + [if IsBlank(ls[|ls| - 1]) then "" else ls[|ls| - 1]]
  }

  /** A line made of words that fits the budget and starts with a word is packed
      back into itself. */
  lemma {:induction false} PackWholeLine(words: seq<string>, maxChars: int)
    requires maxChars >= 1 && |words| >= 1 && |words[0]| > 0
    requires |Join(words, ' ')| <= maxChars
    ensures PackWords(words, maxChars) == Pack([], Join(words, ' '))
    decreases |words|
  {
    if |words| == 1 {
      assert words[..0] == [];
    } else {
      var init, last := words[..|words| - 1], words[|words| - 1];
      SplitLast(words);
      JoinSnoc(init, last, ' ');
      assert init[0] == words[0];
      assert |Join(init, ' ')| >= |init[0]|;
      PackWholeLine(init, maxChars);
    }
  }

  /** A line as the wrapper emits it, wrapped again on its own, gives itself, or the
      empty line when it is blank. */
  lemma RewrapLine(line: string, maxChars: int)
    requires maxChars >= 1 && WellFormed(line, maxChars)
    ensures WrapParagraph(line, maxChars) == [if IsBlank(line) then "" else line]
  {
    if !IsBlank(line) {
      var words := Split(line, ' ');
      assert |words[0]| > 0;
      PackWholeLine(words, maxChars);
    }
  }

  lemma {:induction false} RewrapParagraphs(ls: seq<string>, maxChars: int)
    requires maxChars >= 1 && AllWellFormed(ls, maxChars)
    ensures WrapParagraphs(ls, maxChars) == Blanked(ls)
    decreases |ls|
  {
    if |ls| > 0 {
      RewrapParagraphs(ls[..|ls| - 1], maxChars);
      RewrapLine(ls[|ls| - 1], maxChars);
    }
  }

  /** Lines of the wrapper's shape, joined with newlines and wrapped again, come back
      unchanged except that blank ones become empty. */
  lemma RewrapWellFormed(ls: seq<string>, maxChars: int)
    requires maxChars >= 1 && |ls| >= 1 && AllWellFormed(ls, maxChars)
    ensures Wrap(Join(ls, '\n'), maxChars) == Blanked(ls)
  {
    SplitJoin(ls, '\n');
    RewrapParagraphs(ls, maxChars);
  }

  lemma {:induction false} BlankedShape(ls: seq<string>, maxChars: int)
    requires AllWellFormed(ls, maxChars)
    ensures |Blanked(ls)| == |ls|
    ensures AllWellFormed(Blanked(ls), maxChars)
    ensures Blanked(Blanked(ls)) == Blanked(ls)
    ensures (forall i | 0 <= i < |ls| :: ls[i] == [] || !IsBlank(ls[i])) ==> Blanked(ls) == ls
    decreases |ls|
  {
    if |ls| > 0 {
      var init := ls[..|ls| - 1];
      BlankedShape(init, maxChars);
      assert Blanked(ls)[..|ls| - 1] == Blanked(init);
    }
  }

  /** Wrapping the wrapped text again (its lines joined with newlines, at the same
      budget) gives the same lines, except that a line of white space only becomes
      the empty line; from then on re-wrapping changes nothing. When no line is
      white space only, the first re-wrap already gives the same lines. */
  lemma RewrapIsStable(text: string, maxChars: int)
    requires maxChars >= 1
    ensures var ls := Wrap(text, maxChars);
      Wrap(Join(ls, '\n'), maxChars) == Blanked(ls)
      && Wrap(Join(Blanked(ls), '\n'), maxChars) == Blanked(ls)
      && ((forall i | 0 <= i < |ls| :: ls[i] == [] || !IsBlank(ls[i])) ==> Wrap(Join(ls, '\n'), maxChars) == ls)
  {
    var ls := Wrap(text, maxChars);
    WrapFits(text, maxChars);
    WrapNotEmpty(text, maxChars);
    RewrapWellFormed(ls, maxChars);
    BlankedShape(ls, maxChars);
    RewrapWellFormed(Blanked(ls), maxChars);
  }

  // ---------------------------------------------------------------------------
  // The character budget

  /** Average glyph width in pixels assumed by the layout: 7 in a window narrower
      than 640 pixels, else 8. */
  function AvgCharPx(windowWidthPx: nat): nat {
    if windowWidthPx < 640 then 7 else 8
  }

  /** Characters kept free at the end of a line: 2 in a narrow window, else 4. */
  function BufferChars(windowWidthPx: nat): nat {
    if windowWidthPx < 640 then 2 else 4
  }

  /** `max(10, floor(width / avgCharPx) - buffer)` for a text column `columnWidthPx`
      pixels wide (its width rounded down, which leaves the floor unchanged). The
      budget is at least 10, so it always meets the wrapper's precondition; one more
      glyph than the budget and the buffer never fits the column, and above 10 the
      budget and the buffer do fit it, so the budget grows with a wide column. */
  function CharBudget(columnWidthPx: nat, windowWidthPx: nat): (chars: int)
    ensures chars >= 10
    ensures columnWidthPx < (chars + BufferChars(windowWidthPx) + 1) * AvgCharPx(windowWidthPx)
    ensures chars > 10 ==>
      (chars + BufferChars(windowWidthPx)) * AvgCharPx(windowWidthPx) <= columnWidthPx
  {
    var fit := columnWidthPx / AvgCharPx(windowWidthPx) - BufferChars(windowWidthPx);
    if fit < 10 then 10 else fit
  }

  /** A wider column never gets a smaller budget. */
  lemma BudgetMonotone(narrowPx: nat, widePx: nat, windowWidthPx: nat)
    requires narrowPx <= widePx
    ensures CharBudget(narrowPx, windowWidthPx) <= CharBudget(widePx, windowWidthPx)
  {
  }
}
