/** String primitives of JavaScript that the line wrapper relies on: the white-space
    set of `trim`/`trimEnd`, `split` on a one-character separator and its inverse.
    A `char` stands for one character of the Basic Multilingual Plane, where it
    coincides with the UTF-16 code unit in which JavaScript's `length`, `slice` and
    `split` count. */
module Text {

  /** The code units that `String.prototype.trim` removes: ECMAScript's WhiteSpace
      (tab, vertical tab, form feed, space, no-break space, byte order mark and the
      Unicode space separators) and LineTerminator (LF, CR, LS, PS). */
  predicate IsWhitespace(c: char) {
    c == '\t' || c == '\n' || c == '\U{000B}' || c == '\U{000C}' || c == '\r' || c == ' '
    || c == '\U{00A0}' || c == '\U{1680}' || ('\U{2000}' <= c <= '\U{200A}')
    || c == '\U{2028}' || c == '\U{2029}' || c == '\U{202F}' || c == '\U{205F}'
    || c == '\U{3000}' || c == '\U{FEFF}'
  }

  /** `s.trim() === ""`: the string holds white space only (or nothing). */
  predicate IsBlank(s: string) {
    forall i | 0 <= i < |s| :: IsWhitespace(s[i])
  }

  /** `s.trimEnd()`: the longest prefix of `s` that does not end in white space. */
  function TrimEnd(s: string): (r: string)
    ensures r <= s
    ensures IsBlank(s[|r|..])
    ensures |r| > 0 ==> !IsWhitespace(r[|r| - 1])
  {
    if |s| > 0 && IsWhitespace(s[|s| - 1]) then TrimEnd(s[..|s| - 1]) else s
  }

  /** The characters of `s` that are not white space, in order. */
  function Visible(s: string): string {
    if |s| == 0 then []
    else Visible(s[..|s| - 1]) + (if IsWhitespace(s[|s| - 1]) then [] else [s[|s| - 1]])
  }

  /** The lines `ls` written one after the other. */
  function Flatten(ls: seq<string>): string {
    if |ls| == 0 then [] else ls[0] + Flatten(ls[1..])
  }

  /** `parts.join(sep)` for a one-character separator. */
  function Join(parts: seq<string>, sep: char): string {
    if |parts| == 0 then []
    else if |parts| == 1 then parts[0]
    else parts[0] + [sep] + Join(parts[1..], sep)
  }

  /** `s.split(sep)` for a one-character separator: the pieces between separators,
      empty pieces included, so there is always at least one. The pieces hold no
      separator and joining them again gives back `s`. */
  function Split(s: string, sep: char): (r: seq<string>)
    ensures |r| >= 1
    ensures forall i | 0 <= i < |r| :: sep !in r[i]
    ensures Join(r, sep) == s
  {
    if |s| == 0 then [[]]
    else
      var rest := Split(s[1..], sep);
      if s[0] == sep then [[]] + rest
      else [[s[0]] + rest[0]] + rest[1..]
  }

  lemma {:induction false} VisibleAppend(a: string, b: string)
    ensures Visible(a + b) == Visible(a) + Visible(b)
    decreases |b|
  {
    if |b| == 0 {
      assert a + b == a;
    } else {
      assert (a + b)[..|a + b| - 1] == a + b[..|b| - 1];
      VisibleAppend(a, b[..|b| - 1]);
    }
  }

  /** A string is blank exactly when nothing of it is visible. */
  lemma {:induction false} VisibleBlank(s: string)
    ensures IsBlank(s) <==> Visible(s) == []
    decreases |s|
  {
    if |s| > 0 {
      VisibleBlank(s[..|s| - 1]);
      if !IsWhitespace(s[|s| - 1]) {
        assert Visible(s)[|Visible(s)| - 1] == s[|s| - 1];
      } else {
        assert IsBlank(s) <==> IsBlank(s[..|s| - 1]);
      }
    }
  }

  /** Trimming the end drops white space only. */
  lemma VisibleTrimEnd(s: string)
    ensures Visible(TrimEnd(s)) == Visible(s)
  {
    var r := TrimEnd(s);
    assert s == r + s[|r|..];
    VisibleAppend(r, s[|r|..]);
    VisibleBlank(s[|r|..]);
  }

  /** A non-empty sequence is its front followed by its last element. */
  lemma SplitLast<T>(s: seq<T>)
    requires |s| > 0
    ensures s == s[..|s| - 1] + [s[|s| - 1]]
  {
  }

  /** Regrouping a concatenation after replacing its tail by an equal one. */
  lemma Regroup<T>(a: seq<T>, e: seq<T>, p: seq<T>, l: seq<T>, v: seq<T>)
    requires e + p == l + v
    ensures (a + e) + p == a + l + v
  {
    assert (a + e) + p == a + (e + p);
  }

  lemma {:induction false} FlattenAppend(a: seq<string>, b: seq<string>)
    ensures Flatten(a + b) == Flatten(a) + Flatten(b)
    decreases |a|
  {
    if |a| == 0 {
      assert a + b == b;
    } else {
      assert (a + b)[1..] == a[1..] + b;
      FlattenAppend(a[1..], b);
    }
  }

  lemma FlattenSingle(l: string)
    ensures Flatten([l]) == l
  {
    assert [l][1..] == [];
  }

  lemma FlattenSnoc(ls: seq<string>, l: string)
    ensures Flatten(ls + [l]) == Flatten(ls) + l
  {
    FlattenAppend(ls, [l]);
    FlattenSingle(l);
  }

  /** A character of a line is a character of the lines written out. */
  lemma {:induction false} InFlatten(ls: seq<string>, i: nat, c: char)
    requires i < |ls| && c in ls[i]
    ensures c in Flatten(ls)
    decreases |ls|
  {
    if i > 0 {
      InFlatten(ls[1..], i - 1, c);
    }
  }

  /** A character of a part is a character of the joined string. */
  lemma {:induction false} InJoin(parts: seq<string>, sep: char, i: nat, c: char)
    requires i < |parts| && c in parts[i]
    ensures c in Join(parts, sep)
    decreases |parts|
  {
    if i > 0 {
      InJoin(parts[1..], sep, i - 1, c);
    }
  }

  lemma {:induction false} JoinSnoc(parts: seq<string>, p: string, sep: char)
    requires |parts| >= 1
    ensures Join(parts + [p], sep) == Join(parts, sep) + [sep] + p
    decreases |parts|
  {
    if |parts| > 1 {
      assert (parts + [p])[1..] == parts[1..] + [p];
      JoinSnoc(parts[1..], p, sep);
    }
  }

  /** Joining with a white-space separator keeps exactly the visible characters of
      the parts. */
  lemma {:induction false} VisibleJoin(parts: seq<string>, sep: char)
    requires IsWhitespace(sep)
    ensures Visible(Join(parts, sep)) == Visible(Flatten(parts))
    decreases |parts|
  {
    if |parts| == 1 {
      FlattenSingle(parts[0]);
      assert Join(parts, sep) == parts[0];
    } else if |parts| > 1 {
      var init, last := parts[..|parts| - 1], parts[|parts| - 1];
      SplitLast(parts);
      VisibleSeparator(sep);
      calc {
        Visible(Join(parts, sep));
        { JoinSnoc(init, last, sep); }
        Visible(Join(init, sep) + [sep] + last);
        { VisibleAppend(Join(init, sep) + [sep], last); VisibleAppend(Join(init, sep), [sep]); }
        Visible(Join(init, sep)) + Visible(last);
        { VisibleJoin(init, sep); }
        Visible(Flatten(init)) + Visible(last);
        { FlattenAppend(init, [last]); FlattenSingle(last); VisibleAppend(Flatten(init), last); }
        Visible(Flatten(parts));
      }
    }
  }

  lemma VisibleSeparator(sep: char)
    requires IsWhitespace(sep)
    ensures Visible([sep]) == []
  {
    assert [sep][..0] == [];
  }

  /** A string without the separator is one piece. */
  lemma {:induction false} SplitWithoutSeparator(s: string, sep: char)
    requires sep !in s
    ensures Split(s, sep) == [s]
    decreases |s|
  {
    if |s| > 0 {
      SplitWithoutSeparator(s[1..], sep);
      assert [s[0]] + s[1..] == s;
    }
  }

  /** Splitting distributes over a separator: the pieces of `a + sep + b` are those of
      `a` followed by those of `b`. */
  lemma {:induction false} SplitAtSeparator(a: string, b: string, sep: char)
    ensures Split(a + [sep] + b, sep) == Split(a, sep) + Split(b, sep)
    decreases |a|
  {
    var s := a + [sep] + b;
    if |a| == 0 {
      assert s[1..] == b;
    } else {
      assert s[1..] == a[1..] + [sep] + b;
      SplitAtSeparator(a[1..], b, sep);
    }
  }

  /** Splitting undoes joining when no part holds the separator. */
  lemma {:induction false} SplitJoin(parts: seq<string>, sep: char)
    requires |parts| >= 1
    requires forall i | 0 <= i < |parts| :: sep !in parts[i]
    ensures Split(Join(parts, sep), sep) == parts
    decreases |parts|
  {
    if |parts| == 1 {
      SplitWithoutSeparator(parts[0], sep);
    } else {
      SplitJoin(parts[1..], sep);
      SplitAtSeparator(parts[0], Join(parts[1..], sep), sep);
      SplitWithoutSeparator(parts[0], sep);
    }
  }
}
