// Splitting text at a separator: a reader of paths, lists and lines that is independent of
// the functions that build them.

module Splitting {

  /** The pieces between the separators: always one more than there are separators. */
  function Split(s: string, sep: char): (pieces: seq<string>)
    ensures pieces != []
    ensures forall i :: 0 <= i < |pieces| ==> sep !in pieces[i]
  {
    if s == "" then [""]
    else
      var n := |s| - 1;
      var pieces := Split(s[..n], sep);
      if s[n] == sep then pieces + [""] else Extended(pieces, [s[n]])
  }

  /** Text added to the last piece. */
  function Extended(pieces: seq<string>, t: string): (r: seq<string>)
    requires pieces != []
    ensures |r| == |pieces|
  {
    pieces[..|pieces| - 1] + [pieces[|pieces| - 1] + t]
  }

  lemma ExtendedTwice(pieces: seq<string>, t: string, u: string)
    requires pieces != []
    ensures Extended(pieces, "") == pieces
    ensures Extended(Extended(pieces, t), u) == Extended(pieces, t + u)
  {
    var last := pieces[|pieces| - 1];
    assert last + "" == last && last + t + u == last + (t + u);
  }

  /** One character more. */
  lemma SplitStep(s: string, c: char, sep: char)
    ensures Split(s + [c], sep) == if c == sep then Split(s, sep) + [""] else Extended(Split(s, sep), [c])
  {
    assert (s + [c])[..|s|] == s;
  }

  lemma {:induction false} SplitExtended(s: string, t: string, sep: char)
    requires sep !in t
    ensures Split(s + t, sep) == Extended(Split(s, sep), t)
    decreases |t|
  {
    hide Split, Extended;
    if t == "" {
      assert s + t == s;
      ExtendedTwice(Split(s, sep), "", "");
    } else {
      var n := |t| - 1;
      SplitExtended(s, t[..n], sep);
      SplitStep(s + t[..n], t[n], sep);
      assert s + t == s + t[..n] + [t[n]];
      ExtendedTwice(Split(s, sep), t[..n], [t[n]]);
      assert t == t[..n] + [t[n]];
    }
  }

  /** One separator and one piece more. */
  lemma {:induction false} SplitAppended(s: string, t: string, sep: char)
    requires sep !in t
    ensures Split(s + [sep] + t, sep) == Split(s, sep) + [t]
  {
    hide Split;
    SplitStep(s, sep, sep);
    SplitExtended(s + [sep], t, sep);
    assert "" + t == t;
  }

  lemma {:induction false} SplitWhole(t: string, sep: char)
    requires sep !in t
    ensures Split(t, sep) == [t]
  {
    SplitExtended("", t, sep);
    assert "" + t == t;
  }

  /** What comes after the first separator is split by itself. */
  lemma {:induction false} SplitFirst(first: string, rest: string, sep: char)
    requires sep !in first
    ensures Split(first + [sep] + rest, sep) == [first] + Split(rest, sep)
    decreases |rest|
  {
    hide Split;
    if rest == "" {
      SplitWhole(first, sep);
      SplitWhole("", sep);
      SplitAppended(first, "", sep);
    } else {
      var n := |rest| - 1;
      var c := rest[n];
      SplitFirst(first, rest[..n], sep);
      SplitStep(first + [sep] + rest[..n], c, sep);
      SplitStep(rest[..n], c, sep);
      assert rest == rest[..n] + [c];
      assert first + [sep] + rest == first + [sep] + rest[..n] + [c];
      ExtendedAfter(first, Split(rest[..n], sep), [c]);
      assert [first] + Split(rest[..n], sep) + [""] == [first] + (Split(rest[..n], sep) + [""]);
    }
  }

  lemma ExtendedAfter(first: string, pieces: seq<string>, t: string)
    requires pieces != []
    ensures Extended([first] + pieces, t) == [first] + Extended(pieces, t)
  {
    assert ([first] + pieces)[..|pieces|] == [first] + pieces[..|pieces| - 1];
  }

  /** The pieces and the separator make up the text. */
  function WithSeparators(pieces: seq<string>, sep: char): string
    requires pieces != []
  {
    var n := |pieces| - 1;
    if n == 0 then pieces[0] else WithSeparators(pieces[..n], sep) + [sep] + pieces[n]
  }

  lemma ExtendedText(pieces: seq<string>, t: string, sep: char)
    requires pieces != []
    ensures WithSeparators(Extended(pieces, t), sep) == WithSeparators(pieces, sep) + t
  {
    var m := |pieces| - 1;
    assert Extended(pieces, t)[..m] == pieces[..m];
    if m > 0 {
      var front := WithSeparators(pieces[..m], sep) + [sep];
      assert front + (pieces[m] + t) == front + pieces[m] + t;
    }
  }

  lemma AppendedText(pieces: seq<string>, sep: char)
    requires pieces != []
    ensures WithSeparators(pieces + [""], sep) == WithSeparators(pieces, sep) + [sep]
  {
    assert (pieces + [""])[..|pieces|] == pieces;
    assert WithSeparators(pieces, sep) + [sep] + "" == WithSeparators(pieces, sep) + [sep];
  }

  lemma {:induction false} SplitKeepsText(s: string, sep: char)
    ensures WithSeparators(Split(s, sep), sep) == s
    decreases |s|
  {
    hide Split, WithSeparators, Extended;
    if s == "" {
      SplitWhole(s, sep);
      OnePiece(s, sep);
    } else {
      var n := |s| - 1;
      SplitKeepsText(s[..n], sep);
      SplitStep(s[..n], s[n], sep);
      assert s == s[..n] + [s[n]];
      ExtendedText(Split(s[..n], sep), [s[n]], sep);
      AppendedText(Split(s[..n], sep), sep);
    }
  }

  lemma OnePiece(s: string, sep: char)
    ensures WithSeparators([s], sep) == s
  {
  }

  lemma {:induction false} SplitIsInjective(s: string, t: string, sep: char)
    ensures Split(s, sep) == Split(t, sep) <==> s == t
  {
    SplitKeepsText(s, sep);
    SplitKeepsText(t, sep);
  }
}
