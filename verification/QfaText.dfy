// The lines of a quick-file-access index: the text that common/legacy_indexer.c
// prints and restore/utilities.c parses.

module QfaText {
  import opened LittleEndian
  import opened Decimal
  import opened Splitting

  type int32 = x: int | -MAX_I32 - 1 <= x <= MAX_I32
  type int64 = x: int | -MAX_I64 - 1 <= x <= MAX_I64

  /** An inode, the tape it is on and the position of the tape block that holds it. */
  datatype Line = Line(ino: u32, tapeno: int32, pos: int64)

  /** The three numbers separated by tabs; a newline follows in the file. */
  function Format(l: Line): string {
    Print(l.ino) + "\t" + Print(l.tapeno) + "\t" + Print(l.pos)
  }

  function FormatAll(ls: seq<Line>): (lines: seq<string>)
    ensures |lines| == |ls|
  {
    seq(|ls|, i requires 0 <= i < |ls| => Format(ls[i]))
  }

  function JoinLines(lines: seq<string>): string {
    if lines == [] then "" else JoinLines(lines[..|lines| - 1]) + lines[|lines| - 1] + "\n"
  }

  function Text(ls: seq<Line>): string {
    JoinLines(FormatAll(ls))
  }

  lemma TextOneMore(ls: seq<Line>, l: Line)
    ensures Text(ls + [l]) == Text(ls) + (Format(l) + "\n")
  {
    hide Format;
    assert FormatAll(ls + [l])[..|ls|] == FormatAll(ls);
    assert Text(ls) + Format(l) + "\n" == Text(ls) + (Format(l) + "\n");
  }

  lemma {:induction false} JoinFirst(l: string, lines: seq<string>)
    ensures JoinLines([l] + lines) == l + "\n" + JoinLines(lines)
  {
    if lines == [] {
      assert ([l] + lines)[..0] == [];
    } else {
      var front, last := JoinLines(lines[..|lines| - 1]), lines[|lines| - 1];
      JoinFirst(l, lines[..|lines| - 1]);
      assert ([l] + lines)[..|lines|] == [l] + lines[..|lines| - 1];
      assert l + "\n" + front + last + "\n" == l + "\n" + (front + last + "\n");
    }
  }

  // ---------------------------------------------------------------------
  // Parsing.
  // ---------------------------------------------------------------------

  /** The first place at or after i where the separator is, or the end. */
  function Find(s: string, sep: char, i: nat): (k: nat)
    requires i <= |s|
    ensures i <= k <= |s| && (k < |s| ==> s[k] == sep)
    ensures forall j :: i <= j < k ==> s[j] != sep
    decreases |s| - i
  {
    if i == |s| || s[i] == sep then i else Find(s, sep, i + 1)
  }

  /** Where a line's first three fields end. */
  function FieldEnds(line: string): (ends: (nat, nat, nat))
    ensures ends.0 <= ends.1 <= ends.2 <= |line|
    ensures ends.1 < |line| ==> ends.0 < ends.1 < ends.2
  {
    var p := Find(line, '\t', 0);
    var q := if p < |line| then Find(line, '\t', p + 1) else p;
    (p, q, if q < |line| then Find(line, '\t', q + 1) else q)
  }

  /** The reader's view of a line: three tab-separated numerals, or None when the line
      ends before the second tab. */
  function Parse(line: string): Option<(int, int, int)> {
    var (p, q, r) := FieldEnds(line);
    if q == |line| then None
    else Some((Atol(line[..p]), Atol(line[p + 1..q]), Atol(line[q + 1..r])))
  }

  lemma PrintHasNoSeparator(z: int)
    ensures '\t' !in Print(z) && '\n' !in Print(z)
  {
    PrintIsPlain(z);
  }

  lemma FieldEndsOf(a: string, b: string, c: string)
    requires '\t' !in a && '\t' !in b && '\t' !in c
    ensures var line := a + "\t" + b + "\t" + c;
            && FieldEnds(line) == (|a|, |a| + 1 + |b|, |line|)
            && line[..|a|] == a && line[|a| + 1..|a| + 1 + |b|] == b && line[|a| + |b| + 2..] == c
  {
    var line := a + "\t" + b + "\t" + c;
    assert forall i :: 0 <= i < |a| ==> line[i] == a[i];
    assert forall i :: 0 <= i < |b| ==> line[|a| + 1 + i] == b[i];
    assert forall i :: 0 <= i < |c| ==> line[|a| + |b| + 2 + i] == c[i];
    assert line[|a|] == '\t' && line[|a| + 1 + |b|] == '\t';
  }

  lemma FormatFieldEnds(l: Line)
    ensures var line := Format(l); var (p, q, r) := FieldEnds(line);
            && q < |line| && r == |line|
            && line[..p] == Print(l.ino) && line[p + 1..q] == Print(l.tapeno) && line[q + 1..r] == Print(l.pos)
  {
    PrintHasNoSeparator(l.ino);
    PrintHasNoSeparator(l.tapeno);
    PrintHasNoSeparator(l.pos);
    FieldEndsOf(Print(l.ino), Print(l.tapeno), Print(l.pos));
  }

  /** A printed line reads back as the numbers it was printed from. */
  lemma ParseFormat(l: Line)
    ensures Parse(Format(l)) == Some((l.ino, l.tapeno, l.pos))
  {
    FormatFieldEnds(l);
    AtolPrint(l.ino);
    AtolPrint(l.tapeno);
    AtolPrint(l.pos);
  }

  /** How long a line is up to its second tab. */
  function PositionStart(l: Line): nat {
    |Print(l.ino)| + |Print(l.tapeno)| + 2
  }

  /** A line cut short: unreadable unless both tabs are there, and then the position is
      what is left of it. */
  lemma ParseCut(l: Line, m: nat)
    requires m < |Format(l)|
    ensures Parse(Format(l)[..m])
         == if m < PositionStart(l) then None
            else Some((l.ino, l.tapeno, Atol(Print(l.pos)[..m - PositionStart(l)])))
  {
    hide Print, Atol;
    var a, b, c := Print(l.ino), Print(l.tapeno), Print(l.pos);
    PrintHasNoSeparator(l.ino);
    PrintHasNoSeparator(l.tapeno);
    PrintHasNoSeparator(l.pos);
    var cut := Format(l)[..m];
    if m < PositionStart(l) {
      var head := a + "\t" + b;
      assert cut == head[..m];
      OneTab(a, b, m);
    } else {
      var left := c[..m - PositionStart(l)];
      assert cut == a + "\t" + b + "\t" + left;
      FieldEndsOf(a, b, left);
      assert cut[|a| + |b| + 2..|cut|] == left;
      AtolPrint(l.ino);
      AtolPrint(l.tapeno);
    }
  }

  lemma OneTab(a: string, b: string, m: nat)
    requires '\t' !in a && '\t' !in b && m <= |a| + 1 + |b|
    ensures Parse((a + "\t" + b)[..m]).None?
  {
    var cut := (a + "\t" + b)[..m];
    assert forall i :: 0 <= i < m && i < |a| ==> cut[i] == a[i];
    assert forall i :: |a| < i < m ==> cut[i] == b[i - |a| - 1];
  }

  const LINE_BUFFER := 255
  const NUMBER_BUFFER := 32

  /** The buffers hold the line, with its newline and a NUL, and the numerals in it. */
  predicate Short(line: string) {
    var (p, q, r) := FieldEnds(line);
    |line| + 2 <= LINE_BUFFER && p < NUMBER_BUFFER && q - p <= NUMBER_BUFFER && r - q <= NUMBER_BUFFER
  }

  /** Every line printed fits its buffer without truncation, and its numerals theirs. */
  lemma FormatFits(l: Line)
    ensures '\n' !in Format(l) && |Format(l)| <= 43 && Short(Format(l))
  {
    FormatFieldEnds(l);
    PrintLength(l.ino);
    PrintLength(l.tapeno);
    PrintLength(l.pos);
    PrintHasNoSeparator(l.ino);
    PrintHasNoSeparator(l.tapeno);
    PrintHasNoSeparator(l.pos);
  }

  lemma FindInPrefix(s: string, sep: char, i: nat, m: nat)
    requires i <= m <= |s|
    ensures Find(s[..m], sep, i) == if Find(s, sep, i) < m then Find(s, sep, i) else m
  {
    var j, k := Find(s[..m], sep, i), Find(s, sep, i);
    assert j < m ==> s[..m][j] == s[j];
    assert k < m ==> s[..m][k] == s[k];
  }

  /** A line cut short fits its buffers too. */
  lemma PrefixIsShort(line: string, m: nat)
    requires Short(line) && m <= |line|
    ensures Short(line[..m])
  {
    hide Find;
    var (p, q, r) := FieldEnds(line);
    FindInPrefix(line, '\t', 0, m);
    if p < m {
      FindInPrefix(line, '\t', p + 1, m);
      if q < m {
        FindInPrefix(line, '\t', q + 1, m);
      }
    }
  }

  /** The lines of a text, each without its last character: the newline, or whatever else
      ends the last line. */
  function Lines(s: string): seq<string>
    decreases |s|
  {
    if s == "" then []
    else
      var n := Find(s, '\n', 0);
      if n == |s| then [s[..n - 1]] else [s[..n]] + Lines(s[n + 1..])
  }

  lemma LinesOfFirst(l: string, rest: string)
    requires '\n' !in l
    ensures Lines(l + "\n" + rest) == [l] + Lines(rest)
  {
    var s := l + "\n" + rest;
    assert s[|l|] == '\n' && forall i :: 0 <= i < |l| ==> s[i] == l[i];
    assert Find(s, '\n', 0) == |l| && s[..|l|] == l && s[|l| + 1..] == rest;
  }

  /** The line that text without a newline makes at the end of a file. */
  function LastLine(part: string): seq<string> {
    if part == "" then [] else [part[..|part| - 1]]
  }

  lemma LinesOfPart(part: string)
    requires '\n' !in part
    ensures Lines(part) == LastLine(part)
  {
  }

  lemma {:induction false} LinesOfJoin(lines: seq<string>, part: string)
    requires forall i :: 0 <= i < |lines| ==> '\n' !in lines[i]
    requires '\n' !in part
    ensures Lines(JoinLines(lines) + part) == lines + LastLine(part)
    decreases |lines|
  {
    hide Lines, Find;
    if lines == [] {
      LinesOfPart(part);
      assert JoinLines(lines) + part == part;
    } else {
      var l, rest := lines[0], JoinLines(lines[1..]);
      assert lines == [l] + lines[1..];
      JoinFirst(l, lines[1..]);
      assert JoinLines(lines) + part == l + "\n" + (rest + part);
      LinesOfFirst(l, rest + part);
      LinesOfJoin(lines[1..], part);
    }
  }

  /** The text of an index, and what there may be of one more line, splits into lines. */
  lemma LinesOfTextAnd(ls: seq<Line>, part: string)
    requires '\n' !in part
    ensures Lines(Text(ls) + part) == FormatAll(ls) + LastLine(part)
  {
    forall i | 0 <= i < |ls|
      ensures '\n' !in FormatAll(ls)[i]
    {
      FormatFits(ls[i]);
    }
    LinesOfJoin(FormatAll(ls), part);
  }

  /** The text of an index splits back into its lines. */
  lemma LinesOfText(ls: seq<Line>)
    ensures Lines(Text(ls)) == FormatAll(ls)
  {
    LinesOfTextAnd(ls, "");
    assert Text(ls) + "" == Text(ls) && FormatAll(ls) + [] == FormatAll(ls);
  }

  /** So different indexes have different texts. */
  lemma TextIsInjective(a: seq<Line>, b: seq<Line>)
    requires Text(a) == Text(b)
    ensures a == b
  {
    LinesOfText(a);
    LinesOfText(b);
    assert |a| == |FormatAll(a)| == |b|;
    forall i | 0 <= i < |a|
      ensures a[i] == b[i]
    {
      assert FormatAll(a)[i] == FormatAll(b)[i];
      ParseFormat(a[i]);
      ParseFormat(b[i]);
    }
  }

  // ---------------------------------------------------------------------
  // Lines and fields by splitting.
  // ---------------------------------------------------------------------

  /** Split at its tabs, a line is the three numerals. */
  lemma {:induction false} FieldsOfFormat(l: Line)
    ensures Split(Format(l), '\t') == [Print(l.ino), Print(l.tapeno), Print(l.pos)]
  {
    hide Split, Print;
    PrintHasNoSeparator(l.ino);
    PrintHasNoSeparator(l.tapeno);
    PrintHasNoSeparator(l.pos);
    SplitWhole(Print(l.ino), '\t');
    SplitAppended(Print(l.ino), Print(l.tapeno), '\t');
    SplitAppended(Print(l.ino) + "\t" + Print(l.tapeno), Print(l.pos), '\t');
  }

  /** Split at its newlines, the text of an index is its lines and nothing after them. */
  lemma {:induction false} SplitText(ls: seq<Line>)
    ensures Split(Text(ls), '\n') == FormatAll(ls) + [""]
  {
    hide Split, Format;
    if ls == [] {
      SplitWhole("", '\n');
    } else {
      var n := |ls| - 1;
      var front, last := Text(ls[..n]), Format(ls[n]);
      SplitText(ls[..n]);
      assert ls == ls[..n] + [ls[n]];
      TextOneMore(ls[..n], ls[n]);
      FormatFits(ls[n]);
      SplitExtended(front, last, '\n');
      assert "" + last == last && Extended(FormatAll(ls[..n]) + [""], last) == FormatAll(ls[..n]) + [last];
      SplitAppended(front + last, "", '\n');
      assert front + last + ['\n'] + "" == Text(ls);
      assert FormatAll(ls) == FormatAll(ls[..n]) + [last];
    }
  }

  /** The reader's lines: the pieces between the newlines, and what follows the last one
      without its last character. */
  lemma {:induction false} LinesAreSplit(s: string)
    ensures var pieces := Split(s, '\n'); var n := |pieces| - 1;
            Lines(s) == pieces[..n] + LastLine(pieces[n])
    decreases |s|
  {
    hide Split;
    var n := Find(s, '\n', 0);
    if n == |s| {
      SplitWhole(s, '\n');
    } else {
      var first, rest := s[..n], s[n + 1..];
      SplitFirst(first, rest, '\n');
      assert s == first + ['\n'] + rest;
      LinesAreSplit(rest);
      var pieces := Split(rest, '\n');
      var m := |pieces| - 1;
      assert ([first] + pieces)[..m + 1] == [first] + pieces[..m];
    }
  }

  /** The reader's fields: the first three pieces between the tabs. */
  lemma {:induction false} FieldsAreSplit(line: string)
    ensures var pieces := Split(line, '\t');
            Parse(line) == if |pieces| < 3 then None else Some((Atol(pieces[0]), Atol(pieces[1]), Atol(pieces[2])))
  {
    hide Split, Atol, Find;
    var p := Find(line, '\t', 0);
    assert line[0..] == line && line[0..p] == line[..p];
    SplitAtFirst(line, 0, p);
    if p < |line| {
      var q := Find(line, '\t', p + 1);
      SplitAtFirst(line, p + 1, q);
      if q < |line| {
        ThreeFields(line, p, q);
      }
    }
  }

  lemma {:induction false} ThreeFields(line: string, p: nat, q: nat)
    requires p == Find(line, '\t', 0) < |line| && q == Find(line, '\t', p + 1) < |line|
    requires Split(line, '\t') == [line[..p]] + ([line[p + 1..q]] + Split(line[q + 1..], '\t'))
    ensures var pieces := Split(line, '\t');
            |pieces| >= 3 && Parse(line) == Some((Atol(pieces[0]), Atol(pieces[1]), Atol(pieces[2])))
  {
    hide Split, Atol, Find;
    var r := Find(line, '\t', q + 1);
    assert FieldEnds(line) == (p, q, r);
    hide FieldEnds;
    SplitAtFirst(line, q + 1, r);
    ThirdPiece(line[..p], line[p + 1..q], line[q + 1..r], Split(line[q + 1..], '\t'));
  }

  lemma ThirdPiece(a: string, b: string, c: string, rest: seq<string>)
    requires rest != [] && rest[0] == c
    ensures var pieces := [a] + ([b] + rest);
            |pieces| >= 3 && pieces[0] == a && pieces[1] == b && pieces[2] == c
  {
  }

  /** The text from `from` on, whose first tab is at n. */
  lemma {:induction false} SplitAtFirst(s: string, from: nat, n: nat)
    requires from <= n <= |s| && '\t' !in s[from..n] && (n < |s| ==> s[n] == '\t')
    ensures Split(s[from..], '\t') == if n == |s| then [s[from..n]] else [s[from..n]] + Split(s[n + 1..], '\t')
  {
    hide Split;
    if n == |s| {
      assert s[from..n] == s[from..];
      SplitWhole(s[from..], '\t');
    } else {
      SplitFirst(s[from..n], s[n + 1..], '\t');
      assert s[from..] == s[from..n] + ['\t'] + s[n + 1..];
    }
  }
}
