// Looking an inode up in a quick-file-access index during a restore
// (restore/utilities.c), and its agreement with what the dump wrote.

module QfaReader {
  import opened LittleEndian
  import opened Decimal
  import opened DumpRecord
  import opened QfaText
  import opened QfaWriter

  /** The return code, and the tape number and position found. */
  datatype Answer = Answer(rc: int, tnum: int, tpos: int)

  /** A numeral read into an unsigned long. */
  function Unsigned(i: int): int {
    if i < 0 then i + 0x1_0000_0000_0000_0000 else i
  }

  /** The same 64 bits, read without a sign. */
  lemma UnsignedWraps(i: int64)
    ensures 0 <= Unsigned(i) < 0x1_0000_0000_0000_0000
    ensures (Unsigned(i) - i) % 0x1_0000_0000_0000_0000 == 0
  {
  }

  /** A line as parsed: three numbers, or None. */
  type Entry = Option<(int, int, int)>

  /** The answer from line i on, and the line at which the next lookup goes on. */
  function Scan(entries: seq<Entry>, i: nat, ino: u32, exact: bool, tnum: int, tpos: int): (r: (Answer, nat))
    requires i <= |entries|
    ensures i <= r.1 <= |entries|
    decreases |entries| - i
  {
    if i == |entries| then (Answer(0, tnum, tpos), i)
    else
      match entries[i]
      case None => (Answer(1, tnum, tpos), i)
      case Some((n, t, p)) =>
        if exact && Unsigned(n) == ino then (Answer(0, t, p), i)
        else if !exact && Unsigned(n) > ino then (Answer(0, tnum, tpos), i)
        else Scan(entries, i + 1, ino, exact, if exact then tnum else t, if exact then tpos else p)
  }

  function ParseAll(lines: seq<string>): (entries: seq<Entry>)
    ensures |entries| == |lines|
  {
    seq(|lines|, i requires 0 <= i < |lines| => Parse(lines[i]))
  }

  predicate AllShort(lines: seq<string>) {
    forall i :: 0 <= i < |lines| ==> Short(lines[i])
  }

  /** The numeral from position p to the next tab or the end of the line, and where that is. */
  method ReadNumber(line: string, p: nat) returns (value: int, q: nat)
    requires p <= |line| && Find(line, '\t', p) - p < NUMBER_BUFFER
    ensures q == Find(line, '\t', p) && value == Atol(line[p..q])
  {
    var numbuff := new char[NUMBER_BUFFER];
    q := p;
    while q < |line| && line[q] != '\t'
      invariant p <= q <= Find(line, '\t', p) && numbuff[..q - p] == line[p..q]
      invariant Find(line, '\t', p) == Find(line, '\t', q)
      decreases |line| - q
    {
      numbuff[q - p] := line[q];
      q := q + 1;
    }
    value := Atol(numbuff[..q - p]);
  }

  /** The three numbers of a line, copied out one after another. */
  method ReadEntry(line: string) returns (entry: Entry)
    requires Short(line)
    ensures entry == Parse(line)
  {
    hide Atol, Find;
    var n, p := ReadNumber(line, 0);
    if p == |line| {
      return None;
    }
    var t, q := ReadNumber(line, p + 1);
    if q == |line| {
      return None;
    }
    var pos, _ := ReadNumber(line, q + 1);
    assert line[0..p] == line[..p];
    return Some((n, t, pos));
  }

  /** The index file, as the lines that fgets returns one after another. */
  class Reader {
    const lines: seq<string>
    /** The line at which the next lookup begins. */
    var seekstart: nat

    ghost predicate Valid()
      reads this
    {
      seekstart <= |lines| && AllShort(lines)
    }

    constructor (lines: seq<string>)
      requires AllShort(lines)
      ensures Valid() && this.lines == lines && seekstart == 0
    {
      this.lines, seekstart := lines, 0;
    }

    method Inode2Tapepos(ino: u32, exactmatch: bool) returns (rc: int, tnum: int, tpos: int)
      requires Valid()
      modifies this
      ensures Valid()
      ensures (Answer(rc, tnum, tpos), seekstart) == Scan(ParseAll(lines), old(seekstart), ino, exactmatch, 0, 0)
    {
      hide Parse, Short;
      tnum, tpos := 0, 0;
      ghost var entries := ParseAll(lines);
      var at := seekstart;
      while true
        invariant at <= |lines|
        invariant Scan(entries, at, ino, exactmatch, tnum, tpos)
               == Scan(entries, old(seekstart), ino, exactmatch, 0, 0)
        decreases |lines| - at
      {
        seekstart := at;
        if at == |lines| {
          return 0, tnum, tpos;
        }
        var entry := ReadEntry(lines[at]);
        if entry.None? {
          return 1, tnum, tpos;
        }
        var (n, t, p) := entry.value;
        if exactmatch {
          if Unsigned(n) == ino {
            return 0, t, p;
          }
        } else {
          if Unsigned(n) > ino {
            return 0, tnum, tpos;
          }
          tnum, tpos := t, p;
        }
        at := at + 1;
      }
    }
  }

  // ---------------------------------------------------------------------
  // Answers from an index as the dump writes it.
  // ---------------------------------------------------------------------

  function EntriesOf(ls: seq<Line>): (entries: seq<Entry>)
    ensures |entries| == |ls|
  {
    seq(|ls|, i requires 0 <= i < |ls| => Some((ls[i].ino, ls[i].tapeno, ls[i].pos)))
  }

  /** The lines of an index fit the reader's buffers, and it reads what was written. */
  lemma TextReadsBack(ls: seq<Line>)
    ensures AllShort(Lines(Text(ls))) && ParseAll(Lines(Text(ls))) == EntriesOf(ls)
  {
    LinesOfText(ls);
    forall i | 0 <= i < |ls|
      ensures Parse(FormatAll(ls)[i]) == EntriesOf(ls)[i] && Short(FormatAll(ls)[i])
    {
      ParseFormat(ls[i]);
      FormatFits(ls[i]);
    }
  }

  /** The first line from i on that is above ino. */
  function Above(ls: seq<Line>, ino: u32, i: nat): (n: nat)
    requires i <= |ls|
    ensures i <= n <= |ls|
    ensures forall j :: i <= j < n ==> ls[j].ino <= ino
    ensures n < |ls| ==> ino < ls[n].ino
    decreases |ls| - i
  {
    if i == |ls| || ls[i].ino > ino then i else Above(ls, ino, i + 1)
  }

  /** A lookup that is not exact answers with the line before the first one above ino. */
  lemma {:induction false} ScanNearest(ls: seq<Line>, i: nat, ino: u32, tnum: int, tpos: int)
    requires i <= |ls|
    ensures var n := Above(ls, ino, i);
            Scan(EntriesOf(ls), i, ino, false, tnum, tpos)
            == (if n == i then Answer(0, tnum, tpos) else Answer(0, ls[n - 1].tapeno, ls[n - 1].pos), n)
    decreases |ls| - i
  {
    if i < |ls| && ls[i].ino <= ino {
      ScanNearest(ls, i + 1, ino, ls[i].tapeno, ls[i].pos);
    }
  }

  /** The first line from i on that is about ino. */
  function About(ls: seq<Line>, ino: u32, i: nat): (n: nat)
    requires i <= |ls|
    ensures i <= n <= |ls|
    ensures forall j :: i <= j < n ==> ls[j].ino != ino
    ensures n < |ls| ==> ls[n].ino == ino
    decreases |ls| - i
  {
    if i == |ls| || ls[i].ino == ino then i else About(ls, ino, i + 1)
  }

  /** An exact lookup finds the next line about ino and stays there; without one it
      answers zeros, and leaves nothing for later lookups. */
  lemma {:induction false} ScanExact(ls: seq<Line>, i: nat, ino: u32)
    requires i <= |ls|
    ensures var n := About(ls, ino, i);
            Scan(EntriesOf(ls), i, ino, true, 0, 0)
            == (if n == |ls| then Answer(0, 0, 0) else Answer(0, ls[n].tapeno, ls[n].pos), n)
    decreases |ls| - i
  {
    if i < |ls| && ls[i].ino != ino {
      ScanExact(ls, i + 1, ino);
    }
  }

  // ---------------------------------------------------------------------
  // Which answers are right.
  // ---------------------------------------------------------------------

  datatype Lookup = Lookup(ino: u32, exact: bool)

  ghost predicate Sorted(ls: seq<Line>) {
    forall i, j :: 0 <= i < j < |ls| ==> ls[i].ino < ls[j].ino
  }

  ghost predicate IsListed(ls: seq<Line>, ino: u32) {
    exists j :: 0 <= j < |ls| && ls[j].ino == ino
  }

  /** The line the comment on Inode2Tapepos speaks of: the one about the inode or, unless
      that is demanded, the one with the largest smaller inode. */
  ghost predicate IsBest(ls: seq<Line>, q: Lookup, k: int) {
    && 0 <= k < |ls| && ls[k].ino <= q.ino
    && (q.exact ==> ls[k].ino == q.ino)
    && forall j :: 0 <= j < |ls| && ls[j].ino <= q.ino ==> ls[j].ino <= ls[k].ino
  }

  function AnswerOf(l: Line): Answer {
    Answer(0, l.tapeno, l.pos)
  }

  /** The answer the comment promises: that line's, or zeros if there is none. */
  ghost function Documented(ls: seq<Line>, q: Lookup): Answer {
    if k :| IsBest(ls, q, k) then AnswerOf(ls[k]) else AnswerOf(Line(0, 0, 0))
  }

  /** The line at which the next lookup goes on after a run of lookups on an open index. */
  function PositionAfter(entries: seq<Entry>, qs: seq<Lookup>): (at: nat)
    ensures at <= |entries|
  {
    if qs == [] then 0
    else
      var n := |qs| - 1;
      Scan(entries, PositionAfter(entries, qs[..n]), qs[n].ino, qs[n].exact, 0, 0).1
  }

  /** The answer to q after the lookups qs. */
  function AnswerAfter(entries: seq<Entry>, qs: seq<Lookup>, q: Lookup): Answer {
    Scan(entries, PositionAfter(entries, qs), q.ino, q.exact, 0, 0).0
  }

  lemma BestNearest(ls: seq<Line>, ino: u32, at: nat, k: int)
    requires Sorted(ls) && at <= |ls|
    ensures var n := Above(ls, ino, at);
            if n > at then IsBest(ls, Lookup(ino, false), k) <==> k == n - 1
            else IsBest(ls, Lookup(ino, false), k) ==> 0 <= k < at
  {
    var n := Above(ls, ino, at);
    if n > at && 0 <= k < |ls| {
      assert ls[n - 1].ino <= ino;
    }
  }

  lemma BestExact(ls: seq<Line>, ino: u32, at: nat, k: int)
    requires Sorted(ls) && at <= |ls|
    ensures var n := About(ls, ino, at);
            if n < |ls| then IsBest(ls, Lookup(ino, true), k) <==> k == n
            else IsBest(ls, Lookup(ino, true), k) ==> 0 <= k < at
  {
  }

  /** From any line on, the answer is the documented one if and only if the documented
      line is not before the start, or there is none, or it holds zeros itself. */
  lemma {:induction false} RightFrom(ls: seq<Line>, at: nat, q: Lookup)
    requires Sorted(ls) && at <= |ls|
    ensures Scan(EntriesOf(ls), at, q.ino, q.exact, 0, 0).0 == Documented(ls, q) <==>
            forall k :: IsBest(ls, q, k) ==> at <= k || (ls[k].tapeno == 0 && ls[k].pos == 0)
  {
    hide Scan, EntriesOf, IsBest, Above, About;
    var n := if q.exact then About(ls, q.ino, at) else Above(ls, q.ino, at);
    if q.exact {
      ScanExact(ls, at, q.ino);
    } else {
      ScanNearest(ls, at, q.ino, 0, 0);
    }
    var found := if q.exact then n else n - 1;
    forall k
      ensures if at <= found < |ls| then IsBest(ls, q, k) <==> k == found else IsBest(ls, q, k) ==> 0 <= k < at
    {
      if q.exact {
        BestExact(ls, q.ino, at, k);
      } else {
        BestNearest(ls, q.ino, at, k);
      }
    }
    assert at <= found < |ls| ==> IsBest(ls, q, found);
    forall j, k | IsBest(ls, q, j) && IsBest(ls, q, k)
      ensures j == k
    {
      BestIsUnique(ls, q, j, k);
    }
  }

  lemma BestIsUnique(ls: seq<Line>, q: Lookup, j: int, k: int)
    requires Sorted(ls) && IsBest(ls, q, j) && IsBest(ls, q, k)
    ensures j == k
  {
  }

  /** Lookup q, begun at or before the line about ino, does not read past it. */
  predicate Spares(q: Lookup, ino: u32) {
    if q.exact then q.ino <= ino else q.ino < ino
  }

  /** No lookup of the run goes past the line about ino: each one that is exact finds its
      line, before or at that one, and none goes past the lines that later exact ones find. */
  ghost predicate Undisturbed(ls: seq<Line>, qs: seq<Lookup>, ino: u32) {
    && (forall i :: 0 <= i < |qs| ==> Spares(qs[i], ino) && (qs[i].exact ==> IsListed(ls, qs[i].ino)))
    && (forall i, j :: 0 <= i < j < |qs| && qs[j].exact ==> Spares(qs[i], qs[j].ino))
  }

  lemma NothingYet(ls: seq<Line>, ino: u32)
    ensures Undisturbed(ls, [], ino)
  {
  }

  lemma {:induction false} PositionIsUndisturbed(ls: seq<Line>, qs: seq<Lookup>, k: nat)
    requires Sorted(ls) && k < |ls|
    ensures PositionAfter(EntriesOf(ls), qs) <= k <==> Undisturbed(ls, qs, ls[k].ino)
    decreases |qs|
  {
    hide Scan, Undisturbed, EntriesOf;
    if qs == [] {
      NothingYet(ls, ls[k].ino);
    } else {
      var n := |qs| - 1;
      var front, q := qs[..n], qs[n];
      var at := PositionAfter(EntriesOf(ls), front);
      PositionIsUndisturbed(ls, front, k);
      if q.exact {
        ScanExact(ls, at, q.ino);
        forall j | 0 <= j < |ls| && ls[j].ino == q.ino
          ensures at <= j <==> Undisturbed(ls, front, q.ino)
        {
          PositionIsUndisturbed(ls, front, j);
        }
      } else {
        ScanNearest(ls, at, q.ino, 0, 0);
      }
      UndisturbedNext(ls, front, q, ls[k].ino);
      assert qs == front + [q];
    }
  }

  lemma UndisturbedNext(ls: seq<Line>, front: seq<Lookup>, q: Lookup, ino: u32)
    ensures Undisturbed(ls, front + [q], ino) <==>
            && Undisturbed(ls, front, ino) && Spares(q, ino)
            && (q.exact ==> IsListed(ls, q.ino) && Undisturbed(ls, front, q.ino))
  {
    var qs := front + [q];
    assert qs[|front|] == q && forall i :: 0 <= i < |front| ==> qs[i] == front[i];
  }

  /** After any run of lookups of either kind the next answer is the documented one if and
      only if there is no line to give, or it holds zeros, or the run left it undisturbed. */
  lemma {:induction false} LaterAnswers(ls: seq<Line>, qs: seq<Lookup>, q: Lookup)
    requires Sorted(ls)
    ensures AnswerAfter(EntriesOf(ls), qs, q) == Documented(ls, q) <==>
            forall k :: IsBest(ls, q, k) ==>
              Undisturbed(ls, qs, ls[k].ino) || (ls[k].tapeno == 0 && ls[k].pos == 0)
  {
    RightFrom(ls, PositionAfter(EntriesOf(ls), qs), q);
    forall k | IsBest(ls, q, k)
      ensures PositionAfter(EntriesOf(ls), qs) <= k <==> Undisturbed(ls, qs, ls[k].ino)
    {
      PositionIsUndisturbed(ls, qs, k);
    }
  }

  function AllOf(inos: seq<u32>, exact: bool): (qs: seq<Lookup>)
    ensures |qs| == |inos|
    ensures forall i :: 0 <= i < |qs| ==> qs[i] == Lookup(inos[i], exact)
  {
    seq(|inos|, i requires 0 <= i < |inos| => Lookup(inos[i], exact))
  }

  ghost predicate HoldsZeros(ls: seq<Line>, q: Lookup) {
    exists k :: IsBest(ls, q, k) && ls[k].tapeno == 0 && ls[k].pos == 0
  }

  /** Lookups as the extraction makes them, none exact: after those of inos, the answer is
      right if and only if some line lies above all of them and not above the new inode,
      or every line lies above the new inode, or the answer is zeros anyway. */
  lemma {:induction false} LaterNearestAnswers(ls: seq<Line>, inos: seq<u32>, ino: u32)
    requires Sorted(ls)
    ensures var q := Lookup(ino, false);
            AnswerAfter(EntriesOf(ls), AllOf(inos, false), q) == Documented(ls, q) <==>
            || (exists j :: 0 <= j < |ls| && ls[j].ino <= ino && forall i :: 0 <= i < |inos| ==> inos[i] < ls[j].ino)
            || (forall j :: 0 <= j < |ls| ==> ino < ls[j].ino)
            || HoldsZeros(ls, q)
  {
    hide Scan, AnswerAfter, Documented, IsBest;
    var q, qs := Lookup(ino, false), AllOf(inos, false);
    LaterAnswers(ls, qs, q);
    var n := Above(ls, ino, 0);
    forall k
      ensures if n > 0 then IsBest(ls, q, k) <==> k == n - 1 else !IsBest(ls, q, k)
    {
      BestNearest(ls, ino, 0, k);
    }
    if n > 0 {
      assert IsBest(ls, q, n - 1) && ls[n - 1].ino <= ino;
      assert Undisturbed(ls, qs, ls[n - 1].ino) <==> forall i :: 0 <= i < |inos| ==> inos[i] < ls[n - 1].ino;
    } else {
      assert forall j :: 0 <= j < |ls| ==> ino < ls[j].ino;
    }
  }

  /** Lookups as the listing makes them, all exact: after those of inos, the answer is
      right if and only if the new inode is not listed, or all of inos are and none of them
      is below an earlier one or above the new inode, or the answer is zeros anyway. */
  lemma {:induction false} LaterExactAnswers(ls: seq<Line>, inos: seq<u32>, ino: u32)
    requires Sorted(ls)
    ensures var q := Lookup(ino, true);
            AnswerAfter(EntriesOf(ls), AllOf(inos, true), q) == Documented(ls, q) <==>
            || !IsListed(ls, ino)
            || ((forall i :: 0 <= i < |inos| ==> IsListed(ls, inos[i]) && inos[i] <= ino)
                && forall i, j :: 0 <= i < j < |inos| ==> inos[i] <= inos[j])
            || HoldsZeros(ls, q)
  {
    hide AnswerAfter, Documented;
    var q, qs := Lookup(ino, true), AllOf(inos, true);
    LaterAnswers(ls, qs, q);
    if k :| 0 <= k < |ls| && ls[k].ino == ino {
      assert IsBest(ls, q, k);
    }
  }

  // ---------------------------------------------------------------------
  // The reader and the writer.
  // ---------------------------------------------------------------------

  lemma {:induction false} ListedIsSorted(blocks: seq<TapeBlock>, date: word)
    requires ErrorFree(blocks) && Increasing(blocks, date)
    ensures Sorted(Listed(blocks, date))
  {
    hide Eligible;
    if blocks != [] {
      var n := |blocks| - 1;
      var before := Listed(blocks[..n], date);
      ListedIsSorted(blocks[..n], date);
      if HasEligible(blocks[n], date) {
        forall m | 0 <= m < |before|
          ensures before[m].ino < LineOf(blocks[n], date).ino
        {
          var l := BlockOfLine(blocks[..n], date, m);
        }
      }
    }
  }

  /** The line of a block is the best one for each eligible inode in it. */
  lemma {:induction false} BestIsLineOfBlock(blocks: seq<TapeBlock>, date: word, k: nat, i: nat) returns (j: nat)
    requires ErrorFree(blocks) && Increasing(blocks, date)
    requires k < |blocks| && i < |blocks[k].records| && Eligible(blocks[k].records[i], date)
    ensures HasEligible(blocks[k], date) && Sorted(Listed(blocks, date))
    ensures j < |Listed(blocks, date)| && Listed(blocks, date)[j] == LineOf(blocks[k], date)
    ensures forall m :: IsBest(Listed(blocks, date), Lookup(Inode(blocks[k].records[i]), false), m) <==> m == j
  {
    hide Eligible, Listed, HasEligible, Inode;
    var ls, q := Listed(blocks, date), Lookup(Inode(blocks[k].records[i]), false);
    ListedIsSorted(blocks, date);
    j := LineOfBlock(blocks, date, k, i);
    assert ls[j].ino <= q.ino;
    assert IsBest(ls, q, j);
    assert forall m :: IsBest(ls, q, m) ==> m == j;
  }

  /** The index agrees with the tape: after an error-free dump with increasing inode
      numbers, looking up the inode of any eligible header in the text that was written
      gives the number and position of the very tape block that holds the header, as the
      first lookup, and after any others if and only if they went past no line up to that
      block's own (or the block is at 0 on tape 0). */
  lemma {:induction false} LookupFindsTheBlock(blocks: seq<TapeBlock>, date: word, qs: seq<Lookup>, k: nat, i: nat)
    requires ErrorFree(blocks) && Increasing(blocks, date)
    requires k < |blocks| && i < |blocks[k].records| && Eligible(blocks[k].records[i], date)
    ensures var lines, b := Lines(Run(blocks, date).text), blocks[k];
            var q, right := Lookup(Inode(b.records[i]), false), Answer(0, b.tapeno, b.probe.pos);
            && AllShort(lines) && HasEligible(b, date)
            && AnswerAfter(ParseAll(lines), [], q) == right
            && (AnswerAfter(ParseAll(lines), qs, q) == right <==>
                || Undisturbed(Listed(blocks, date), qs, LineOf(b, date).ino)
                || (b.tapeno == 0 && b.probe.pos == 0))
  {
    hide Eligible, HasEligible, Listed, IsBest, Undisturbed, Scan, PositionAfter, Lines, Run, ParseAll, EntriesOf;
    var ls, q := Listed(blocks, date), Lookup(Inode(blocks[k].records[i]), false);
    TextIsListed(blocks, date);
    TextReadsBack(ls);
    var j := BestIsLineOfBlock(blocks, date, k, i);
    assert IsBest(ls, q, j);
    LaterAnswers(ls, [], q);
    NothingYet(ls, ls[j].ino);
    LaterAnswers(ls, qs, q);
  }

  // ---------------------------------------------------------------------
  // An index whose writing failed.
  // ---------------------------------------------------------------------

  /** What the reader makes of the line that a cut one leaves at the end. */
  function LastEntry(part: string): (entries: seq<Entry>) {
    if part == "" then [] else [Parse(part[..|part| - 1])]
  }

  /** A first lookup among whole lines and one entry more. */
  lemma {:induction false} ScanToTheEnd(ls: seq<Line>, last: Entry, i: nat, ino: u32, tnum: int, tpos: int)
    requires i <= |ls|
    ensures var n := Above(ls, ino, i);
            var (t, p) := if n == i then (tnum, tpos) else (ls[n - 1].tapeno as int, ls[n - 1].pos as int);
            Scan(EntriesOf(ls) + [last], i, ino, false, tnum, tpos).0
            == if n < |ls| then Answer(0, t, p)
               else if last.None? then Answer(1, t, p)
               else if Unsigned(last.value.0) > ino then Answer(0, t, p)
               else Answer(0, last.value.1, last.value.2)
    decreases |ls| - i
  {
    var entries := EntriesOf(ls) + [last];
    if i == |ls| {
      assert entries[i] == last;
    } else if ls[i].ino <= ino {
      ScanToTheEnd(ls, last, i + 1, ino, ls[i].tapeno, ls[i].pos);
    }
  }

  /** An exact lookup among whole lines and one that cannot be read: found before it, or an
      error. */
  lemma {:induction false} ExactToTheEnd(ls: seq<Line>, i: nat, ino: u32)
    requires i <= |ls|
    ensures var n := About(ls, ino, i);
            Scan(EntriesOf(ls) + [None], i, ino, true, 0, 0)
            == (if n < |ls| then Answer(0, ls[n].tapeno, ls[n].pos) else Answer(1, 0, 0), n)
    decreases |ls| - i
  {
    var entries := EntriesOf(ls) + [None];
    if i == |ls| {
      assert entries[i] == None;
    } else if ls[i].ino != ino {
      ExactToTheEnd(ls, i + 1, ino);
    }
  }

  lemma CutTextReadsBack(ls: seq<Line>, l: Line, part: string)
    requires part <= Format(l)
    ensures var lines := Lines(Text(ls) + part);
            AllShort(lines) && ParseAll(lines) == EntriesOf(ls) + LastEntry(part)
  {
    hide Format, Parse, Text, Lines, Short;
    FormatFits(l);
    assert '\n' !in part;
    LinesOfText(ls);
    LinesOfTextAnd(ls, part);
    TextReadsBack(ls);
    if part != "" {
      assert part[..|part| - 1] == Format(l)[..|part| - 1];
      PrefixIsShort(Format(l), |part| - 1);
    }
    assert ParseAll(FormatAll(ls) + LastLine(part)) == ParseAll(FormatAll(ls)) + LastEntry(part);
  }
  /** The tape and the position of the last line before the first one above an inode. */
  function Before(ls: seq<Line>, ino: u32): (int, int) {
    var n := Above(ls, ino, 0);
    if n == 0 then (0, 0) else (ls[n - 1].tapeno, ls[n - 1].pos)
  }

  function LastOf(ls: seq<Line>): (int, int) {
    if ls == [] then (0, 0) else (ls[|ls| - 1].tapeno, ls[|ls| - 1].pos)
  }

  /** The first lookup in an index that ends within line l: the cut line is passed over
      unless its two tabs are there, with a character more that the reader deletes. */
  lemma {:induction false} AnswerFromCutText(ls: seq<Line>, l: Line, part: string, ino: u32)
    requires part <= Format(l)
    ensures var a := AnswerAfter(ParseAll(Lines(Text(ls) + part)), [], Lookup(ino, false));
            && AllShort(Lines(Text(ls) + part))
            && if Above(ls, ino, 0) < |ls| || ino < l.ino || |part| <= PositionStart(l) then
                 (a.tnum, a.tpos) == Before(ls, ino)
               else
                 a == Answer(0, l.tapeno, Atol(Print(l.pos)[..|part| - 1 - PositionStart(l)]))
  {
    hide Format, Print, Atol, Parse, Lines, Text, ParseAll, PositionStart, AllShort, EntriesOf;
    CutTextReadsBack(ls, l, part);
    if part == "" {
      assert EntriesOf(ls) + LastEntry(part) == EntriesOf(ls);
      ScanNearest(ls, 0, ino, 0, 0);
    } else {
      assert part[..|part| - 1] == Format(l)[..|part| - 1];
      ParseCut(l, |part| - 1);
      ScanToTheEnd(ls, Parse(part[..|part| - 1]), 0, ino, 0, 0);
    }
  }

  /** Enough of the line is left for a digit of the position to be read. */
  predicate DigitLeft(l: Line, part: string) {
    |part| - 1 > PositionStart(l) + if l.pos < 0 then 1 else 0
  }

  lemma {:induction false} BlockBeforeError(blocks: seq<TapeBlock>, date: word, n: nat, k: nat, i: nat)
    requires n < |blocks| && ErrorFree(blocks[..n]) && HasEligible(blocks[n], date) && Increasing(blocks, date)
    requires k < n && i < |blocks[k].records| && Eligible(blocks[k].records[i], date)
    ensures Before(Listed(blocks[..n], date), Inode(blocks[k].records[i])) == (blocks[k].tapeno as int, blocks[k].probe.pos as int)
    ensures blocks[n].probe.At? ==> Inode(blocks[k].records[i]) < LineOf(blocks[n], date).ino
  {
    hide Eligible, Listed;
    var x := Inode(blocks[k].records[i]);
    var ls := Listed(blocks[..n], date);
    var j := LineOfBlock(blocks[..n], date, k, i);
    assert blocks[..n][k] == blocks[k];
    assert forall m :: 0 <= m <= j ==> ls[m].ino <= x;
    assert j + 1 < |ls| ==> x < ls[j + 1].ino;
    assert Above(ls, x, 0) == j + 1;
  }

  lemma {:induction false} BlockAfterError(blocks: seq<TapeBlock>, date: word, n: nat, k: nat, i: nat)
    requires n < |blocks| && ErrorFree(blocks[..n]) && HasEligible(blocks[n], date) && Increasing(blocks, date)
    requires n <= k < |blocks| && i < |blocks[k].records| && Eligible(blocks[k].records[i], date)
    ensures var ls, x := Listed(blocks[..n], date), Inode(blocks[k].records[i]);
            && Above(ls, x, 0) == |ls|
            && Before(ls, x) == LastOf(ls)
            && (blocks[n].probe.At? ==> LineOf(blocks[n], date).ino <= x)
  {
    hide Eligible, Listed;
    var ls, x := Listed(blocks[..n], date), Inode(blocks[k].records[i]);
    forall m | 0 <= m < |ls|
      ensures ls[m].ino <= x
    {
      var q := BlockOfLine(blocks[..n], date, m);
    }
    assert Above(ls, x, 0) == |ls|;
  }

  /** The index of a dump that latched an error at block n, looked up in for the first
      time: the blocks before n are still found. For the inodes from there on the answer
      is the last line before the error, or position 0, which is none, if and only if no
      digit is left of the position in the cut line; otherwise it is a position on the
      tape that is not the block's. */
  lemma {:induction false} IndexAfterAnError(blocks: seq<TapeBlock>, date: word, n: nat, k: nat, i: nat)
    requires n < |blocks| && ErrorFree(blocks[..n]) && Run(blocks[..n + 1], date).gtperr != 0
    requires Increasing(blocks, date)
    requires k < |blocks| && i < |blocks[k].records| && Eligible(blocks[k].records[i], date)
    ensures HasEligible(blocks[n], date)
    ensures var lines, ls, b := Lines(Run(blocks, date).text), Listed(blocks[..n], date), blocks[n];
            var a := AnswerAfter(ParseAll(lines), [], Lookup(Inode(blocks[k].records[i]), false));
            && AllShort(lines)
            && if k < n then (a.tnum, a.tpos) == (blocks[k].tapeno as int, blocks[k].probe.pos as int)
               else if b.probe.At? && DigitLeft(LineOf(b, date), Remains(b, date)) then
                 a.tnum == b.tapeno && a.tpos != 0 && a.tpos != b.probe.pos
               else (a.tnum, a.tpos) == LastOf(ls) || a.tpos == 0
  {
    hide Eligible, FirstEligible, Listed, Run, Lines, Scan, ParseAll, AllShort, Format, Print, Atol, Before, Above;
    hide PositionStart, Remains, Text, Increasing, ErrorFree, PositionAfter;
    var ls, x := Listed(blocks[..n], date), Inode(blocks[k].records[i]);
    TextAtFirstError(blocks, n, date);
    var part := Remains(blocks[n], date);
    var l := if blocks[n].probe.At? then LineOf(blocks[n], date) else Line(0, 0, 0);
    FailedProbeLeavesNothing(blocks[n], date);
    AnswerFromCutText(ls, l, part, x);
    if k < n {
      BlockBeforeError(blocks, date, n, k, i);
    } else {
      BlockAfterError(blocks, date, n, k, i);
      if |part| > PositionStart(l) {
        PrintedPosition(l, part);
      }
    }
  }

  lemma FailedProbeLeavesNothing(b: TapeBlock, date: word)
    requires HasEligible(b, date)
    ensures b.probe.ProbeFailed? ==> Remains(b, date) == ""
    ensures forall l: Line :: "" <= Format(l) && PositionStart(l) >= 0
  {
  }

  lemma PrintedPosition(l: Line, part: string)
    requires part <= Format(l) && |part| > PositionStart(l)
    ensures var left := |part| - 1 - PositionStart(l);
            && left < |Print(l.pos)|
            && (Atol(Print(l.pos)[..left]) == 0 <==> !DigitLeft(l, part))
            && (Atol(Print(l.pos)[..left]) == l.pos <==> l.pos == 0)
  {
    AtolCut(l.pos, |part| - 1 - PositionStart(l));
  }

  /** A line cut before its newline: 50 is read for position 500. */
  lemma {:induction false} CutLineMisleads()
    ensures Parse(LastLine(Format(Line(10, 1, 500)))[0]) == Some((10, 1, 50))
  {
    var l := Line(10, 1, 500);
    var n := |Format(l)| - 1;
    ParseCut(l, n);
    AtolCut(500, |Print(500)| - 1);
    assert Shortened(50, 0) == 50;
    assert n - PositionStart(l) == |Print(500)| - 1;
  }

  // ---------------------------------------------------------------------
  // Lookups that go wrong.
  // ---------------------------------------------------------------------

  /** Two files in one tape block: the second lookup answers zeros. */
  lemma {:induction false} SecondLookupCanFail()
    ensures var ls, q := [Line(10, 1, 500)], Lookup(11, false);
            Documented(ls, q) == Answer(0, 1, 500) && AnswerAfter(EntriesOf(ls), AllOf([10], false), q) == Answer(0, 0, 0)
  {
    var ls := [Line(10, 1, 500)];
    RightFrom(ls, 0, Lookup(11, false));
    ScanNearest(ls, 0, 11, 0, 0);
    ScanNearest(ls, 0, 10, 0, 0);
    ScanNearest(ls, 1, 11, 0, 0);
    assert AllOf([10], false)[..0] == [];
  }

  /** An exact lookup that misses leaves nothing for the one after it. */
  lemma {:induction false} LookupAfterAMissFails()
    ensures var ls, q := [Line(10, 1, 500)], Lookup(10, true);
            Documented(ls, q) == Answer(0, 1, 500) && AnswerAfter(EntriesOf(ls), AllOf([9], true), q) == Answer(0, 0, 0)
  {
    var ls := [Line(10, 1, 500)];
    RightFrom(ls, 0, Lookup(10, true));
    ScanExact(ls, 0, 10);
    ScanExact(ls, 0, 9);
    ScanExact(ls, 1, 10);
    assert AllOf([9], true)[..0] == [];
  }

  /** What counts is the largest of all earlier inodes, not the last: a line between the
      last two inodes does not help. */
  lemma {:induction false} ThirdLookupCanFail()
    ensures var ls, q := [Line(10, 1, 500), Line(18, 1, 900)], Lookup(15, false);
            && Documented(ls, q) == Answer(0, 1, 500)
            && AnswerAfter(EntriesOf(ls), AllOf([20, 5], false), q) != Documented(ls, q)
  {
    var ls, q := [Line(10, 1, 500), Line(18, 1, 900)], Lookup(15, false);
    RightFrom(ls, 0, q);
    ScanNearest(ls, 0, 15, 0, 0);
    LaterNearestAnswers(ls, [20, 5], 15);
    assert IsBest(ls, q, 0) && [20, 5][0] == 20;
  }
}
