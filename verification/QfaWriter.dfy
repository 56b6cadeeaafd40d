// Writing the quick-file-access index during a dump (common/legacy_indexer.c): for
// each tape block, one line about the first eligible header in it.

module QfaWriter {
  import opened LittleEndian
  import opened DumpRecord
  import opened QfaText
  import opened Decimal

  type Errno = x: int | x != 0 witness 1

  /** What the tape says of its position. */
  datatype Probe = At(pos: int64) | ProbeFailed(errno: Errno)

  /** How a write to the index ends: completely, or after some bytes less. Only a write
      that fails sets errno, so a shortened one may find it 0. */
  datatype WriteResult = Written | Cut(n: nat, errno: int)

  /** A block about to be written: its records, the tape's answer when asked for the
      position, the tape's number, and how writing a line would end now. */
  datatype TapeBlock = TapeBlock(records: seq<Record>, probe: Probe, tapeno: int32, write: WriteResult)

  /** The first header of a file of this dump, as the code tests it: one bit of the mode,
      so block devices and sockets are passed over along with directories. */
  predicate Eligible(h: Record, date: word) {
    && h[C_MAGIC] == NFS_MAGIC && h[C_TYPE] == TS_INODE && h[C_DATE] == date
    && !Has(h[DI_MODE], S_IFDIR) && !Has(h[C_FLAGS], DR_EXTATTRIBUTES)
  }

  lemma Quarters(q: nat, r: nat)
    requires r < 0x4000
    ensures (q * 0x4000 + r) / 0x4000 == q
  {
  }

  lemma TypeBits(t: nat)
    requires t < 16
    ensures t * 0x1000 == t / 4 * 0x4000 + t % 4 * 0x1000 && t % 4 * 0x1000 <= 0x3000
  {
  }

  /** The bit test sees only the file type. */
  lemma BitOfFileType(mode: word)
    ensures Has(mode, S_IFDIR) == Has(FileType(mode), S_IFDIR)
  {
    var high, rest := mode / 0x1_0000, mode % 0x1_0000;
    var t, low := rest / 0x1000, rest % 0x1000;
    TypeBits(t);
    assert mode == (high * 4 + t / 4) * 0x4000 + (t % 4 * 0x1000 + low);
    Quarters(high * 4 + t / 4, t % 4 * 0x1000 + low);
    Quarters(t / 4, t % 4 * 0x1000);
    EvenPart(high, t / 4);
    assert FileType(mode) == t * 0x1000;
  }

  lemma EvenPart(high: nat, q: nat)
    ensures (high * 4 + q) % 2 == q % 2
  {
  }

  /** Of the seven file types it lets through just regular files, symbolic links,
      character devices and pipes: not directories, but not block devices or sockets either. */
  lemma EligibleTypes(mode: word)
    ensures var t := FileType(mode);
            && (t == S_IFREG || t == S_IFLNK || t == S_IFCHR || t == S_IFIFO ==> !Has(mode, S_IFDIR))
            && (t == S_IFDIR || t == S_IFBLK || t == S_IFSOCK ==> Has(mode, S_IFDIR))
  {
    BitOfFileType(mode);
  }

  /** Which headers the index should list, in words of the record: the magic number, the
      type and the date of the dump, a file type of 0 to 3 or 8 to 11, and no mark of
      extended attributes. */
  predicate ToList(h: Record, date: word) {
    && h[6] == 60012 && h[0] == 2 && h[1] == date
    && h[8] % 0x1_0000 / 0x1000 % 8 < 4 && h[222] / 0x8000 % 2 == 0
  }

  /** A regular file, a symbolic link, a character device or a pipe. */
  predicate ListedType(t: int) {
    t == 8 || t == 10 || t == 2 || t == 1
  }

  /** A directory, a block device or a socket. */
  predicate PassedOverType(t: int) {
    t == 4 || t == 6 || t == 12
  }

  lemma ModeBit(mode: word)
    ensures Has(mode, S_IFDIR) <==> mode % 0x1_0000 / 0x1000 % 8 >= 4
  {
    hide Has;
    var t := mode % 0x1_0000 / 0x1000;
    BitOfFileType(mode);
    TypeBit(t);
    assert FileType(mode) == t * 0x1000;
  }

  lemma TypeBit(t: nat)
    requires t < 16
    ensures Has(t * 0x1000, S_IFDIR) <==> t % 8 >= 4
  {
    assert t * 0x1000 / 0x4000 == t / 4;
  }

  /** The code's test is that one; and of the seven file types four are listed. */
  lemma {:induction false} EligibleExactly(h: Record, date: word)
    ensures Eligible(h, date) <==> ToList(h, date)
    ensures var t := h[8] % 0x1_0000 / 0x1000;
            && (ListedType(t) ==> t % 8 < 4) && (PassedOverType(t) ==> t % 8 >= 4)
  {
    hide Has;
    ModeBit(h[8]);
    MarkBit(h[222]);
  }

  lemma MarkBit(flags: word)
    ensures Has(flags, DR_EXTATTRIBUTES) <==> flags / 0x8000 % 2 == 1
  {
    ExtAttributesBit(flags / 0x1_0000, flags / 0x8000 % 2, flags % 0x8000);
    assert flags == flags / 0x1_0000 * 0x1_0000 + flags / 0x8000 % 2 * 0x8000 + flags % 0x8000;
  }

  /** Record i is the first of a block that is to be listed. */
  ghost predicate FirstToList(records: seq<Record>, date: word, i: int) {
    && 0 <= i < |records| && ToList(records[i], date)
    && forall j :: 0 <= j < i ==> !ToList(records[j], date)
  }

  function FirstEligible(records: seq<Record>, date: word): (i: nat)
    ensures i <= |records|
    ensures forall j :: 0 <= j < i ==> !Eligible(records[j], date)
    ensures i < |records| ==> Eligible(records[i], date)
  {
    if records == [] || Eligible(records[0], date) then 0 else 1 + FirstEligible(records[1..], date)
  }

  predicate HasEligible(b: TapeBlock, date: word) {
    FirstEligible(b.records, date) < |b.records|
  }

  function Inode(h: Record): u32 {
    h[C_INUMBER]
  }

  /** The line for a block whose position is known. */
  function LineOf(b: TapeBlock, date: word): Line
    requires HasEligible(b, date) && b.probe.At?
  {
    Line(Inode(b.records[FirstEligible(b.records, date)]), b.tapeno, b.probe.pos)
  }

  /** A block gets a line just when some record is to be listed, about the first. */
  lemma {:induction false} LineInWords(b: TapeBlock, date: word, i: int)
    ensures HasEligible(b, date) <==> exists j :: 0 <= j < |b.records| && ToList(b.records[j], date)
    ensures FirstToList(b.records, date, i) && b.probe.At? ==>
              HasEligible(b, date) && LineOf(b, date) == Line(b.records[i][5], b.tapeno, b.probe.pos)
  {
    hide Eligible, ToList;
    forall j | 0 <= j < |b.records|
      ensures Eligible(b.records[j], date) <==> ToList(b.records[j], date)
    {
      EligibleExactly(b.records[j], date);
    }
    var n := FirstEligible(b.records, date);
    assert n < |b.records| ==> ToList(b.records[n], date);
    if FirstToList(b.records, date, i) {
      assert n == i;
    }
  }

  /** The latched error, and the text written so far. */
  datatype State = State(gtperr: int, text: string)

  /** What a write leaves in the file. */
  function Appended(line: string, write: WriteResult): (part: string)
    requires line != ""
    ensures part <= line && (part == line <==> write.Written?)
    ensures write.Cut? ==> |part| == if write.n < |line| then write.n else |line| - 1
  {
    if write.Written? then line else if write.n < |line| then line[..write.n] else line[..|line| - 1]
  }

  function ErrorOf(write: WriteResult): int {
    if write.Written? then 0 else write.errno
  }

  function Step(s: State, b: TapeBlock, date: word): State {
    if !HasEligible(b, date) || s.gtperr != 0 then s
    else if b.probe.ProbeFailed? then s.(gtperr := b.probe.errno)
    else State(ErrorOf(b.write), s.text + Appended(Format(LineOf(b, date)) + "\n", b.write))
  }

  class Writer {
    /** Whether an index was asked for. */
    const enabled: bool
    const ntrec: nat
    const date: word
    var gtperr: int
    var text: string
    var cntntrecs: nat

    ghost function Abs(): State
      reads this
    {
      State(gtperr, text)
    }

    constructor (enabled: bool, ntrec: nat, date: word, maxntrecs: nat)
      ensures Abs() == State(0, "") && cntntrecs == maxntrecs
      ensures this.enabled == enabled && this.ntrec == ntrec && this.date == date
    {
      this.enabled, this.ntrec, this.date := enabled, ntrec, date;
      gtperr, text, cntntrecs := 0, "", maxntrecs;
    }

    method UpdateQfa(b: TapeBlock)
      requires |b.records| == ntrec
      modifies this
      ensures Abs() == if enabled then Step(old(Abs()), b, date) else old(Abs())
      ensures cntntrecs == if enabled && HasEligible(b, date) then 0 else old(cntntrecs)
      ensures (forall i :: 0 <= i < ntrec ==> !ToList(b.records[i], date)) || !enabled || old(gtperr) != 0 ==>
                text == old(text) && gtperr == old(gtperr)
      ensures forall i :: enabled && old(gtperr) == 0 && FirstToList(b.records, date, i) ==>
                match b.probe
                case ProbeFailed(errno) => text == old(text) && gtperr == errno
                case At(pos) =>
                  match b.write
                  case Cut(_, errno) => gtperr == errno
                  case Written =>
                    gtperr == 0
                    && text == old(text) + (Print(b.records[i][5]) + "\t" + Print(b.tapeno) + "\t" + Print(pos) + "\n")
    {
      hide Eligible, ToList;
      forall i
        ensures HasEligible(b, date) <==> exists j :: 0 <= j < |b.records| && ToList(b.records[j], date)
        ensures FirstToList(b.records, date, i) && b.probe.At? ==>
                  HasEligible(b, date) && LineOf(b, date) == Line(b.records[i][5], b.tapeno, b.probe.pos)
        ensures FirstToList(b.records, date, i) ==> HasEligible(b, date)
      {
        LineInWords(b, date, i);
      }
      if enabled {
        var foundone := false;
        var i := 0;
        while i < ntrec && !foundone
          invariant i <= ntrec
          invariant !foundone ==> Abs() == old(Abs()) && cntntrecs == old(cntntrecs)
          invariant !foundone ==> FirstEligible(b.records, date) == i + FirstEligible(b.records[i..], date)
          invariant foundone ==> HasEligible(b, date) && Abs() == Step(old(Abs()), b, date) && cntntrecs == 0
        {
          var h := b.records[i];
          assert b.records[i..][1..] == b.records[i + 1..];
          if Eligible(h, date) {
            foundone := true;
            cntntrecs := 0;
            assert FirstEligible(b.records, date) == i;
            if gtperr == 0 && b.probe.ProbeFailed? {
              gtperr := b.probe.errno;
            } else if gtperr == 0 {
              gtperr := MkTapeString(Inode(h), b.tapeno, b.probe.pos, b.write);
            }
          }
          i := i + 1;
        }
      }
    }

    /** One line, printed to a buffer that always has room for it. */
    method MkTapeString(ino: u32, tapeno: int32, pos: int64, write: WriteResult) returns (err: int)
      modifies this`text
      ensures err == match write { case Written => 0 case Cut(_, errno) => errno }
      ensures text == old(text) + Appended(Format(Line(ino, tapeno, pos)) + "\n", write)
    {
      var line := Format(Line(ino, tapeno, pos)) + "\n";
      FormatFits(Line(ino, tapeno, pos));
      var gTps := new char[LINE_BUFFER];
      forall i | 0 <= i < |line| {
        gTps[i] := line[i];
      }
      gTps[|line|] := '\0';
      assert gTps[..|line|] == line;
      text := text + Appended(gTps[..|line|], write);
      err := ErrorOf(write);
    }
  }

  // ---------------------------------------------------------------------
  // Whole runs.
  // ---------------------------------------------------------------------

  function Run(blocks: seq<TapeBlock>, date: word): State {
    if blocks == [] then State(0, "") else Step(Run(blocks[..|blocks| - 1], date), blocks[|blocks| - 1], date)
  }

  predicate ErrorFree(blocks: seq<TapeBlock>) {
    forall k :: 0 <= k < |blocks| ==> blocks[k].probe.At? && blocks[k].write.Written?
  }

  /** The index that should be written: a line for each block with an eligible header. */
  function Listed(blocks: seq<TapeBlock>, date: word): seq<Line>
    requires ErrorFree(blocks)
  {
    if blocks == [] then []
    else
      var n := |blocks| - 1;
      Listed(blocks[..n], date) + if HasEligible(blocks[n], date) then [LineOf(blocks[n], date)] else []
  }

  lemma {:induction false} TextIsListed(blocks: seq<TapeBlock>, date: word)
    requires ErrorFree(blocks)
    ensures Run(blocks, date) == State(0, Text(Listed(blocks, date)))
  {
    if blocks == [] {
      assert FormatAll([]) == [];
    } else {
      var n := |blocks| - 1;
      TextIsListed(blocks[..n], date);
      if HasEligible(blocks[n], date) {
        TextOneMore(Listed(blocks[..n], date), LineOf(blocks[n], date));
      } else {
        assert Listed(blocks[..n], date) + [] == Listed(blocks[..n], date);
      }
    }
  }

  /** The index that should be written, block by block and in words of the records. */
  lemma {:induction false} ListedInWords(blocks: seq<TapeBlock>, date: word, n: nat)
    requires ErrorFree(blocks) && n < |blocks|
    ensures var b, before, after := blocks[n], Listed(blocks[..n], date), Listed(blocks[..n + 1], date);
            && ((forall j :: 0 <= j < |b.records| ==> !ToList(b.records[j], date)) ==> after == before)
            && forall i :: FirstToList(b.records, date, i) ==>
                 after == before + [Line(b.records[i][5], b.tapeno, b.probe.pos)]
  {
    hide Eligible, ToList;
    assert blocks[..n + 1][..n] == blocks[..n];
    forall i
      ensures HasEligible(blocks[n], date) <==>
              exists j :: 0 <= j < |blocks[n].records| && ToList(blocks[n].records[j], date)
      ensures FirstToList(blocks[n].records, date, i) ==>
                HasEligible(blocks[n], date)
                && LineOf(blocks[n], date) == Line(blocks[n].records[i][5], blocks[n].tapeno, blocks[n].probe.pos)
    {
      LineInWords(blocks[n], date, i);
    }
  }

  /** After the first error nothing more is written. */
  lemma {:induction false} ErrorsStopTheIndex(blocks: seq<TapeBlock>, n: nat, date: word)
    requires n <= |blocks| && Run(blocks[..n], date).gtperr != 0
    ensures Run(blocks, date) == Run(blocks[..n], date)
    decreases |blocks|
  {
    if n < |blocks| {
      assert blocks[..|blocks| - 1][..n] == blocks[..n];
      ErrorsStopTheIndex(blocks[..|blocks| - 1], n, date);
    } else {
      assert blocks[..n] == blocks;
    }
  }

  /** What a block with an eligible header leaves in the index, when no error came before. */
  function Remains(b: TapeBlock, date: word): string
    requires HasEligible(b, date)
  {
    if b.probe.ProbeFailed? then "" else Appended(Format(LineOf(b, date)) + "\n", b.write)
  }

  lemma StepToAnError(s: State, b: TapeBlock, date: word)
    requires s.gtperr == 0 && Step(s, b, date).gtperr != 0
    ensures HasEligible(b, date) && Step(s, b, date).text == s.text + Remains(b, date)
    ensures b.probe.At? ==> Remains(b, date) <= Format(LineOf(b, date))
  {
    hide Format, Eligible, FirstEligible;
    if b.probe.ProbeFailed? {
      assert s.text + "" == s.text;
    }
  }

  /** The text at the end of a run that was free of errors up to block n, which latches
      one: the lines of the blocks before it, and a beginning of its own. */
  lemma {:induction false} TextAtFirstError(blocks: seq<TapeBlock>, n: nat, date: word)
    requires n < |blocks| && ErrorFree(blocks[..n]) && Run(blocks[..n + 1], date).gtperr != 0
    ensures HasEligible(blocks[n], date)
    ensures Run(blocks, date).text == Text(Listed(blocks[..n], date)) + Remains(blocks[n], date)
    ensures blocks[n].probe.At? ==> Remains(blocks[n], date) <= Format(LineOf(blocks[n], date))
  {
    hide Step, Listed, HasEligible, Remains, Format, Text;
    TextIsListed(blocks[..n], date);
    ErrorsStopTheIndex(blocks, n + 1, date);
    assert blocks[..n + 1][..n] == blocks[..n];
    assert Run(blocks[..n + 1], date) == Step(Run(blocks[..n], date), blocks[n], date);
    StepToAnError(Run(blocks[..n], date), blocks[n], date);
  }

  /** Eligible inode numbers increase along the tape, within and across blocks. */
  ghost predicate Increasing(blocks: seq<TapeBlock>, date: word) {
    forall k, i, l, j ::
      && 0 <= k < |blocks| && 0 <= l < |blocks| && 0 <= i < |blocks[k].records| && 0 <= j < |blocks[l].records|
      && (k < l || (k == l && i < j))
      && Eligible(blocks[k].records[i], date) && Eligible(blocks[l].records[j], date)
      ==> Inode(blocks[k].records[i]) < Inode(blocks[l].records[j])
  }

  /** Every line comes from a block. */
  lemma {:induction false} BlockOfLine(blocks: seq<TapeBlock>, date: word, j: nat) returns (k: nat)
    requires ErrorFree(blocks) && j < |Listed(blocks, date)|
    ensures k < |blocks| && HasEligible(blocks[k], date) && Listed(blocks, date)[j] == LineOf(blocks[k], date)
  {
    var n := |blocks| - 1;
    if j < |Listed(blocks[..n], date)| {
      k := BlockOfLine(blocks[..n], date, j);
    } else {
      k := n;
    }
  }

  /** The line of block k is the last one whose inode does not exceed that of any eligible
      header in the block, and the lines after it all exceed it. */
  lemma {:induction false} LineOfBlock(blocks: seq<TapeBlock>, date: word, k: nat, i: nat) returns (j: nat)
    requires ErrorFree(blocks) && Increasing(blocks, date)
    requires k < |blocks| && i < |blocks[k].records| && Eligible(blocks[k].records[i], date)
    ensures HasEligible(blocks[k], date) && j < |Listed(blocks, date)|
    ensures Listed(blocks, date)[j] == LineOf(blocks[k], date)
    ensures forall m :: 0 <= m <= j ==> Listed(blocks, date)[m].ino <= Inode(blocks[k].records[i])
    ensures forall m :: j < m < |Listed(blocks, date)| ==> Inode(blocks[k].records[i]) < Listed(blocks, date)[m].ino
  {
    hide Eligible;
    var n := |blocks| - 1;
    var front, lines := blocks[..n], Listed(blocks, date);
    var before := Listed(front, date);
    var x := Inode(blocks[k].records[i]);
    assert HasEligible(blocks[k], date);
    if k < n {
      j := LineOfBlock(front, date, k, i);
      assert forall m :: 0 <= m < |before| ==> lines[m] == before[m];
    } else {
      j := |before|;
      forall m | 0 <= m < |before|
        ensures lines[m].ino <= x
      {
        var l := BlockOfLine(front, date, m);
        assert lines[m] == LineOf(blocks[l], date);
      }
    }
  }
}
