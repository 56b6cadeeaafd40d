// The archive file of the legacy indexer (common/legacy_indexer.c): which of the
// records written to tape it keeps, and in what form.

module Archive {
  import opened DumpRecord

  predicate HasExtAttributes(h: Record) {
    Has(h[C_FLAGS], DR_EXTATTRIBUTES)
  }

  predicate IsDirectory(h: Record) {
    FileType(h[DI_MODE]) == S_IFDIR
  }

  /** A header as it is archived: marked uncompressed, with a fresh checksum. */
  function Cleaned(h: Record): Record {
    Checksummed(h[C_FLAGS := Without(h[C_FLAGS], DR_COMPRESSED)])
  }

  type WriteSize = n: nat | n <= 4 * WORDS

  /** What is passed to the indexer: a new current header, or data under the last one; and
      how many bytes a write to the archive file would write now. */
  datatype Item = Header(rec: Record, written: WriteSize) | Data(rec: Record, written: WriteSize)

  /** What a write leaves in the archive file: the record, or its first bytes only. */
  datatype Piece = Piece(rec: Record, bytes: WriteSize)

  function Archived(item: Item): Piece {
    Piece(if item.Header? then Cleaned(item.rec) else item.rec, item.written)
  }

  // ---------------------------------------------------------------------
  // The code.
  // ---------------------------------------------------------------------

  /** The state: the global current header, the active flag and the file so far. */
  datatype State = State(spcl: Record, active: bool, archive: seq<Piece>)

  function Step(s: State, item: Item): State {
    var spcl := if item.Header? then item.rec else s.spcl;
    var resumed := s.active || (item.Header? && spcl[C_TYPE] == TS_END);
    if !resumed || HasExtAttributes(spcl) then State(spcl, resumed, s.archive)
    else if item.Header? && spcl[C_TYPE] == TS_INODE && !IsDirectory(spcl) then State(spcl, false, s.archive)
    else State(spcl, resumed, s.archive + [Archived(item)])
  }

  class LegacyIndexer {
    var spcl: Record
    var active: bool
    /** Whether an archive file was asked for. */
    const open: bool
    var archive: seq<Piece>

    ghost function Abs(): State
      reads this
    {
      State(spcl, active, archive)
    }

    constructor (spcl: Record, open: bool)
      ensures Abs() == State(spcl, true, []) && this.open == open
    {
      this.spcl, this.active, this.open, this.archive := spcl, true, open, [];
    }

    /** Records a header, as the current one. */
    method WriteHeader(h: Record, written: WriteSize)
      modifies this
      ensures open ==> Abs() == Step(old(Abs()), Header(h, written))
      ensures !open ==> archive == old(archive)
    {
      spcl := h;
      WriteRec(h, true, written);
    }

    method WriteRec(dp: Record, isspcl: bool, written: WriteSize)
      requires isspcl ==> dp == spcl
      modifies this
      ensures open ==> Abs() == Step(old(Abs()), if isspcl then Header(dp, written) else Data(dp, written))
      ensures !open ==> archive == old(archive)
    {
      if !active && isspcl && spcl[C_TYPE] == TS_END {
        active := true;
      }
      if active && open && !HasExtAttributes(spcl) {
        if isspcl && spcl[C_TYPE] == TS_INODE && !IsDirectory(spcl) {
          active := false;
        } else {
          var tmp := new word[WORDS](i requires 0 <= i < WORDS => dp[i]);
          assert tmp[..] == dp;
          if isspcl {
            tmp[C_FLAGS] := Without(tmp[C_FLAGS], DR_COMPRESSED);
            assert tmp[..] == dp[C_FLAGS := Without(dp[C_FLAGS], DR_COMPRESSED)];
            MkChecksum(tmp);
          }
          // A short write is reported, and otherwise ignored.
          archive := archive + [Piece(tmp[..], written)];
        }
      }
    }
  }

  /** A whole run, from the state a new indexer has. */
  function Run(spcl: Record, items: seq<Item>): State {
    if items == [] then State(spcl, true, [])
    else Step(Run(spcl, items[..|items| - 1]), items[|items| - 1])
  }

  // ---------------------------------------------------------------------
  // What the archive should hold, by position in the run.
  // ---------------------------------------------------------------------

  /** The header in force at the end of a run. */
  function Latest(spcl: Record, items: seq<Item>): Record {
    if items == [] then spcl
    else if items[|items| - 1].Header? then items[|items| - 1].rec
    else Latest(spcl, items[..|items| - 1])
  }

  // The conditions are stated in words of the record, apart from the code's own tests:
  // word 0 is the type, the low half of word 8 the mode, bit 0x8000 of word 222 the mark
  // of extended attributes.

  predicate Marked(h: Record) {
    h[222] / 0x8000 % 2 == 1
  }

  /** The first header of a file that is not a directory ends the archive's part of the tape. */
  predicate Ends(item: Item) {
    item.Header? && item.rec[0] == 2 && item.rec[8] % 0x1_0000 / 0x1000 != 4 && !Marked(item.rec)
  }

  /** The end-of-volume header begins it again. */
  predicate Resumes(item: Item) {
    item.Header? && item.rec[0] == 5
  }

  ghost predicate Wanted(items: seq<Item>, i: nat)
    requires i <= |items|
  {
    forall j :: 0 <= j < i && Ends(items[j]) ==> exists k :: j < k < i && Resumes(items[k])
  }

  /** Item i belongs in the archive. */
  ghost predicate Kept(spcl: Record, items: seq<Item>, i: nat)
    requires i < |items|
  {
    Wanted(items, i + 1) && !Marked(Latest(spcl, items[..i + 1]))
  }

  /** The kept positions of the first n items, in order. */
  ghost function KeptPositions(spcl: Record, items: seq<Item>, n: nat): (p: seq<nat>)
    requires n <= |items|
    ensures forall k :: 0 <= k < |p| ==> p[k] < n && Kept(spcl, items, p[k])
    ensures forall i :: 0 <= i < n && Kept(spcl, items, i) ==> i in p
    ensures forall j, k :: 0 <= j < k < |p| ==> p[j] < p[k]
  {
    if n == 0 then [] else KeptPositions(spcl, items, n - 1) + if Kept(spcl, items, n - 1) then [n - 1] else []
  }

  ghost function ArchivedAt(items: seq<Item>, p: seq<nat>): (r: seq<Piece>)
    requires forall k :: 0 <= k < |p| ==> p[k] < |items|
    ensures |r| == |p|
  {
    seq(|p|, k requires 0 <= k < |p| => Archived(items[p[k]]))
  }

  lemma WantedNext(items: seq<Item>, i: nat)
    requires i < |items|
    ensures Wanted(items, i + 1) <==> Resumes(items[i]) || (Wanted(items, i) && !Ends(items[i]))
  {
    if Wanted(items, i) && !Ends(items[i]) {
      forall j | 0 <= j < i + 1 && Ends(items[j])
        ensures exists k :: j < k < i + 1 && Resumes(items[k])
      {
        var k :| j < k < i && Resumes(items[k]);
      }
    }
    if Wanted(items, i + 1) && !Resumes(items[i]) {
      forall j | 0 <= j < i && Ends(items[j])
        ensures exists k :: j < k < i && Resumes(items[k])
      {
        var k :| j < k < i + 1 && Resumes(items[k]);
      }
    }
  }

  lemma RunNext(spcl: Record, items: seq<Item>, i: nat)
    requires i < |items|
    ensures Run(spcl, items[..i + 1]) == Step(Run(spcl, items[..i]), items[i])
    ensures Latest(spcl, items[..i + 1]) == if items[i].Header? then items[i].rec else Latest(spcl, items[..i])
  {
    assert items[..i + 1][..i] == items[..i];
  }

  lemma KeptNext(spcl: Record, items: seq<Item>, i: nat)
    requires i < |items|
    ensures ArchivedAt(items, KeptPositions(spcl, items, i + 1))
         == ArchivedAt(items, KeptPositions(spcl, items, i)) + if Kept(spcl, items, i) then [Archived(items[i])] else []
  {
    var p, q := KeptPositions(spcl, items, i), KeptPositions(spcl, items, i + 1);
    assert q == p + if Kept(spcl, items, i) then [i] else [];
  }

  /** The archive is the kept items, in order and as archived, at every point of a run. */
  lemma {:induction false} ArchiveIsTheKeptItems(spcl: Record, items: seq<Item>, n: nat)
    requires n <= |items|
    ensures var s := Run(spcl, items[..n]);
            && s.spcl == Latest(spcl, items[..n])
            && (s.active <==> Wanted(items, n))
            && s.archive == ArchivedAt(items, KeptPositions(spcl, items, n))
  {
    if n > 0 {
      var i := n - 1;
      ArchiveIsTheKeptItems(spcl, items, i);
      WantedNext(items, i);
      RunNext(spcl, items, i);
      KeptNext(spcl, items, i);
    }
  }

  /** Every archived header is marked uncompressed, is accepted by the reader's checksum
      test, and is otherwise the header that was written. */
  lemma ArchivedHeadersAreClean(h: Record)
    ensures var c := Cleaned(h);
            && c[C_FLAGS] == Without(h[C_FLAGS], DR_COMPRESSED) && !Has(c[C_FLAGS], DR_COMPRESSED)
            && Sum(c) == CHECKSUM
            && forall i :: 0 <= i < WORDS && i != C_FLAGS && i != C_CHECKSUM ==> c[i] == h[i]
  {
    ChecksumIsAccepted(h[C_FLAGS := Without(h[C_FLAGS], DR_COMPRESSED)]);
  }

  /** What an item should become: a data record word for word; a header with bit 0x80 of
      word 222 clear, word 7 such that all words add up to 84446, and nothing else changed.
      As far as it was written. */
  ghost predicate IsPieceOf(piece: Piece, item: Item) {
    && piece.bytes == item.written
    && if item.Data? then piece.rec == item.rec
       else
         && (forall w :: 0 <= w < 256 && w != 7 && w != 222 ==> piece.rec[w] == item.rec[w])
         && piece.rec[222] / 0x80 % 2 == 0
         && piece.rec[222] / 0x100 == item.rec[222] / 0x100 && piece.rec[222] % 0x80 == item.rec[222] % 0x80
         && Total(piece.rec) % 0x1_0000_0000 == 84446
  }

  lemma ArchivedIsPiece(item: Item)
    ensures IsPieceOf(Archived(item), item)
  {
    hide Has, Without;
    if item.Header? {
      ArchivedHeadersAreClean(item.rec);
      ClearedFlags(item.rec[222]);
    }
  }

  lemma FlagParts(high: nat, b: nat, low: nat)
    requires b < 2 && low < 0x80
    ensures (high * 0x100 + b * 0x80 + low) / 0x80 == high * 2 + b
    ensures (high * 2 + b) % 2 == b
    ensures (high * 0x100 + b * 0x80 + low) / 0x100 == high
    ensures (high * 0x100 + b * 0x80 + low) % 0x80 == low
  {
    assert high * 0x100 + b * 0x80 + low == (high * 2 + b) * 0x80 + low;
  }

  lemma ClearedFlags(f: word)
    ensures var g := Without(f, DR_COMPRESSED);
            g / 0x80 % 2 == 0 && g / 0x100 == f / 0x100 && g % 0x80 == f % 0x80
  {
    hide Has, Without;
    var high, rest := f / 0x100, f % 0x100;
    var b, low := rest / 0x80, rest % 0x80;
    assert f == high * 0x100 + b * 0x80 + low;
    CompressedBit(high, b, low);
    FlagParts(high, b, low);
    FlagParts(high, 0, low);
  }

  /** The contents of the archive: piece k is what the k-th kept item should become. */
  lemma {:induction false} ArchiveContents(spcl: Record, items: seq<Item>, n: nat)
    requires n <= |items|
    ensures var archive, p := Run(spcl, items[..n]).archive, KeptPositions(spcl, items, n);
            |archive| == |p| && forall k :: 0 <= k < |p| ==> IsPieceOf(archive[k], items[p[k]])
  {
    hide IsPieceOf, Archived;
    ArchiveIsTheKeptItems(spcl, items, n);
    forall i | 0 <= i < |items|
      ensures IsPieceOf(Archived(items[i]), items[i])
    {
      ArchivedIsPiece(items[i]);
    }
  }

  // ---------------------------------------------------------------------
  // Compression leaves no trace.
  // ---------------------------------------------------------------------

  /** Headers that differ in the compression mark and the checksum only. */
  ghost predicate SameUncompressed(g: Record, h: Record) {
    && Without(g[C_FLAGS], DR_COMPRESSED) == Without(h[C_FLAGS], DR_COMPRESSED)
    && forall i :: 0 <= i < WORDS && i != C_FLAGS && i != C_CHECKSUM ==> g[i] == h[i]
  }

  ghost predicate SameItem(a: Item, b: Item) {
    a == b || (a.Header? && b.Header? && a.written == b.written && SameUncompressed(a.rec, b.rec))
  }

  lemma ClearingKeepsExtAttributes(f: word)
    ensures Has(Without(f, DR_COMPRESSED), DR_EXTATTRIBUTES) == Has(f, DR_EXTATTRIBUTES)
  {
    hide Has, Without;
    var q, r := f / 0x1_0000, f % 0x1_0000;
    var m, l := r / 0x8000, r % 0x8000;
    var k, n := l / 0x100, l % 0x100;
    var b, low := n / 0x80, n % 0x80;
    var high := q * 0x100 + m * 0x80 + k;
    assert f == high * 0x100 + b * 0x80 + low;
    CompressedBit(high, b, low);
    ExtAttributesBit(q, m, k * 0x100 + b * 0x80 + low);
    ExtAttributesBit(q, m, k * 0x100 + low);
    assert f == q * 0x1_0000 + m * 0x8000 + (k * 0x100 + b * 0x80 + low);
    assert Without(f, DR_COMPRESSED) == q * 0x1_0000 + m * 0x8000 + (k * 0x100 + low);
  }

  lemma SameUncompressedHeaders(g: Record, h: Record)
    requires SameUncompressed(g, h)
    ensures Cleaned(g) == Cleaned(h)
    ensures HasExtAttributes(g) == HasExtAttributes(h)
    ensures IsDirectory(g) == IsDirectory(h) && g[C_TYPE] == h[C_TYPE]
  {
    var f, e := Without(g[C_FLAGS], DR_COMPRESSED), Without(h[C_FLAGS], DR_COMPRESSED);
    ClearingKeepsExtAttributes(g[C_FLAGS]);
    ClearingKeepsExtAttributes(h[C_FLAGS]);
    assert g[C_FLAGS := f][C_CHECKSUM := 0] == h[C_FLAGS := e][C_CHECKSUM := 0];
    assert Cleaned(g) == Cleaned(h);
  }

  lemma {:induction false} ArchiveIgnoresCompression(spcl: Record, a: seq<Item>, b: seq<Item>)
    requires |a| == |b| && forall i :: 0 <= i < |a| ==> SameItem(a[i], b[i])
    ensures var s, t := Run(spcl, a), Run(spcl, b);
            s.archive == t.archive && s.active == t.active && SameUncompressed(s.spcl, t.spcl)
  {
    if a != [] {
      var n := |a| - 1;
      ArchiveIgnoresCompression(spcl, a[..n], b[..n]);
      SameUncompressedHeaders(Run(spcl, a[..n]).spcl, Run(spcl, b[..n]).spcl);
      assert SameItem(a[n], b[n]);
      if a[n].Header? && b[n].Header? && SameUncompressed(a[n].rec, b[n].rec) {
        SameUncompressedHeaders(a[n].rec, b[n].rec);
      }
    }
  }
}
