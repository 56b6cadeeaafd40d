// The two layouts of a dumped attribute buffer (restore/xattr.c): how a list of
// attributes is laid out in each, and that walking either gives back the list.

module BufferLayout {
  import opened LittleEndian
  import opened EntryChain
  import opened FileAttributes
  import opened Delivering
  import opened AttributeWalk
  import opened RestoreCompare

  datatype Layout = Block | InInode

  /** An attribute as the file system stores it; the walk ignores the last two fields. */
  datatype Attribute = Attribute(index: byte, suffix: seq<byte>, raw: seq<byte>, block: u32, hash: u32)

  predicate Storable(a: Attribute) {
    KnownIndex(a.index) && |a.suffix| <= 255 && |a.raw| <= XATTR_MAXSIZE
  }

  predicate AllStorable(attributes: seq<Attribute>) {
    forall i :: 0 <= i < |attributes| ==> Storable(attributes[i])
  }

  function MagicOf(layout: Layout): u32 {
    if layout == Block then EXT2_XATTR_MAGIC else EXT2_XATTR_MAGIC2
  }

  /** A block begins with a header of eight words, extra inode space with a single word. */
  function HeaderSize(layout: Layout): nat {
    if layout == Block then 8 * 4 else 4
  }

  /** Value offsets count from the start of a block, but from the end of the inode header. */
  function Origin(layout: Layout): nat {
    if layout == Block then 0 else HeaderSize(InInode)
  }

  function Zeros(n: nat): (s: seq<byte>)
    ensures |s| == n
  {
    seq(n, _ => 0)
  }

  function EntryHeader(a: Attribute, off: u16): (s: seq<byte>)
    requires Storable(a)
    ensures |s| == ENTRY_HEADER
  {
    [|a.suffix|, a.index] + Put16(off) + Put32(a.block) + Put32(|a.raw|) + Put32(a.hash)
  }

  function EntryBytes(a: Attribute, off: u16): (s: seq<byte>)
    requires Storable(a)
    ensures |s| == EntryLen(|a.suffix|)
  {
    EntryHeader(a, off) + a.suffix + Zeros(EntryLen(|a.suffix|) - ENTRY_HEADER - |a.suffix|)
  }

  function AreaSize(attributes: seq<Attribute>): (n: nat)
    ensures n >= 4
  {
    if attributes == [] then 4 else EntryLen(|attributes[0].suffix|) + AreaSize(attributes[1..])
  }

  /** The entries one after another, and the word that ends them. */
  function EntryArea(attributes: seq<Attribute>, offs: seq<u16>): (s: seq<byte>)
    requires AllStorable(attributes) && |offs| == |attributes|
    ensures |s| == AreaSize(attributes) >= 4
  {
    if attributes == [] then Put32(0)
    else EntryBytes(attributes[0], offs[0]) + EntryArea(attributes[1..], offs[1..])
  }

  /** b lays out the attributes, with the value of attribute i at offset offs[i] from
      the base of the layout. Values may be anywhere, in any order. */
  ghost predicate LaysOut(b: seq<byte>, layout: Layout, attributes: seq<Attribute>, offs: seq<u16>) {
    && IsBuffer(b) && Magic(b) == MagicOf(layout)
    && AllStorable(attributes) && |offs| == |attributes|
    && HoldsAt(b, HeaderSize(layout), EntryArea(attributes, offs))
    && forall i :: 0 <= i < |attributes| ==>
         HoldsAt(b, Origin(layout) + offs[i], attributes[i].raw)
  }

  function Meanings(attributes: seq<Attribute>): (entries: seq<Option<Delivery>>)
    ensures |entries| == |attributes|
  {
    seq(|attributes|, i requires 0 <= i < |attributes| =>
      Meaning(attributes[i].index, attributes[i].suffix, attributes[i].raw))
  }

  // ---------------------------------------------------------------------
  // Reading an entry area back.
  // ---------------------------------------------------------------------

  /** The fields the walk reads. */
  ghost predicate EntryIs(b: seq<byte>, at: nat, a: Attribute, off: u16)
    requires IsBuffer(b)
  {
    && at + ENTRY_HEADER + |a.suffix| <= XATTR_MAXSIZE
    && b[at] == |a.suffix| && b[at + 1] == a.index
    && U16(b, at + 2) == off && U32(b, at + 8) == |a.raw|
    && b[at + ENTRY_HEADER..at + ENTRY_HEADER + |a.suffix|] == a.suffix
  }

  lemma ReadEntry(b: seq<byte>, at: nat, a: Attribute, off: u16)
    requires IsBuffer(b) && Aligned(at) && Storable(a) && HoldsAt(b, at, EntryBytes(a, off))
    ensures EntryIs(b, at, a, off) && !IsLast(b, at)
  {
    var e, h := EntryBytes(a, off), EntryHeader(a, off);
    HoldsPart(b, at, e, 0, ENTRY_HEADER);
    assert e[0..ENTRY_HEADER] == h;
    assert b[at] == h[0] && b[at + 1] == h[1] && U16(b, at) >= 256;
    HeaderWords(a, off);
    U16Within(b, at, h, 2);
    U32Within(b, at, h, 8);
    HoldsPart(b, at, e, ENTRY_HEADER, ENTRY_HEADER + |a.suffix|);
    assert e[ENTRY_HEADER..ENTRY_HEADER + |a.suffix|] == a.suffix;
  }

  lemma HeaderWords(a: Attribute, off: u16)
    requires Storable(a)
    ensures U16(EntryHeader(a, off), 2) == off && U32(EntryHeader(a, off), 8) == |a.raw|
  {
    var h := EntryHeader(a, off);
    assert h[2..4] == Put16(off) && h[8..12] == Put32(|a.raw|);
    U16Slice(h, 2, off);
    U32Slice(h, 8, |a.raw|);
  }

  lemma {:induction false} FirstOfArea(b: seq<byte>, at: nat, attributes: seq<Attribute>, offs: seq<u16>)
    requires IsBuffer(b) && Aligned(at) && AllStorable(attributes) && |offs| == |attributes|
    requires attributes != [] && HoldsAt(b, at, EntryArea(attributes, offs))
    ensures EntryIs(b, at, attributes[0], offs[0]) && !IsLast(b, at)
    ensures Aligned(Next(b, at)) && HoldsAt(b, Next(b, at), EntryArea(attributes[1..], offs[1..]))
  {
    hide EntryBytes, EntryIs, IsLast;
    HoldsConcat(b, at, EntryBytes(attributes[0], offs[0]), EntryArea(attributes[1..], offs[1..]));
    ReadEntry(b, at, attributes[0], offs[0]);
    AlignedNext(at, |attributes[0].suffix|);
  }

  /** The chain from `at` visits the laid-out entries in order and ends after them. */
  lemma {:induction false} ChainOfArea(b: seq<byte>, at: nat, attributes: seq<Attribute>, offs: seq<u16>)
    requires IsBuffer(b) && Aligned(at) && AllStorable(attributes) && |offs| == |attributes|
    requires HoldsAt(b, at, EntryArea(attributes, offs))
    ensures Chain(b, at).Some? && |Chain(b, at).value| == |attributes|
    ensures forall i :: 0 <= i < |attributes| ==>
              Aligned(Chain(b, at).value[i]) && EntryIs(b, Chain(b, at).value[i], attributes[i], offs[i])
    decreases |attributes|
  {
    hide U32, EntryIs, EntryBytes;
    if attributes == [] {
      U32Slice(b, at, 0);
    } else {
      FirstOfArea(b, at, attributes, offs);
      ChainOfArea(b, Next(b, at), attributes[1..], offs[1..]);
    }
  }

  lemma DecodeLaidOut(b: seq<byte>, layout: Layout, at: nat, a: Attribute, off: u16)
    requires IsBuffer(b) && Magic(b) == MagicOf(layout) && Aligned(at) && Storable(a) && EntryIs(b, at, a, off)
    requires HoldsAt(b, Origin(layout) + off, a.raw)
    ensures EntryInside(b, at) && ValueInside(b, at) && Decode(b, at) == Meaning(a.index, a.suffix, a.raw)
  {
    assert NameBytes(b, at) == a.suffix && RawValue(b, at) == a.raw;
  }

  /** Whatever the layout and wherever the values are, a buffer that lays out a list of
      attributes is verified, and the walk finds that list. */
  lemma {:induction false} WalkFindsTheList(b: seq<byte>, layout: Layout, attributes: seq<Attribute>, offs: seq<u16>)
    requires LaysOut(b, layout, attributes, offs)
    ensures Verified(b) && ValuesInside(b) && Contents(b) == Meanings(attributes)
  {
    hide Decode, Chain, Meaning, EntryIs, EntryArea;
    ChainOfArea(b, HeaderSize(layout), attributes, offs);
    var at := Offsets(b);
    forall i | 0 <= i < |at|
      ensures EntryInside(b, at[i]) && ValueInside(b, at[i]) && Decode(b, at[i]) == Meanings(attributes)[i]
    {
      DecodeLaidOut(b, layout, at[i], attributes[i], offs[i]);
    }
  }

  lemma {:induction false} LayoutIndependence(b: seq<byte>, l: Layout, o: seq<u16>, c: seq<byte>, m: Layout, p: seq<u16>,
                                              attributes: seq<Attribute>)
    requires LaysOut(b, l, attributes, o) && LaysOut(c, m, attributes, p)
    ensures Verified(b) && ValuesInside(b) && Verified(c) && ValuesInside(c)
    ensures Contents(b) == Contents(c)
  {
    WalkFindsTheList(b, l, attributes, o);
    WalkFindsTheList(c, m, attributes, p);
  }

  // ---------------------------------------------------------------------
  // A serialiser: entries, terminator, then the values in order.
  // ---------------------------------------------------------------------

  function ValuesSize(attributes: seq<Attribute>): nat {
    if attributes == [] then 0 else |attributes[0].raw| + ValuesSize(attributes[1..])
  }

  function ValueArea(attributes: seq<Attribute>): (s: seq<byte>)
    ensures |s| == ValuesSize(attributes)
  {
    if attributes == [] then [] else attributes[0].raw + ValueArea(attributes[1..])
  }

  predicate Fits(layout: Layout, attributes: seq<Attribute>) {
    HeaderSize(layout) + AreaSize(attributes) + ValuesSize(attributes) <= XATTR_MAXSIZE
  }

  /** The value offsets when the values begin at `start`. */
  function Placement(attributes: seq<Attribute>, start: nat): (offs: seq<u16>)
    requires start + ValuesSize(attributes) <= XATTR_MAXSIZE
    ensures |offs| == |attributes|
  {
    if attributes == [] then []
    else [start] + Placement(attributes[1..], start + |attributes[0].raw|)
  }

  function ValueStart(layout: Layout, attributes: seq<Attribute>): nat {
    HeaderSize(layout) + AreaSize(attributes)
  }

  function Serialise(layout: Layout, attributes: seq<Attribute>): (b: seq<byte>)
    requires AllStorable(attributes) && Fits(layout, attributes)
    ensures IsBuffer(b)
  {
    var magic := MagicOf(layout);
    var start := ValueStart(layout, attributes);
    var offs := Placement(attributes, start - Origin(layout));
    Put32(magic) + Zeros(HeaderSize(layout) - 4) + EntryArea(attributes, offs) + ValueArea(attributes)
      + Zeros(XATTR_MAXSIZE - start - ValuesSize(attributes))
  }

  lemma {:induction false} ValuesInPlace(b: seq<byte>, base: nat, attributes: seq<Attribute>, start: nat)
    requires start + ValuesSize(attributes) <= XATTR_MAXSIZE
    requires HoldsAt(b, base + start, ValueArea(attributes))
    ensures forall i :: 0 <= i < |attributes| ==> HoldsAt(b, base + Placement(attributes, start)[i], attributes[i].raw)
  {
    if attributes != [] {
      HoldsConcat(b, base + start, attributes[0].raw, ValueArea(attributes[1..]));
      ValuesInPlace(b, base, attributes[1..], start + |attributes[0].raw|);
    }
  }

  lemma SerialisedParts(layout: Layout, attributes: seq<Attribute>)
    requires AllStorable(attributes) && Fits(layout, attributes)
    ensures var b, magic := Serialise(layout, attributes), MagicOf(layout);
            var start := ValueStart(layout, attributes);
            && Magic(b) == magic
            && HoldsAt(b, HeaderSize(layout), EntryArea(attributes, Placement(attributes, start - Origin(layout))))
            && HoldsAt(b, start, ValueArea(attributes))
  {
    hide EntryArea, ValueArea, Placement;
    var magic := MagicOf(layout);
    var start := ValueStart(layout, attributes);
    var offs := Placement(attributes, start - Origin(layout));
    var m, pad := Put32(magic), Zeros(HeaderSize(layout) - 4);
    var area, values := EntryArea(attributes, offs), ValueArea(attributes);
    PartsInPlace(m, pad, area, values, Zeros(XATTR_MAXSIZE - start - |values|));
    U32Within(Serialise(layout, attributes), 0, m, 0);
  }

  lemma PartsInPlace(m: seq<byte>, pad: seq<byte>, area: seq<byte>, values: seq<byte>, tail: seq<byte>)
    ensures var b := m + pad + area + values + tail;
            && HoldsAt(b, 0, m) && HoldsAt(b, |m| + |pad|, area)
            && HoldsAt(b, |m| + |pad| + |area|, values)
  {
    var b := m + pad + area + values + tail;
    HoldsConcat(b, 0, m + pad + area + values, tail);
    HoldsConcat(b, 0, m + pad + area, values);
    HoldsConcat(b, 0, m + pad, area);
    HoldsConcat(b, 0, m, pad);
  }

  /** Packed values in place make a layout. */
  lemma {:induction false} PackedLaysOut(b: seq<byte>, layout: Layout, attributes: seq<Attribute>, start: nat)
    requires IsBuffer(b) && Magic(b) == MagicOf(layout) && AllStorable(attributes)
    requires start + ValuesSize(attributes) <= XATTR_MAXSIZE
    requires HoldsAt(b, HeaderSize(layout), EntryArea(attributes, Placement(attributes, start)))
    requires HoldsAt(b, Origin(layout) + start, ValueArea(attributes))
    ensures LaysOut(b, layout, attributes, Placement(attributes, start))
  {
    ValuesInPlace(b, Origin(layout), attributes, start);
  }

  /** Round trip: serialising in either layout and walking gives back the list. */
  lemma {:induction false} SerialiseRoundTrip(layout: Layout, attributes: seq<Attribute>)
    requires AllStorable(attributes) && Fits(layout, attributes)
    ensures var b := Serialise(layout, attributes);
            Verified(b) && ValuesInside(b) && Contents(b) == Meanings(attributes)
  {
    hide Serialise, EntryArea, ValueArea, Contents;
    var b, start := Serialise(layout, attributes), ValueStart(layout, attributes) - Origin(layout);
    SerialisedParts(layout, attributes);
    PackedLaysOut(b, layout, attributes, start);
    WalkFindsTheList(b, layout, attributes, Placement(attributes, start));
  }

  /** Each attribute dumped, in either layout, is delivered under its full name, and an
      access or default ACL in the uniform form. */
  lemma {:induction false} DumpedAttributeMeans(layout: Layout, attributes: seq<Attribute>, i: nat)
    requires AllStorable(attributes) && Fits(layout, attributes) && i < |attributes|
    ensures var b, a := Serialise(layout, attributes), attributes[i];
            && Verified(b) && |Contents(b)| == |attributes|
            && Means(a.index, a.suffix, a.raw, Contents(b)[i])
  {
    hide Serialise, Contents, Means, Meaning;
    SerialiseRoundTrip(layout, attributes);
    MeaningIsExact(attributes[i].index, attributes[i].suffix, attributes[i].raw);
  }

  // ---------------------------------------------------------------------
  // From the attributes of one file system to those of another.
  // ---------------------------------------------------------------------

  ghost predicate NamesHaveNoNul(attributes: seq<Attribute>) {
    forall i :: 0 <= i < |attributes| ==> 0 !in attributes[i].suffix
  }

  /** No two attributes have the same name index and the same name. */
  ghost predicate DistinctAttributes(attributes: seq<Attribute>) {
    forall i, j :: 0 <= i < j < |attributes| ==>
      attributes[i].index != attributes[j].index || attributes[i].suffix != attributes[j].suffix
  }

  lemma DistinctNames(attributes: seq<Attribute>)
    requires NamesHaveNoNul(attributes) && AllDecode(Meanings(attributes))
    ensures Distinct(Names(Values(Meanings(attributes)))) <==> DistinctAttributes(attributes)
  {
    var names := Names(Values(Meanings(attributes)));
    forall i, j | 0 <= i < j < |attributes|
      ensures names[i] == names[j] <==>
              attributes[i].index == attributes[j].index && attributes[i].suffix == attributes[j].suffix
    {
      var a, b := attributes[i], attributes[j];
      assert Meanings(attributes)[i].Some? && Meanings(attributes)[j].Some?;
      FullNamesAreDistinct(a.index, a.suffix, a.raw, b.index, b.suffix, b.raw);
    }
  }

  /** Dumped in either layout and restored to a file without attributes, every setting
      accepted, a list of attributes becomes the file's, and the comparison of the two is
      good if and only if the attributes were distinct. */
  lemma {:induction false} DumpRestoreVerify(layout: Layout, attributes: seq<Attribute>, accepts: Acceptance)
    requires AllStorable(attributes) && Fits(layout, attributes)
    requires NamesHaveNoNul(attributes) && AllDecode(Meanings(attributes))
    requires AllAccepted(Values(Meanings(attributes)), accepts, map[])
    ensures var b := Serialise(layout, attributes);
            && Verified(b) && ValuesInside(b)
            && var (after, restored) := Walked(Contents(b), Set, accepts, map[]);
            && restored && after == Override(map[], Values(Meanings(attributes)))
            && (CompareGood(after, b) <==> DistinctAttributes(attributes))
  {
    hide Serialise, Contents, Meanings, Override;
    SerialiseRoundTrip(layout, attributes);
    RestoredAttributes(Meanings(attributes), accepts, map[]);
    RestoreThenVerify(Meanings(attributes), accepts);
    DistinctNames(attributes);
  }

  const ONE := Attribute(INDEX_USER, [97], [1], 0, 0)
  const TWICE := [ONE, ONE]

  /** A list with one attribute twice meets every condition above, but the file just
      restored from it is reported as changed. */
  lemma {:induction false} DuplicatesFailTheComparison()
    ensures AllStorable(TWICE) && Fits(Block, TWICE) && NamesHaveNoNul(TWICE)
    ensures var b, accepts: Acceptance := Serialise(Block, TWICE), (_, _, _) => true;
            && Verified(b) && AllDecode(Contents(b))
            && var (after, restored) := Walked(Contents(b), Set, accepts, map[]);
            && restored && !CompareGood(after, b)
  {
    hide Serialise, Contents, Walked, Override;
    TwiceFits();
    SerialiseRoundTrip(Block, TWICE);
    DumpRestoreVerify(Block, TWICE, (_, _, _) => true);
    assert TWICE[0] == TWICE[1];
  }

  lemma TwiceFits()
    ensures AllStorable(TWICE) && Fits(Block, TWICE) && NamesHaveNoNul(TWICE) && AllDecode(Meanings(TWICE))
  {
    assert TWICE[1..] == [ONE] && [ONE][1..] == [];
    assert AreaSize([]) == 4 && ValuesSize([]) == 0;
    assert AreaSize([ONE]) == 24 && ValuesSize([ONE]) == 1;
  }

  /** A buffer that xattr_verify accepts, whose first value the walk would copy from
      outside it: the in-inode magic, one entry with the largest size, the terminator. */
  lemma VerifyDoesNotBoundValues(accepts: Acceptance, attrs: Attrs) returns (b: seq<byte>)
    ensures IsBuffer(b) && Verified(b) && |Offsets(b)| == 1
    ensures !ReachedInside(b, Set, accepts, attrs) && !ReachedInside(b, Compare, accepts, attrs)
  {
    var m, e := Put32(EXT2_XATTR_MAGIC2), [0, INDEX_USER] + Put16(0) + Put32(0) + Put32(0xFFFF_FFFF) + Put32(0);
    b := m + e + Zeros(XATTR_MAXSIZE - 20);
    HoldsConcat(b, 0, m, e + Zeros(XATTR_MAXSIZE - 20));
    U32Within(b, 0, m, 0);
    assert b[4] == 0 && b[5] == INDEX_USER && b[12..16] == Put32(0xFFFF_FFFF);
    U32Slice(b, 12, 0xFFFF_FFFF);
    assert !IsLast(b, 4) && Next(b, 4) == 20 && IsLast(b, 20);
    assert Chain(b, 20) == Some([]);
    assert Offsets(b)[0] == 4 && !ValueInside(b, 4);
    assert Contents(b)[..0] == [];
  }
}
