// The chain of extended-attribute entries in a dumped buffer (restore/xattr.c):
// its two layouts, the check that bounds it and the count that relies on the check.

module EntryChain {
  import opened LittleEndian

  datatype Status = GOOD | FAIL

  const XATTR_MAXSIZE := 4096
  const EXT2_XATTR_MAGIC: u32 := 0xEA02_0000
  const EXT2_XATTR_MAGIC2: u32 := 0xEA02_0001
  const BLOCK_HEADER := 32
  const INODE_HEADER := 4
  const ENTRY_HEADER := 16

  ghost predicate IsBuffer(b: seq<byte>) {
    |b| == XATTR_MAXSIZE
  }

  /** Offset of the first entry: after the layout's header. */
  function FirstEntry(magic: u32): (at: nat) {
    if magic == EXT2_XATTR_MAGIC2 then INODE_HEADER else BLOCK_HEADER
  }

  /** What value offsets count from: the start of the block, or the end of the
      in-inode header. */
  function ValueBase(magic: u32): nat {
    if magic == EXT2_XATTR_MAGIC2 then INODE_HEADER else 0
  }

  /** Size of an entry: header and name, rounded up to a multiple of 4. */
  function EntryLen(nameLen: nat): (n: nat)
    ensures n % 4 == 0 && ENTRY_HEADER + nameLen <= n < ENTRY_HEADER + nameLen + 4
  {
    (nameLen + 3 + ENTRY_HEADER) / 4 * 4
  }

  /** An offset from which a 4-byte word can be read: it is inside, and aligned. */
  predicate Aligned(at: nat) {
    at % 4 == 0 && at < XATTR_MAXSIZE
  }

  lemma AlignedNext(at: nat, nameLen: nat)
    requires Aligned(at) && at + EntryLen(nameLen) < XATTR_MAXSIZE
    ensures Aligned(at + EntryLen(nameLen))
  {
  }

  predicate IsLast(b: seq<byte>, at: nat)
    requires IsBuffer(b) && Aligned(at)
  {
    U32(b, at) == 0
  }

  function Next(b: seq<byte>, at: nat): nat
    requires IsBuffer(b) && Aligned(at)
  {
    at + EntryLen(b[at])
  }

  /** The offsets of the entries from `at` to the terminator, or None when some
      entry reaches the end of the buffer. */
  function Chain(b: seq<byte>, at: nat): Option<seq<nat>>
    requires IsBuffer(b) && Aligned(at)
    decreases XATTR_MAXSIZE - at
  {
    if IsLast(b, at) then Some([])
    else if Next(b, at) >= XATTR_MAXSIZE then None
    else
      match Chain(b, Next(b, at))
      case None => None
      case Some(rest) => Some([at] + rest)
  }

  function Magic(b: seq<byte>): u32
    requires IsBuffer(b)
  {
    U32(b, 0)
  }

  predicate Verified(b: seq<byte>)
    requires IsBuffer(b)
  {
    && (Magic(b) == EXT2_XATTR_MAGIC || Magic(b) == EXT2_XATTR_MAGIC2)
    && Chain(b, FirstEntry(Magic(b))).Some?
  }

  function Offsets(b: seq<byte>): seq<nat>
    requires IsBuffer(b) && Verified(b)
  {
    Chain(b, FirstEntry(Magic(b))).value
  }

  method XattrVerify(buffer: array<byte>) returns (r: Status)
    requires buffer.Length == XATTR_MAXSIZE
    ensures r == GOOD <==> Verified(buffer[..])
  {
    hide EntryLen, U32, Load32;
    var magic := Load32(buffer, 0);
    if magic != EXT2_XATTR_MAGIC && magic != EXT2_XATTR_MAGIC2 {
      return FAIL;
    }
    var entry := FirstEntry(magic);
    while Load32(buffer, entry) != 0
      invariant Aligned(entry)
      invariant Verified(buffer[..]) <==> Chain(buffer[..], entry).Some?
      decreases XATTR_MAXSIZE - entry
    {
      var next := entry + EntryLen(buffer[entry]);
      if next >= XATTR_MAXSIZE {
        return FAIL;
      }
      entry := next;
    }
    return GOOD;
  }

  /** Counts without any bounds check, relying on an earlier XattrVerify. */
  method XattrCount(buffer: array<byte>) returns (count: nat)
    requires buffer.Length == XATTR_MAXSIZE && Verified(buffer[..])
    ensures count == |Offsets(buffer[..])|
  {
    ghost var b := buffer[..];
    count := 0;
    var entry := FirstEntry(Load32(buffer, 0));
    PositionStep(b, 0);
    while Load32(buffer, entry) != 0
      invariant count <= |Offsets(b)| && entry == Position(b, count) && Aligned(entry)
      invariant U32(b, entry) == 0 <==> count == |Offsets(b)|
      decreases |Offsets(b)| - count
    {
      PositionStep(b, count);
      count := count + 1;
      entry := entry + EntryLen(buffer[entry]);
      PositionStep(b, count);
    }
  }

  // ---------------------------------------------------------------------
  // What the check establishes.
  // ---------------------------------------------------------------------

  /** The format, stated without following the code: the entry offsets and, last, the
      terminator's; each but the last is a non-zero word whose successor comes next. */
  ghost predicate Linked(b: seq<byte>, first: nat, links: seq<nat>)
    requires IsBuffer(b)
  {
    && links != [] && links[0] == first
    && (forall k :: 0 <= k < |links| ==> Aligned(links[k]))
    && (forall k :: 0 <= k < |links| - 1 ==> !IsLast(b, links[k]) && links[k + 1] == Next(b, links[k]))
    && IsLast(b, links[|links| - 1])
  }

  predicate IsPlace(at: nat) {
    at % 4 == 0 && at + 4 <= 4096
  }

  /** An entry that is not the terminator, and where the next one is: 16 bytes and the name
      further on, at a multiple of 4. */
  ghost predicate Follows(b: seq<byte>, at: nat, next: nat)
    requires IsBuffer(b) && IsPlace(at)
  {
    b[at..at + 4] != [0, 0, 0, 0] && next % 4 == 0 && 0 <= next - (at + 16 + b[at]) < 4
  }

  /** The same in bytes. */
  ghost predicate LinkedInBytes(b: seq<byte>, links: seq<nat>)
    requires IsBuffer(b)
  {
    && (b[..4] == [0, 0, 2, 0xEA] || b[..4] == [1, 0, 2, 0xEA])
    && links != [] && links[0] == (if b[0] == 0 then 32 else 4)
    && (forall k :: 0 <= k < |links| ==> IsPlace(links[k]))
    && (forall k :: 0 <= k < |links| - 1 ==> Follows(b, links[k], links[k + 1]))
    && var end := links[|links| - 1]; b[end..end + 4] == [0, 0, 0, 0]
  }

  /** Where the word that ends the chain is. */
  function Terminator(b: seq<byte>, at: nat): nat
    requires IsBuffer(b) && Aligned(at) && Chain(b, at).Some?
    decreases XATTR_MAXSIZE - at
  {
    if IsLast(b, at) then at else Terminator(b, Next(b, at))
  }

  lemma {:induction false} ChainIsLinked(b: seq<byte>, at: nat)
    requires IsBuffer(b) && Aligned(at) && Chain(b, at).Some?
    ensures Linked(b, at, Chain(b, at).value + [Terminator(b, at)])
    decreases XATTR_MAXSIZE - at
  {
    if !IsLast(b, at) {
      ChainIsLinked(b, Next(b, at));
      assert Chain(b, at).value + [Terminator(b, at)]
          == [at] + (Chain(b, Next(b, at)).value + [Terminator(b, Next(b, at))]);
    }
  }

  lemma {:induction false} LinkedIsChain(b: seq<byte>, at: nat, links: seq<nat>)
    requires IsBuffer(b) && Linked(b, at, links)
    ensures Chain(b, at) == Some(links[..|links| - 1])
    decreases |links|
  {
    if !IsLast(b, at) {
      LinkedIsChain(b, Next(b, at), links[1..]);
      assert links[..|links| - 1] == [at] + links[1..][..|links| - 2];
    }
  }

  /** Position k of a verified chain: where the walk stands after k entries. */
  function Position(b: seq<byte>, k: nat): nat
    requires IsBuffer(b) && Verified(b) && k <= |Offsets(b)|
  {
    if k < |Offsets(b)| then Offsets(b)[k] else Terminator(b, FirstEntry(Magic(b)))
  }

  lemma PositionStep(b: seq<byte>, k: nat)
    requires IsBuffer(b) && Verified(b) && k <= |Offsets(b)|
    ensures Position(b, 0) == FirstEntry(Magic(b))
    ensures Aligned(Position(b, k))
    ensures U32(b, Position(b, k)) == 0 <==> k == |Offsets(b)|
    ensures k < |Offsets(b)| ==> Position(b, k + 1) == Position(b, k) + EntryLen(b[Position(b, k)])
  {
    ChainIsLinked(b, FirstEntry(Magic(b)));
    var links := Offsets(b) + [Terminator(b, FirstEntry(Magic(b)))];
    assert links[k] == Position(b, k) && links[0] == Position(b, 0);
    if k < |Offsets(b)| {
      assert links[k + 1] == Position(b, k + 1);
    }
  }

  /** xattr_verify accepts exactly the buffers of a known layout that hold a terminated
      chain, and the offsets it went through are that chain. */
  lemma VerifyIsExact(b: seq<byte>, offs: seq<nat>)
    requires IsBuffer(b)
    ensures Verified(b) && Offsets(b) == offs <==>
            && (Magic(b) == EXT2_XATTR_MAGIC || Magic(b) == EXT2_XATTR_MAGIC2)
            && exists end :: Linked(b, FirstEntry(Magic(b)), offs + [end])
  {
    var first := FirstEntry(Magic(b));
    if Verified(b) {
      ChainIsLinked(b, first);
    }
    if end :| Linked(b, first, offs + [end]) {
      LinkedIsChain(b, first, offs + [end]);
    }
  }

  lemma ZeroWord(b: seq<byte>, at: nat)
    requires IsBuffer(b) && Aligned(at)
    ensures IsLast(b, at) <==> b[at..at + 4] == [0, 0, 0, 0]
  {
    var w := b[at..at + 4];
    assert w == [b[at], b[at + 1], b[at + 2], b[at + 3]];
  }

  lemma MagicInBytes(b: seq<byte>)
    requires IsBuffer(b)
    ensures Magic(b) == EXT2_XATTR_MAGIC <==> b[..4] == [0, 0, 2, 0xEA]
    ensures Magic(b) == EXT2_XATTR_MAGIC2 <==> b[..4] == [1, 0, 2, 0xEA]
  {
    WordsInBytes(b, 0);
    assert b[..4] == [b[0], b[1], b[2], b[3]];
  }

  lemma FollowsIsNext(b: seq<byte>, at: nat, next: nat)
    requires IsBuffer(b) && IsPlace(at)
    ensures Aligned(at)
    ensures Follows(b, at, next) <==> !IsLast(b, at) && next == Next(b, at)
  {
    ZeroWord(b, at);
  }

  lemma {:induction false} LinkedBytes(b: seq<byte>, links: seq<nat>)
    requires IsBuffer(b)
    ensures LinkedInBytes(b, links) <==>
            (Magic(b) == EXT2_XATTR_MAGIC || Magic(b) == EXT2_XATTR_MAGIC2) && Linked(b, FirstEntry(Magic(b)), links)
  {
    hide U32, Magic, Follows, Next, IsLast;
    MagicInBytes(b);
    assert b[..4][0] == b[0];
    forall k | 0 <= k < |links|
      ensures IsPlace(links[k]) <==> Aligned(links[k])
      ensures IsPlace(links[k]) ==> (IsLast(b, links[k]) <==> b[links[k]..links[k] + 4] == [0, 0, 0, 0])
    {
      PlaceIsAligned(links[k]);
      if IsPlace(links[k]) {
        ZeroWord(b, links[k]);
      }
    }
    forall k | 0 <= k < |links| - 1 && IsPlace(links[k])
      ensures Follows(b, links[k], links[k + 1]) <==> !IsLast(b, links[k]) && links[k + 1] == Next(b, links[k])
    {
      FollowsIsNext(b, links[k], links[k + 1]);
    }
    if LinkedInBytes(b, links) {
      forall k | 0 <= k < |links| - 1
        ensures !IsLast(b, links[k]) && links[k + 1] == Next(b, links[k])
      {
        assert Follows(b, links[k], links[k + 1]);
      }
    }
    if (Magic(b) == EXT2_XATTR_MAGIC || Magic(b) == EXT2_XATTR_MAGIC2) && Linked(b, FirstEntry(Magic(b)), links) {
      assert links[0] == if b[0] == 0 then 32 else 4;
    }
  }

  lemma PlaceIsAligned(at: nat)
    ensures IsPlace(at) <==> Aligned(at)
    ensures IsPlace(at) ==> at + 4 <= XATTR_MAXSIZE
  {
  }

  /** The check in terms of the bytes alone. */
  lemma {:induction false} VerifyInBytes(b: seq<byte>, offs: seq<nat>)
    requires IsBuffer(b)
    ensures Verified(b) && Offsets(b) == offs <==> exists end :: LinkedInBytes(b, offs + [end])
  {
    hide Verified, Offsets, Linked, LinkedInBytes, Magic, FirstEntry;
    VerifyIsExact(b, offs);
    forall end
      ensures LinkedInBytes(b, offs + [end]) <==>
              (Magic(b) == EXT2_XATTR_MAGIC || Magic(b) == EXT2_XATTR_MAGIC2) && Linked(b, FirstEntry(Magic(b)), offs + [end])
    {
      LinkedBytes(b, offs + [end]);
    }
  }

  /** A verified buffer holds each entry's header and name, and the terminator,
      whole and in disjoint places, so at most 255 entries. */
  lemma VerifyIsSufficient(b: seq<byte>)
    requires IsBuffer(b) && Verified(b)
    ensures var offs := Offsets(b);
            && (forall k :: 0 <= k < |offs| ==>
                  && FirstEntry(Magic(b)) <= offs[k] && Aligned(offs[k])
                  && offs[k] + ENTRY_HEADER + b[offs[k]] + 4 <= XATTR_MAXSIZE)
            && (forall j, k :: 0 <= j < k < |offs| ==> offs[j] + ENTRY_HEADER + b[offs[j]] <= offs[k])
            && ENTRY_HEADER * |offs| <= XATTR_MAXSIZE - FirstEntry(Magic(b)) - 4
            && var end := Position(b, |offs|);
            && Aligned(end) && U32(b, end) == 0
            && (forall k :: 0 <= k < |offs| ==> offs[k] + ENTRY_HEADER + b[offs[k]] <= end)
  {
    PositionStep(b, |Offsets(b)|);
    ChainShape(b, FirstEntry(Magic(b)));
  }

  lemma {:induction false} ChainShape(b: seq<byte>, at: nat)
    requires IsBuffer(b) && Aligned(at) && Chain(b, at).Some?
    ensures var offs := Chain(b, at).value;
            && (forall k :: 0 <= k < |offs| ==>
                  && at <= offs[k] && Aligned(offs[k])
                  && offs[k] + ENTRY_HEADER + b[offs[k]] <= Terminator(b, at))
            && (forall j, k :: 0 <= j < k < |offs| ==> offs[j] + ENTRY_HEADER + b[offs[j]] <= offs[k])
            && at + ENTRY_HEADER * |offs| <= Terminator(b, at)
            && Terminator(b, at) + 4 <= XATTR_MAXSIZE
    decreases XATTR_MAXSIZE - at
  {
    if !IsLast(b, at) {
      ChainShape(b, Next(b, at));
    }
  }
}
