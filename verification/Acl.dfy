// The POSIX ACL conversion of restore/xattr.c: the ext3 on-disk form, which
// mixes 4-byte and 8-byte entries, is decoded and rewritten in the uniform
// 8-byte form that the system calls take.

module Acl {
  import opened LittleEndian

  const ACL_UNDEFINED_ID: u32 := 0xFFFF_FFFF
  const ACL_USER_OBJ := 0x01
  const ACL_USER := 0x02
  const ACL_GROUP_OBJ := 0x04
  const ACL_GROUP := 0x08
  const ACL_MASK := 0x10
  const ACL_OTHER := 0x20

  const EXT3_ACL_VERSION: u32 := 1
  const POSIX_ACL_XATTR_VERSION: u32 := 2

  datatype AclEntry = AclEntry(tag: u16, perm: u16, id: u32)

  predicate ShortTag(tag: u16) {
    tag == ACL_USER_OBJ || tag == ACL_GROUP_OBJ || tag == ACL_MASK || tag == ACL_OTHER
  }

  predicate LongTag(tag: u16) {
    tag == ACL_USER || tag == ACL_GROUP
  }

  // ---------------------------------------------------------------------
  // The format, stated without reference to the code that reads it.
  // ---------------------------------------------------------------------

  /** Short entries carry no id on disk and have the undefined one in memory. */
  predicate ValidEntry(e: AclEntry) {
    LongTag(e.tag) || (ShortTag(e.tag) && e.id == ACL_UNDEFINED_ID)
  }

  predicate ValidEntries(es: seq<AclEntry>) {
    forall i :: 0 <= i < |es| ==> ValidEntry(es[i])
  }

  function Shorts(es: seq<AclEntry>): (n: nat)
    ensures n <= |es|
  {
    if es == [] then 0 else (if ShortTag(es[0].tag) then 1 else 0) + Shorts(es[1..])
  }

  /** One to three entries, all short; or four short ones and any number of long ones. */
  predicate AcceptedShape(es: seq<AclEntry>) {
    (1 <= |es| <= 3 && Shorts(es) == |es|) || Shorts(es) == 4
  }

  function DiskEntry(e: AclEntry): seq<byte> {
    Put16(e.tag) + Put16(e.perm) + if ShortTag(e.tag) then [] else Put32(e.id)
  }

  function DiskEntries(es: seq<AclEntry>): seq<byte> {
    if es == [] then [] else DiskEntry(es[0]) + DiskEntries(es[1..])
  }

  function DiskForm(es: seq<AclEntry>): seq<byte> {
    Put32(EXT3_ACL_VERSION) + DiskEntries(es)
  }

  function XattrEntry(e: AclEntry): (s: seq<byte>)
    ensures |s| == 8
  {
    Put16(e.tag) + Put16(e.perm) + Put32(e.id)
  }

  function XattrEntries(es: seq<AclEntry>): (s: seq<byte>)
    ensures |s| == 8 * |es|
  {
    if es == [] then [] else XattrEntries(es[..|es| - 1]) + XattrEntry(es[|es| - 1])
  }

  function XattrForm(es: seq<AclEntry>): (s: seq<byte>)
    ensures |s| == 4 + 8 * |es|
  {
    Put32(POSIX_ACL_XATTR_VERSION) + XattrEntries(es)
  }

  /** What a reader of the uniform form sees: entry i is at offset 4 + 8 * i. */
  function ReadXattrForm(x: seq<byte>): Option<seq<AclEntry>> {
    if |x| < 4 || (|x| - 4) % 8 != 0 || U32(x, 0) != POSIX_ACL_XATTR_VERSION then None
    else Some(seq((|x| - 4) / 8, i requires 0 <= i < (|x| - 4) / 8 =>
                AclEntry(U16(x, 4 + 8 * i), U16(x, 6 + 8 * i), U32(x, 8 + 8 * i))))
  }

  // ---------------------------------------------------------------------
  // The code.
  // ---------------------------------------------------------------------

  /** The number of entries, guessed from the size alone; -1 when it fits no ACL. */
  function AclCount(size: nat): int
    requires 4 <= size
  {
    var s := size - 4 - 4 * 4;
    if s < 0 then
      if (size - 4) % 4 != 0 then -1 else (size - 4) / 4
    else
      if s % 8 != 0 then -1 else s / 8 + 4
  }

  /** Exactly n entries from offset `at`, ending at the end of the value. */
  function ReadEntries(v: seq<byte>, at: nat, n: nat): Option<seq<AclEntry>>
    decreases n
  {
    if n == 0 then
      if at == |v| then Some([]) else None
    else if at + 4 > |v| then None
    else
      var tag, perm := U16(v, at), U16(v, at + 2);
      if ShortTag(tag) then
        Prepend([AclEntry(tag, perm, ACL_UNDEFINED_ID)], ReadEntries(v, at + 4, n - 1))
      else if LongTag(tag) && at + 8 <= |v| then
        Prepend([AclEntry(tag, perm, U32(v, at + 4))], ReadEntries(v, at + 8, n - 1))
      else None
  }

  function Prepend(es: seq<AclEntry>, rest: Option<seq<AclEntry>>): Option<seq<AclEntry>> {
    match rest
    case None => None
    case Some(r) => Some(es + r)
  }

  /** The result of ext3_acl_from_disk on the value v. */
  function FromDisk(v: seq<byte>): Option<seq<AclEntry>> {
    if |v| < 4 || U32(v, 0) != EXT3_ACL_VERSION || AclCount(|v|) <= 0 then None
    else ReadEntries(v, 4, AclCount(|v|))
  }

  method Ext3AclFromDisk(value: array?<byte>, size: nat) returns (acl: Option<seq<AclEntry>>)
    requires value != null ==> size <= value.Length
    ensures acl == if value == null then None else FromDisk(value[..size])
  {
    if value == null || size < 4 {
      return None;
    }
    ghost var v := value[..size];
    U32Within(value[..], 0, v, 0);
    if Load32(value, 0) != EXT3_ACL_VERSION {
      return None;
    }
    var at := 4;
    var count := AclCount(size);
    if count <= 0 {
      return None;
    }
    var entries: seq<AclEntry> := [];
    assert FromDisk(v) == Prepend(entries, ReadEntries(v, at, count)) by {
      assert FromDisk(v).Some? ==> entries + FromDisk(v).value == FromDisk(v).value;
    }
    for n := 0 to count
      invariant 4 <= at <= size
      invariant FromDisk(v) == Prepend(entries, ReadEntries(v, at, count - n))
    {
      if at + 4 > size {
        return None;
      }
      U16Within(value[..], 0, v, at);
      U16Within(value[..], 0, v, at + 2);
      var tag, perm := Load16(value, at), Load16(value, at + 2);
      var id := ACL_UNDEFINED_ID;
      if ShortTag(tag) {
        at := at + 4;
      } else if LongTag(tag) {
        at := at + 8;
        if at > size {
          return None;
        }
        U32Within(value[..], 0, v, at - 4);
        id := Load32(value, at - 4);
      } else {
        return None;
      }
      PrependTwice(entries, AclEntry(tag, perm, id), ReadEntries(v, at, count - n - 1));
      entries := entries + [AclEntry(tag, perm, id)];
    }
    if at != size {
      return None;
    }
    assert entries + [] == entries;
    acl := Some(entries);
  }

  lemma PrependTwice(es: seq<AclEntry>, e: AclEntry, rest: Option<seq<AclEntry>>)
    ensures Prepend(es, Prepend([e], rest)) == Prepend(es + [e], rest)
  {
    if rest.Some? {
      assert es + ([e] + rest.value) == es + [e] + rest.value;
    }
  }

  lemma XattrFormNext(es: seq<AclEntry>, n: nat)
    requires n < |es|
    ensures XattrForm(es[..n + 1]) == XattrForm(es[..n]) + XattrEntry(es[n])
  {
    assert es[..n + 1][..n] == es[..n];
  }

  method PosixAclToXattr(acl: seq<AclEntry>, buffer: array?<byte>, size: nat) returns (realSize: int)
    requires buffer != null ==> size <= buffer.Length
    modifies buffer
    ensures realSize == if buffer == null || 4 + 8 * |acl| <= size then 4 + 8 * |acl| else -1
    ensures buffer != null && realSize >= 0 ==>
              buffer[..] == Overwrite(old(buffer[..]), 0, XattrForm(acl))
    ensures buffer != null && realSize < 0 ==> buffer[..] == old(buffer[..])
  {
    realSize := 4 + 8 * |acl|;
    if buffer == null {
      return;
    }
    if realSize > size {
      return -1;
    }
    StoreXattrForm(acl, buffer);
  }

  method StoreXattrForm(acl: seq<AclEntry>, buffer: array<byte>)
    requires 4 + 8 * |acl| <= buffer.Length
    modifies buffer
    ensures buffer[..] == Overwrite(old(buffer[..]), 0, XattrForm(acl))
  {
    ghost var was := buffer[..];
    Store(buffer, 0, Put32(POSIX_ACL_XATTR_VERSION));
    assert XattrForm(acl[..0]) == Put32(POSIX_ACL_XATTR_VERSION);
    for n := 0 to |acl|
      invariant buffer[..] == Overwrite(was, 0, XattrForm(acl[..n]))
    {
      XattrFormNext(acl, n);
      OverwriteNext(was, XattrForm(acl[..n]), XattrEntry(acl[n]));
      Store(buffer, 4 + 8 * n, XattrEntry(acl[n]));
    }
    assert acl[..|acl|] == acl;
  }

  // ---------------------------------------------------------------------
  // What is accepted, and what it means.
  // ---------------------------------------------------------------------

  lemma {:induction false} DiskEntriesSize(es: seq<AclEntry>)
    requires ValidEntries(es)
    ensures |DiskEntries(es)| == 4 * Shorts(es) + 8 * (|es| - Shorts(es))
  {
    if es != [] {
      DiskEntriesSize(es[1..]);
    }
  }

  /** The size arithmetic finds the right count for the accepted shapes and no others. */
  lemma CountIsExactForAcceptedShapes(es: seq<AclEntry>)
    requires ValidEntries(es)
    ensures |DiskForm(es)| >= 4
    ensures AclCount(|DiskForm(es)|) == |es| && es != [] <==> AcceptedShape(es)
  {
    DiskEntriesSize(es);
  }

  lemma ShortEntryAt(v: seq<byte>, at: nat)
    requires at + 4 <= |v| && ShortTag(U16(v, at))
    ensures v[at..at + 4] == DiskEntry(AclEntry(U16(v, at), U16(v, at + 2), ACL_UNDEFINED_ID))
  {
    Put16Of(v, at);
    Put16Of(v, at + 2);
    assert v[at..at + 4] == v[at..at + 2] + v[at + 2..at + 4];
  }

  lemma LongEntryAt(v: seq<byte>, at: nat)
    requires at + 8 <= |v| && LongTag(U16(v, at))
    ensures v[at..at + 8] == DiskEntry(AclEntry(U16(v, at), U16(v, at + 2), U32(v, at + 4)))
  {
    Put16Of(v, at);
    Put16Of(v, at + 2);
    Put32Of(v, at + 4);
    assert v[at..at + 8] == v[at..at + 2] + v[at + 2..at + 4] + v[at + 4..at + 8];
  }

  lemma {:induction false} ReadEntriesSound(v: seq<byte>, at: nat, n: nat)
    requires at <= |v| && ReadEntries(v, at, n).Some?
    ensures var es := ReadEntries(v, at, n).value;
            |es| == n && ValidEntries(es) && v[at..] == DiskEntries(es)
    decreases n
  {
    if n > 0 {
      var step := if ShortTag(U16(v, at)) then 4 else 8;
      ReadEntriesSound(v, at + step, n - 1);
      if step == 4 {
        ShortEntryAt(v, at);
      } else {
        LongEntryAt(v, at);
      }
      var es := ReadEntries(v, at, n).value;
      assert es[1..] == ReadEntries(v, at + step, n - 1).value;
      assert v[at..] == v[at..at + step] + v[at + step..];
    }
  }

  lemma FirstDiskEntry(v: seq<byte>, at: nat, e: AclEntry, rest: seq<byte>)
    requires at <= |v| && v[at..] == DiskEntry(e) + rest
    ensures at + 4 <= |v| && U16(v, at) == e.tag && U16(v, at + 2) == e.perm
    ensures ShortTag(e.tag) ==> v[at + 4..] == rest
    ensures !ShortTag(e.tag) ==> at + 8 <= |v| && U32(v, at + 4) == e.id && v[at + 8..] == rest
  {
    var d := DiskEntry(e);
    assert v[at..at + |d|] == d;
    assert v[at + |d|..] == v[at..][|d|..] == rest;
    U16Within(v, at, d, 0);
    U16Within(v, at, d, 2);
    if !ShortTag(e.tag) {
      U32Within(v, at, d, 4);
    }
  }

  lemma {:induction false} ReadEntriesComplete(v: seq<byte>, at: nat, es: seq<AclEntry>)
    requires at <= |v| && ValidEntries(es) && v[at..] == DiskEntries(es)
    ensures ReadEntries(v, at, |es|) == Some(es)
    decreases |es|
  {
    if es != [] {
      FirstDiskEntry(v, at, es[0], DiskEntries(es[1..]));
      ReadEntriesComplete(v, at + if ShortTag(es[0].tag) then 4 else 8, es[1..]);
      assert [es[0]] + es[1..] == es;
    }
  }

  /** A value is accepted, as es, exactly when it is the disk form of a valid list es
      of an accepted shape. */
  lemma {:induction false} Acceptance(v: seq<byte>, es: seq<AclEntry>)
    ensures FromDisk(v) == Some(es) <==> ValidEntries(es) && AcceptedShape(es) && v == DiskForm(es)
  {
    if FromDisk(v) == Some(es) {
      ReadEntriesSound(v, 4, AclCount(|v|));
      Put32Of(v, 0);
      assert v == v[0..4] + v[4..];
      CountIsExactForAcceptedShapes(es);
    }
    if ValidEntries(es) && AcceptedShape(es) && v == DiskForm(es) {
      assert v[0..4] == Put32(EXT3_ACL_VERSION) && v[4..] == DiskEntries(es);
      U32Slice(v, 0, EXT3_ACL_VERSION);
      CountIsExactForAcceptedShapes(es);
      ReadEntriesComplete(v, 4, es);
    }
  }

  lemma {:induction false} XattrEntriesAt(es: seq<AclEntry>, i: nat)
    requires i < |es|
    ensures XattrEntries(es)[8 * i..8 * i + 8] == XattrEntry(es[i])
  {
    var n := |es| - 1;
    var x := XattrEntries(es);
    if i == n {
      assert x[8 * n..8 * n + 8] == XattrEntry(es[n]);
    } else {
      XattrEntriesAt(es[..n], i);
      assert x[8 * i..8 * i + 8] == XattrEntries(es[..n])[8 * i..8 * i + 8];
    }
  }

  lemma XattrFormAt(es: seq<AclEntry>, i: nat)
    requires i < |es|
    ensures var x := XattrForm(es);
            es[i] == AclEntry(U16(x, 4 + 8 * i), U16(x, 6 + 8 * i), U32(x, 8 + 8 * i))
  {
    var x, e, base := XattrForm(es), XattrEntry(es[i]), 4 + 8 * i;
    XattrEntriesAt(es, i);
    assert x[base..base + 8] == e;
    U16Within(x, base, e, 0);
    U16Within(x, base, e, 2);
    U32Within(x, base, e, 4);
  }

  lemma XattrFormRoundTrip(es: seq<AclEntry>)
    ensures ReadXattrForm(XattrForm(es)) == Some(es)
  {
    var x := XattrForm(es);
    U32Within(x, 0, Put32(POSIX_ACL_XATTR_VERSION), 0);
    assert (|x| - 4) / 8 == |es|;
    forall i | 0 <= i < |es|
      ensures es[i] == AclEntry(U16(x, 4 + 8 * i), U16(x, 6 + 8 * i), U32(x, 8 + 8 * i))
    {
      XattrFormAt(es, i);
    }
    assert ReadXattrForm(x).value == es;
  }

  /** The whole conversion of an ACL value, as the walk applies it. */
  function Convert(v: seq<byte>): Option<seq<byte>> {
    match FromDisk(v)
    case None => None
    case Some(es) => Some(XattrForm(es))
  }

  /** The converted value reads back as the very list that was on disk, and is longer
      than the input by four bytes for each short entry. */
  lemma ConversionPreservesMeaning(v: seq<byte>)
    requires Convert(v).Some?
    ensures var es := FromDisk(v).value; var x := Convert(v).value;
            && ReadXattrForm(x) == Some(es)
            && v == DiskForm(es)
            && |x| - |v| == 4 * Shorts(es)
            && 4 <= |x| - |v| <= 16
  {
    var es := FromDisk(v).value;
    Acceptance(v, es);
    XattrFormRoundTrip(es);
    DiskEntriesSize(es);
  }

  lemma ConversionIsInjective(v: seq<byte>, w: seq<byte>)
    requires Convert(v).Some? && Convert(v) == Convert(w)
    ensures v == w
  {
    ConversionPreservesMeaning(v);
    ConversionPreservesMeaning(w);
  }

  // ---------------------------------------------------------------------
  // The conversion in bytes.
  // ---------------------------------------------------------------------

  /** The entry at `at`, and entry i of the uniform form: owner, owning group, mask and
      others have no id on disk and get the undefined one; named users and groups are
      copied. */
  ghost predicate EntryConverts(v: seq<byte>, at: nat, next: nat, x: seq<byte>, i: nat)
    requires 12 + 8 * i <= |x|
  {
    && at + 4 <= |v| && v[at + 1] == 0
    && if v[at] == 1 || v[at] == 4 || v[at] == 16 || v[at] == 32 then
         next == at + 4 && x[4 + 8 * i..12 + 8 * i] == v[at..at + 4] + [255, 255, 255, 255]
       else
         && (v[at] == 2 || v[at] == 8)
         && next == at + 8 <= |v| && x[4 + 8 * i..12 + 8 * i] == v[at..at + 8]
  }

  /** v converts to x, with the entries of v at offs, the end of v last. */
  ghost predicate Converts(v: seq<byte>, x: seq<byte>, offs: seq<nat>) {
    && |offs| >= 2 && |x| == 4 + 8 * (|offs| - 1) && |v| >= 4
    && v[..4] == [1, 0, 0, 0] && x[..4] == [2, 0, 0, 0]
    && offs[0] == 4 && offs[|offs| - 1] == |v|
    && (forall i :: 0 <= i < |offs| - 1 ==> EntryConverts(v, offs[i], offs[i + 1], x, i))
    && if |offs| <= 4 then |v| == 4 * |offs| else |v| == 8 * |offs| - 20
  }

  ghost predicate ConvertsTo(v: seq<byte>, x: seq<byte>) {
    exists offs :: Converts(v, x, offs)
  }

  /** What one turn of the loop reads at `at`, and where the next one is. */
  ghost predicate Reads(v: seq<byte>, at: nat, next: nat, e: AclEntry) {
    && at + 4 <= |v| && e.tag == U16(v, at) && e.perm == U16(v, at + 2)
    && if ShortTag(e.tag) then next == at + 4 && e.id == ACL_UNDEFINED_ID
       else LongTag(e.tag) && next == at + 8 <= |v| && e.id == U32(v, at + 4)
  }

  lemma XattrEntryIs(v: seq<byte>, at: nat, e: AclEntry)
    requires at + 4 <= |v| && e.tag == U16(v, at) && e.perm == U16(v, at + 2)
    ensures e.id == ACL_UNDEFINED_ID ==> XattrEntry(e) == v[at..at + 4] + [255, 255, 255, 255]
    ensures at + 8 <= |v| && e.id == U32(v, at + 4) ==> XattrEntry(e) == v[at..at + 8]
  {
    Put16Of(v, at);
    Put16Of(v, at + 2);
    assert v[at..at + 4] == v[at..at + 2] + v[at + 2..at + 4];
    if at + 8 <= |v| {
      Put32Of(v, at + 4);
      assert v[at..at + 8] == v[at..at + 4] + v[at + 4..at + 8];
    }
  }

  lemma TagBytes(v: seq<byte>, at: nat)
    requires at + 2 <= |v|
    ensures ShortTag(U16(v, at)) <==> v[at + 1] == 0 && (v[at] == 1 || v[at] == 4 || v[at] == 16 || v[at] == 32)
    ensures LongTag(U16(v, at)) <==> v[at + 1] == 0 && (v[at] == 2 || v[at] == 8)
  {
  }

  lemma ReadsConverts(v: seq<byte>, at: nat, next: nat, x: seq<byte>, i: nat, e: AclEntry)
    requires 12 + 8 * i <= |x| && x[4 + 8 * i..12 + 8 * i] == XattrEntry(e) && Reads(v, at, next, e)
    ensures EntryConverts(v, at, next, x, i)
  {
    hide XattrEntry, U32;
    TagBytes(v, at);
    XattrEntryIs(v, at, e);
  }

  function EntryAt(v: seq<byte>, at: nat): AclEntry {
    if at + 4 > |v| then AclEntry(0, 0, 0)
    else
      var tag, perm := U16(v, at), U16(v, at + 2);
      AclEntry(tag, perm, if LongTag(tag) && at + 8 <= |v| then U32(v, at + 4) else ACL_UNDEFINED_ID)
  }

  lemma ConvertsReads(v: seq<byte>, at: nat, next: nat, x: seq<byte>, i: nat)
    requires 12 + 8 * i <= |x| && EntryConverts(v, at, next, x, i)
    ensures Reads(v, at, next, EntryAt(v, at)) && x[4 + 8 * i..12 + 8 * i] == XattrEntry(EntryAt(v, at))
  {
    hide XattrEntry, U32;
    TagBytes(v, at);
    XattrEntryIs(v, at, EntryAt(v, at));
  }

  lemma {:induction false} PlacesRead(v: seq<byte>, at: nat, n: nat) returns (offs: seq<nat>)
    requires ReadEntries(v, at, n).Some?
    ensures |offs| == n + 1 && offs[0] == at && offs[n] == |v|
    ensures var es := ReadEntries(v, at, n).value;
            |es| == n && forall i :: 0 <= i < n ==> Reads(v, offs[i], offs[i + 1], es[i])
    decreases n
  {
    if n == 0 {
      offs := [at];
    } else {
      var rest := PlacesRead(v, at + if ShortTag(U16(v, at)) then 4 else 8, n - 1);
      offs := [at] + rest;
      var es := ReadEntries(v, at, n).value;
      assert Reads(v, at, rest[0], es[0]);
      forall i | 0 <= i < n
        ensures Reads(v, offs[i], offs[i + 1], es[i])
      {
        if i > 0 {
          assert Reads(v, rest[i - 1], rest[i], es[1..][i - 1]);
        }
      }
    }
  }

  lemma ReadOneMore(v: seq<byte>, at: nat, next: nat, e: AclEntry, rest: seq<AclEntry>)
    requires Reads(v, at, next, e) && ReadEntries(v, next, |rest|) == Some(rest)
    ensures ReadEntries(v, at, |rest| + 1) == Some([e] + rest)
  {
    assert e == AclEntry(U16(v, at), U16(v, at + 2), e.id);
  }

  lemma {:induction false} ReadPlaces(v: seq<byte>, offs: seq<nat>, es: seq<AclEntry>, k: nat)
    requires k <= |es| && |offs| == |es| + 1 && offs[|es|] == |v|
    requires forall i :: 0 <= i < |es| ==> Reads(v, offs[i], offs[i + 1], es[i])
    ensures ReadEntries(v, offs[k], |es| - k) == Some(es[k..])
    decreases |es| - k
  {
    if k == |es| {
      assert es[k..] == [];
    } else {
      ReadPlaces(v, offs, es, k + 1);
      assert Reads(v, offs[k], offs[k + 1], es[k]);
      ReadOneMore(v, offs[k], offs[k + 1], es[k], es[k + 1..]);
      assert [es[k]] + es[k + 1..] == es[k..];
    }
  }

  lemma {:induction false} SameChunks(x: seq<byte>, es: seq<AclEntry>, k: nat)
    requires |x| == 4 + 8 * |es| && x[..4] == Put32(POSIX_ACL_XATTR_VERSION) && k <= |es|
    requires forall i :: 0 <= i < |es| ==> x[4 + 8 * i..12 + 8 * i] == XattrEntry(es[i])
    ensures x[..4 + 8 * k] == XattrForm(es[..k])
  {
    hide XattrEntry, Put32;
    if k > 0 {
      SameChunks(x, es, k - 1);
      XattrFormNext(es, k - 1);
      assert x[..4 + 8 * k] == x[..4 + 8 * (k - 1)] + x[4 + 8 * (k - 1)..12 + 8 * (k - 1)];
    }
  }

  lemma CountOfSize(size: nat, n: nat)
    requires size >= 4 && n > 0
    ensures AclCount(size) == n <==> if n <= 3 then size == 4 * (n + 1) else size == 8 * (n + 1) - 20
  {
  }

  lemma VersionBytes(v: seq<byte>)
    requires |v| >= 4
    ensures U32(v, 0) == EXT3_ACL_VERSION <==> v[..4] == [1, 0, 0, 0]
    ensures Put32(POSIX_ACL_XATTR_VERSION) == [2, 0, 0, 0]
  {
    WordsInBytes(v, 0);
    assert v[..4] == [v[0], v[1], v[2], v[3]];
  }

  /** The conversion, stated without the code: an ACL value converts to x if and only if
      the bytes of v and x correspond, entry by entry, in a list of an accepted shape. */
  lemma {:induction false} ConversionInBytes(v: seq<byte>, x: seq<byte>)
    ensures Convert(v) == Some(x) <==> ConvertsTo(v, x)
  {
    hide ReadEntries, XattrEntry, XattrEntries, AclCount, U32, Put32;
    if |v| >= 4 {
      VersionBytes(v);
    }
    if Convert(v) == Some(x) {
      var es := FromDisk(v).value;
      var offs := PlacesRead(v, 4, AclCount(|v|));
      CountOfSize(|v|, |es|);
      assert x[..4] == Put32(POSIX_ACL_XATTR_VERSION);
      forall i | 0 <= i < |es|
        ensures EntryConverts(v, offs[i], offs[i + 1], x, i)
      {
        XattrEntriesAt(es, i);
        assert x[4 + 8 * i..12 + 8 * i] == XattrEntries(es)[8 * i..8 * i + 8];
        assert Reads(v, offs[i], offs[i + 1], es[i]);
        ReadsConverts(v, offs[i], offs[i + 1], x, i, es[i]);
      }
      assert Converts(v, x, offs);
    }
    if offs :| Converts(v, x, offs) {
      BytesConvert(v, x, offs);
    }
  }

  lemma {:induction false} BytesConvert(v: seq<byte>, x: seq<byte>, offs: seq<nat>)
    requires Converts(v, x, offs)
    ensures Convert(v) == Some(x)
  {
    hide ReadEntries, XattrEntry, XattrEntries, AclCount, U32, Put32, EntryAt, Reads;
    var n := |offs| - 1;
    var es := seq(n, i requires 0 <= i < n => EntryAt(v, offs[i]));
    forall i | 0 <= i < n
      ensures Reads(v, offs[i], offs[i + 1], es[i]) && x[4 + 8 * i..12 + 8 * i] == XattrEntry(es[i])
    {
      assert EntryConverts(v, offs[i], offs[i + 1], x, i);
      ConvertsReads(v, offs[i], offs[i + 1], x, i);
    }
    VersionBytes(v);
    CountOfSize(|v|, n);
    ReadPlaces(v, offs, es, 0);
    assert es[0..] == es;
    SameChunks(x, es, n);
    assert es[..n] == es && x[..4 + 8 * n] == x;
  }
}
