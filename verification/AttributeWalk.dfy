// Walking the entries of a verified buffer, restoring them to a file and
// comparing them with a file (restore/xattr.c).

module AttributeWalk {
  import opened LittleEndian
  import opened Acl
  import opened EntryChain
  import opened FileAttributes
  import opened Delivering

  const INDEX_USER := 1
  const INDEX_POSIX_ACL_ACCESS := 2
  const INDEX_POSIX_ACL_DEFAULT := 3
  const INDEX_TRUSTED := 4
  const INDEX_LUSTRE := 5
  const INDEX_SECURITY := 6

  predicate KnownIndex(index: byte) {
    INDEX_USER <= index <= INDEX_SECURITY
  }

  function Prefix(index: byte): (r: Option<string>)
    ensures r.Some? <==> KnownIndex(index)
    ensures r.Some? ==> IsName(r.value)
  {
    if index == INDEX_USER then Some("user.")
    else if index == INDEX_POSIX_ACL_ACCESS then Some("system.posix_acl_access")
    else if index == INDEX_POSIX_ACL_DEFAULT then Some("system.posix_acl_default")
    else if index == INDEX_TRUSTED then Some("trusted.")
    else if index == INDEX_LUSTRE then Some("lustre.")
    else if index == INDEX_SECURITY then Some("security.")
    else None
  }

  predicate IsAclIndex(index: byte) {
    index == INDEX_POSIX_ACL_ACCESS || index == INDEX_POSIX_ACL_DEFAULT
  }

  function Chars(bs: seq<byte>): (s: string)
    ensures |s| == |bs| && forall i :: 0 <= i < |bs| ==> s[i] == bs[i] as char
  {
    seq(|bs|, i requires 0 <= i < |bs| => bs[i] as char)
  }

  /** The C string that starts a text: up to the first NUL. */
  function CString(s: string): (c: string)
    ensures c <= s && '\0' !in c
    ensures c == s || (|c| < |s| && s[|c|] == '\0')
  {
    if s == "" || s[0] == '\0' then "" else [s[0]] + CString(s[1..])
  }

  /** The name and value that a (name index, name, value) triple stands for, or None. */
  function Meaning(index: byte, suffix: seq<byte>, raw: seq<byte>): Option<Delivery> {
    match Prefix(index)
    case None => None
    case Some(prefix) =>
      var name := prefix + CString(Chars(suffix));
      if !IsAclIndex(index) then Some(Delivery(name, raw))
      else
        match Convert(raw)
        case None => None
        case Some(x) => if |x| > XATTR_MAXSIZE then None else Some(Delivery(name, x))
  }

  /** What an entry stands for, stated without the code: six name indexes have a prefix;
      the values of two of them are ACLs and converted, the others are kept. */
  ghost predicate Means(index: byte, suffix: seq<byte>, raw: seq<byte>, m: Option<Delivery>) {
    var name := CString(Chars(suffix));
    if index == 1 then m == Some(Delivery("user." + name, raw))
    else if index == 2 then MeansAcl("system.posix_acl_access" + name, raw, m)
    else if index == 3 then MeansAcl("system.posix_acl_default" + name, raw, m)
    else if index == 4 then m == Some(Delivery("trusted." + name, raw))
    else if index == 5 then m == Some(Delivery("lustre." + name, raw))
    else if index == 6 then m == Some(Delivery("security." + name, raw))
    else m == None
  }

  ghost predicate MeansAcl(name: string, raw: seq<byte>, m: Option<Delivery>) {
    && (m.Some? ==> m.value.name == name)
    && forall x :: m.Some? && m.value.value == x <==> |x| <= 4096 && ConvertsTo(raw, x)
  }

  lemma {:induction false} AclIsConverted(index: byte, suffix: seq<byte>, raw: seq<byte>)
    requires index == 2 || index == 3
    ensures MeansAcl(Prefix(index).value + CString(Chars(suffix)), raw, Meaning(index, suffix, raw))
  {
    hide Convert, ConvertsTo, CString, Chars, Prefix;
    forall x
      ensures Convert(raw) == Some(x) <==> ConvertsTo(raw, x)
    {
      ConversionInBytes(raw, x);
    }
  }

  lemma {:induction false} MeaningIsExact(index: byte, suffix: seq<byte>, raw: seq<byte>)
    ensures Means(index, suffix, raw, Meaning(index, suffix, raw))
  {
    hide Convert, ConvertsTo, MeansAcl, CString, Chars;
    if index == 2 || index == 3 {
      AclIsConverted(index, suffix, raw);
    }
  }

  /** In terms of lists: an access or default ACL is delivered if and only if it is the disk
      form of a valid list of an accepted shape whose uniform form fits, and then what is
      delivered reads back as that list. */
  lemma {:induction false} AclMeaning(index: byte, suffix: seq<byte>, raw: seq<byte>, es: seq<AclEntry>)
    requires index == 2 || index == 3
    ensures var m := Meaning(index, suffix, raw);
            m.Some? && ReadXattrForm(m.value.value) == Some(es) <==>
            ValidEntries(es) && AcceptedShape(es) && raw == DiskForm(es) && 4 + 8 * |es| <= 4096
    ensures Meaning(index, suffix, raw).Some? ==> ReadXattrForm(Meaning(index, suffix, raw).value.value).Some?
  {
    hide FromDisk, ReadXattrForm, DiskForm, XattrForm, AcceptedShape, ValidEntries, CString, Chars;
    Acl.Acceptance(raw, es);
    XattrFormRoundTrip(es);
    if FromDisk(raw).Some? {
      XattrFormRoundTrip(FromDisk(raw).value);
    }
  }

  /** The header and name of the entry at `at` are in the buffer. */
  predicate EntryInside(b: seq<byte>, at: nat)
    requires IsBuffer(b)
  {
    Aligned(at) && at + ENTRY_HEADER + b[at] <= XATTR_MAXSIZE
  }

  function ValueAt(b: seq<byte>, at: nat): nat
    requires IsBuffer(b) && EntryInside(b, at)
  {
    ValueBase(Magic(b)) + U16(b, at + 2)
  }

  function ValueSize(b: seq<byte>, at: nat): nat
    requires IsBuffer(b) && EntryInside(b, at)
  {
    U32(b, at + 8)
  }

  /** The value, if it is going to be copied, is in the buffer. */
  predicate ValueInside(b: seq<byte>, at: nat)
    requires IsBuffer(b) && EntryInside(b, at)
  {
    KnownIndex(b[at + 1]) ==> ValueAt(b, at) + ValueSize(b, at) <= XATTR_MAXSIZE
  }

  function NameBytes(b: seq<byte>, at: nat): seq<byte>
    requires IsBuffer(b) && EntryInside(b, at)
  {
    b[at + ENTRY_HEADER..at + ENTRY_HEADER + b[at]]
  }

  function RawValue(b: seq<byte>, at: nat): (raw: seq<byte>)
    requires IsBuffer(b) && EntryInside(b, at) && ValueInside(b, at) && KnownIndex(b[at + 1])
    ensures |raw| <= XATTR_MAXSIZE
  {
    b[ValueAt(b, at)..ValueAt(b, at) + ValueSize(b, at)]
  }

  /** What the walk makes of the entry at `at`. A value outside the buffer has no
      meaning; the walk requires that it never reaches one. */
  function Decode(b: seq<byte>, at: nat): Option<Delivery>
    requires IsBuffer(b) && EntryInside(b, at)
  {
    if !KnownIndex(b[at + 1]) || !ValueInside(b, at) then None
    else Meaning(b[at + 1], NameBytes(b, at), RawValue(b, at))
  }

  /** Where in the buffer the parts of an entry are. */
  lemma {:induction false} DecodeInBytes(b: seq<byte>, at: nat)
    requires IsBuffer(b) && at % 4 == 0 && at < 4096 && at + 16 + b[at] <= 4096
    ensures EntryInside(b, at)
    ensures var base := if b[..4] == [1, 0, 2, 0xEA] then 4 else 0;
            var off := base + b[at + 2] as int + 0x100 * b[at + 3] as int;
            var size := b[at + 8] as int + 0x100 * b[at + 9] as int + 0x1_0000 * b[at + 10] as int
                        + 0x100_0000 * b[at + 11] as int;
            off + size <= 4096 ==>
              Decode(b, at) == Meaning(b[at + 1], b[at + 16..at + 16 + b[at]], b[off..off + size])
  {
    hide Convert, CString, Chars, U16, U32, Prefix, IsAclIndex;
    MagicInBytes(b);
    WordsInBytes(b, at + 2);
    WordsInBytes(b, at + 8);
  }

  /** The whole buffer, entry by entry; the check bounds every entry. */
  function Contents(b: seq<byte>): (entries: seq<Option<Delivery>>)
    requires IsBuffer(b) && Verified(b)
    ensures |entries| == |Offsets(b)|
  {
    VerifyIsSufficient(b);
    seq(|Offsets(b)|, k requires 0 <= k < |Offsets(b)| => Decode(b, Offsets(b)[k]))
  }

  /** Every value that the walk copies is in the buffer: xattr_verify does not establish it. */
  ghost predicate ReachedInside(b: seq<byte>, cb: Callback, accepts: Acceptance, attrs: Attrs)
    requires IsBuffer(b) && Verified(b)
  {
    VerifyIsSufficient(b);
    forall k :: 0 <= k < |Offsets(b)| && Walked(Contents(b)[..k], cb, accepts, attrs).1 ==>
      ValueInside(b, Offsets(b)[k])
  }

  /** The same of the buffer alone: the values up to and including that of the first entry
      that does not decode. */
  ghost predicate CopiesInside(b: seq<byte>)
    requires IsBuffer(b) && Verified(b)
  {
    VerifyIsSufficient(b);
    forall k :: 0 <= k < |Offsets(b)| && AllDecode(Contents(b)[..k]) ==> ValueInside(b, Offsets(b)[k])
  }

  /** In particular when all values are. */
  ghost predicate ValuesInside(b: seq<byte>)
    requires IsBuffer(b) && Verified(b)
    ensures ValuesInside(b) ==> CopiesInside(b)
  {
    VerifyIsSufficient(b);
    forall k :: 0 <= k < |Offsets(b)| ==> ValueInside(b, Offsets(b)[k])
  }

  lemma DecodedIsBounded(b: seq<byte>, at: nat)
    requires IsBuffer(b) && EntryInside(b, at) && Decode(b, at).Some?
    ensures IsName(Decode(b, at).value.name) && |Decode(b, at).value.value| <= XATTR_MAXSIZE
  {
  }

  // ---------------------------------------------------------------------
  // The walk and its two callbacks.
  // ---------------------------------------------------------------------

  method XattrCbSet(file: File, name: string, value: seq<byte>) returns (r: Status)
    requires file.Valid() && IsName(name)
    modifies file
    ensures file.Valid()
    ensures r == GOOD <==> file.accepts(old(file.attrs), name, value)
    ensures file.attrs == if r == GOOD then old(file.attrs)[name := value] else old(file.attrs)
  {
    var ok := file.LSetXattr(name, value);
    return if ok then GOOD else FAIL;
  }

  method XattrCbCompare(file: File, name: string, value: seq<byte>) returns (r: Status)
    requires |value| <= XATTR_MAXSIZE
    ensures r == GOOD <==> Holds(file.attrs, Delivery(name, value))
  {
    var valuef := file.LGetXattr(name, XATTR_MAXSIZE);
    if valuef.None? {
      return FAIL;
    }
    if |valuef.value| != |value| || valuef.value != value {
      return FAIL;
    }
    return GOOD;
  }

  /** Rewrites an ACL value in place; the new size, or -1. */
  method ConvertAcl(value: array<byte>, size: nat) returns (newSize: int)
    requires size <= value.Length == XATTR_MAXSIZE
    modifies value
    ensures var x := Convert(old(value[..size]));
            if x.None? || |x.value| > XATTR_MAXSIZE then newSize == -1
            else newSize == |x.value| && value[..newSize] == x.value
  {
    var acl := Ext3AclFromDisk(value, size);
    if acl.None? {
      return -1;
    }
    newSize := PosixAclToXattr(acl.value, value, XATTR_MAXSIZE);
  }

  method CopyValue(buffer: array<byte>, entry: nat) returns (value: array<byte>, size: nat)
    requires buffer.Length == XATTR_MAXSIZE && EntryInside(buffer[..], entry) && ValueInside(buffer[..], entry)
    requires KnownIndex(buffer[entry + 1])
    ensures fresh(value) && size <= value.Length == XATTR_MAXSIZE
    ensures value[..size] == RawValue(buffer[..], entry)
  {
    size := Load32(buffer, entry + 8);
    var off := ValueBase(Load32(buffer, 0)) + Load16(buffer, entry + 2);
    assert size == ValueSize(buffer[..], entry) && off == ValueAt(buffer[..], entry);
    value := new byte[XATTR_MAXSIZE];
    Store(value, 0, buffer[off..off + size]);
  }

  method DecodeEntry(buffer: array<byte>, entry: nat) returns (d: Option<Delivery>)
    requires buffer.Length == XATTR_MAXSIZE && EntryInside(buffer[..], entry) && ValueInside(buffer[..], entry)
    ensures d == Decode(buffer[..], entry)
  {
    var index, nameLen := buffer[entry + 1], buffer[entry];
    var prefix := Prefix(index);
    if prefix.None? {
      return None;
    }
    var suffix := buffer[entry + ENTRY_HEADER..entry + ENTRY_HEADER + nameLen];
    assert suffix == NameBytes(buffer[..], entry);
    var name := prefix.value + CString(Chars(suffix));
    var value, size := CopyValue(buffer, entry);
    ghost var raw := value[..size];
    if IsAclIndex(index) {
      var newSize := ConvertAcl(value, size);
      if newSize < 0 {
        return None;
      }
      size := newSize;
    }
    assert Meaning(index, suffix, raw) == Some(Delivery(name, value[..size]));
    return Some(Delivery(name, value[..size]));
  }

  method Visit(buffer: array<byte>, entry: nat, cb: Callback, file: File) returns (r: Status)
    requires buffer.Length == XATTR_MAXSIZE && EntryInside(buffer[..], entry) && ValueInside(buffer[..], entry)
    requires file.Valid()
    modifies file
    ensures file.Valid()
    ensures (file.attrs, r == GOOD) == Visited(Decode(buffer[..], entry), cb, file.accepts, old(file.attrs))
  {
    var d := DecodeEntry(buffer, entry);
    if d.None? {
      return FAIL;
    }
    DecodedIsBounded(buffer[..], entry);
    match cb
    case Set => r := XattrCbSet(file, d.value.name, d.value.value);
    case Compare => r := XattrCbCompare(file, d.value.name, d.value.value);
  }

  method XattrWalk(buffer: array<byte>, cb: Callback, file: File) returns (r: Status)
    requires buffer.Length == XATTR_MAXSIZE && Verified(buffer[..])
    requires ReachedInside(buffer[..], cb, file.accepts, file.attrs)
    requires file.Valid()
    modifies file
    ensures file.Valid()
    ensures (file.attrs, r == GOOD) == Walked(Contents(buffer[..]), cb, file.accepts, old(file.attrs))
  {
    hide Decode, ValueInside, Visited, Chain, Meaning, Verified;
    ghost var b := buffer[..];
    ghost var entries, k := Contents(b), 0;
    var entry := FirstEntry(Load32(buffer, 0));
    PositionStep(b, 0);
    while Load32(buffer, entry) != 0
      invariant k <= |entries| && entry == Position(b, k) && Aligned(entry)
      invariant U32(b, entry) == 0 <==> k == |entries|
      invariant buffer[..] == b && file.Valid()
      invariant Walked(entries[..k], cb, file.accepts, old(file.attrs)) == (file.attrs, true)
      decreases |entries| - k
    {
      VerifyIsSufficient(b);
      assert entries[k] == Decode(b, entry);
      WalkedNext(entries, k, cb, file.accepts, old(file.attrs));
      var ok := Visit(buffer, entry, cb, file);
      if ok != GOOD {
        return FAIL;
      }
      PositionStep(b, k);
      entry := entry + EntryLen(buffer[entry]);
      k := k + 1;
      PositionStep(b, k);
    }
    assert entries[..k] == entries;
    return GOOD;
  }

  // ---------------------------------------------------------------------
  // Restoring and comparing.
  // ---------------------------------------------------------------------

  method XattrExtract(file: File, buffer: array<byte>) returns (r: Status)
    requires buffer.Length == XATTR_MAXSIZE
    requires Verified(buffer[..]) ==> ReachedInside(buffer[..], Set, file.accepts, file.attrs)
    requires file.Valid()
    modifies file
    ensures file.Valid()
    ensures (file.attrs, r == GOOD)
         == if Verified(buffer[..]) then Walked(Contents(buffer[..]), Set, file.accepts, old(file.attrs))
            else (old(file.attrs), false)
  {
    var ok := XattrVerify(buffer);
    if ok == FAIL {
      return FAIL;
    }
    r := XattrWalk(buffer, Set, file);
  }

  /** When xattr_compare finds a file with these attributes good. */
  ghost predicate CompareGood(attrs: Attrs, b: seq<byte>)
    requires IsBuffer(b)
  {
    Verified(b) && Agrees(attrs, Contents(b))
  }

  method XattrCompare(file: File, buffer: array?<byte>) returns (r: Status)
    requires buffer != null ==> buffer.Length == XATTR_MAXSIZE
    requires buffer != null && file.listable && Verified(buffer[..]) && |file.attrs| == |Offsets(buffer[..])| ==>
             ReachedInside(buffer[..], Compare, file.accepts, file.attrs)
    requires file.Valid()
    modifies file
    ensures file.Valid() && file.attrs == old(file.attrs)
    ensures r == GOOD <==>
            file.listable && if buffer == null then file.attrs == map[] else CompareGood(file.attrs, buffer[..])
  {
    hide Decode, Chain, ReachedInside, Walked, Load32, U32;
    var size := file.LListXattr(null, 0);
    if size < 0 {
      return FAIL;
    }
    var names := new char[size + 1];
    size := file.LListXattr(names, size);
    if size < 0 {
      return FAIL;
    }
    names[size] := '\0';
    assert names[..size] == Join(file.order);
    StartsOfJoin(file.order);
    file.OrderSize();
    var countf := CountNames(names, size);
    var countt := 0;
    if buffer != null {
      var ok := XattrVerify(buffer);
      if ok == FAIL {
        return FAIL;
      }
      countt := XattrCount(buffer);
    }
    if countf != countt {
      return FAIL;
    }
    if buffer == null {
      return GOOD;
    }
    WalkedCompare(Contents(buffer[..]), file.accepts, file.attrs);
    r := XattrWalk(buffer, Compare, file);
  }
}
