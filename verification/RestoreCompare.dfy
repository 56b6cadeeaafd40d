// What restoring and comparing the same extended attributes mean together
// (restore/xattr.c): restore then verify, when counting entries and checking each one
// amounts to equality, and why different entries get different names.

module RestoreCompare {
  import opened LittleEndian
  import opened EntryChain
  import opened FileAttributes
  import opened Delivering
  import opened AttributeWalk

  /** Each setting is accepted once those before it have been made. */
  ghost predicate AllAccepted(ds: seq<Delivery>, accepts: Acceptance, attrs: Attrs) {
    forall i :: 0 <= i < |ds| ==> accepts(Override(attrs, ds[..i]), ds[i].name, ds[i].value)
  }

  /** The attributes of a file restored without a failure. */
  lemma {:induction false} RestoredAttributes(entries: seq<Option<Delivery>>, accepts: Acceptance, attrs: Attrs)
    requires AllDecode(entries)
    ensures Walked(entries, Set, accepts, attrs).1 <==> AllAccepted(Values(entries), accepts, attrs)
    ensures Walked(entries, Set, accepts, attrs).1 ==>
            Walked(entries, Set, accepts, attrs).0 == Override(attrs, Values(entries))
  {
    var ds := Values(entries);
    forall k | 0 <= k < |entries|
      ensures SettableAt(entries, k, accepts, attrs) <==> accepts(Override(attrs, ds[..k]), ds[k].name, ds[k].value)
    {
      assert Values(entries[..k]) == ds[..k];
    }
    var n := RestoreIsAnOrderedPrefix(entries, accepts, attrs);
    assert n == |entries| ==> entries[..n] == entries;
  }

  /** Walking a verified buffer is safe for every file and either callback if and only if
      the values up to the first entry that does not decode are in the buffer. */
  lemma {:induction false} CopiesInsideExactly(b: seq<byte>)
    requires IsBuffer(b) && Verified(b)
    ensures CopiesInside(b) <==> forall cb, accepts, attrs :: ReachedInside(b, cb, accepts, attrs)
  {
    hide Decode, ValueInside, Chain, Walked;
    VerifyIsSufficient(b);
    var entries, always: Acceptance := Contents(b), (_, _, _) => true;
    forall k | 0 <= k < |Offsets(b)| && AllDecode(entries[..k])
      ensures Walked(entries[..k], Set, always, map[]).1
    {
      RestoredAttributes(entries[..k], always, map[]);
    }
    if CopiesInside(b) {
      forall cb, accepts, attrs
        ensures ReachedInside(b, cb, accepts, attrs)
      {
        forall k | 0 <= k < |Offsets(b)| && Walked(entries[..k], cb, accepts, attrs).1
          ensures ValueInside(b, Offsets(b)[k])
        {
          WalkedDecodes(entries[..k], cb, accepts, attrs);
        }
      }
    }
    if ReachedInside(b, Set, always, map[]) {
      assert CopiesInside(b);
    }
  }

  lemma AgreesIsCountAndInclusion(attrs: Attrs, entries: seq<Option<Delivery>>)
    requires AllDecode(entries)
    ensures Agrees(attrs, entries) <==> |attrs| == |entries| && AllHold(attrs, Values(entries))
  {
    assert forall k :: 0 <= k < |entries| ==> Values(entries)[k] == entries[k].value;
  }

  /** Comparing after a complete restore over any earlier attributes. */
  lemma {:induction false} CompareAfterRestore(entries: seq<Option<Delivery>>, attrs: Attrs)
    requires AllDecode(entries)
    ensures var ds := Values(entries);
            Agrees(Override(attrs, ds), entries) <==>
            Consistent(ds) && |attrs.Keys + ToSet(Names(ds))| == |entries|
  {
    var ds := Values(entries);
    var after := Override(attrs, ds);
    AgreesIsCountAndInclusion(after, entries);
    OverrideHolds(attrs, ds);
    OverrideKeys(attrs, ds);
    assert |after| == |after.Keys|;
  }

  /** Restore then verify: after restoring entries that all decode to a file without
      attributes, every setting accepted, the comparison with them is good if and only if
      no full name was dumped twice. With a duplicate the count test fails. */
  lemma {:induction false} RestoreThenVerify(entries: seq<Option<Delivery>>, accepts: Acceptance)
    requires AllDecode(entries) && AllAccepted(Values(entries), accepts, map[])
    ensures var (after, restored) := Walked(entries, Set, accepts, map[]);
            && restored
            && (Agrees(after, entries) <==> Distinct(Names(Values(entries))))
            && (!Distinct(Names(Values(entries))) ==> |after| < |entries|)
  {
    var ds, none: Attrs := Values(entries), map[];
    var names := Names(ds);
    RestoredAttributes(entries, accepts, none);
    CompareAfterRestore(entries, none);
    OverrideKeys(none, ds);
    assert none.Keys + ToSet(names) == ToSet(names);
    assert |Override(none, ds)| == |Override(none, ds).Keys|;
    DistinctSize(names);
    if Distinct(names) {
      DistinctIsConsistent(ds);
    }
  }

  /** What a buffer delivers: an unverified one nothing, so it counts as undecodable. */
  ghost function Found(b: seq<byte>): seq<Option<Delivery>>
    requires IsBuffer(b)
  {
    if Verified(b) then Contents(b) else [None]
  }

  /** Both operations of the code are defined on any file. */
  ghost predicate Readable(b: seq<byte>) {
    IsBuffer(b) && (Verified(b) ==> CopiesInside(b))
  }

  lemma {:induction false} ReadableIsSafe(b: seq<byte>)
    requires Readable(b) && Verified(b)
    ensures forall cb, accepts, attrs :: ReachedInside(b, cb, accepts, attrs)
  {
    CopiesInsideExactly(b);
  }

  /** The two operations of the code one after the other, on any file and any buffer on
      which they are defined. */
  method RestoreThenCompare(file: File, buffer: array<byte>) returns (restored: Status, same: Status)
    requires buffer.Length == XATTR_MAXSIZE && Readable(buffer[..])
    requires file.Valid() && file.listable
    modifies file
    ensures file.Valid()
    ensures var entries := Found(buffer[..]);
            && (restored == GOOD <==> AllDecode(entries) && AllAccepted(Values(entries), file.accepts, old(file.attrs)))
            && (restored == FAIL ==> file.attrs == Walked(entries, Set, file.accepts, old(file.attrs)).0)
            && (!AllDecode(entries) ==> same == FAIL)
            && (restored == GOOD ==>
                  var ds := Values(entries);
                  && file.attrs == Override(old(file.attrs), ds)
                  && (same == GOOD <==> Consistent(ds) && |old(file.attrs).Keys + ToSet(Names(ds))| == |ds|)
                  && (old(file.attrs) == map[] ==> (same == GOOD <==> Distinct(Names(ds)))))
  {
    hide Contents, Override, ReachedInside, CopiesInside;
    ghost var entries, before := Found(buffer[..]), file.attrs;
    if Verified(buffer[..]) {
      ReadableIsSafe(buffer[..]);
    }
    GoodRestore(entries, file.accepts, before);
    restored := XattrExtract(file, buffer);
    if restored == GOOD {
      CompareAfterRestore(entries, before);
      if before == map[] {
        RestoreThenVerify(entries, file.accepts);
      }
    }
    same := XattrCompare(file, buffer);
  }

  /** A restore from any entries: good if and only if they all decode and the settings are
      accepted one after another. */
  lemma {:induction false} GoodRestore(entries: seq<Option<Delivery>>, accepts: Acceptance, attrs: Attrs)
    ensures Walked(entries, Set, accepts, attrs).1 <==>
            AllDecode(entries) && AllAccepted(Values(entries), accepts, attrs)
    ensures Walked(entries, Set, accepts, attrs).1 ==>
            Walked(entries, Set, accepts, attrs).0 == Override(attrs, Values(entries))
  {
    if Walked(entries, Set, accepts, attrs).1 {
      WalkedDecodes(entries, Set, accepts, attrs);
    }
    if AllDecode(entries) {
      RestoredAttributes(entries, accepts, attrs);
    }
  }

  /** Count and inclusion decide equality with the dumped attributes, on every file,
      if and only if the dumped names are distinct. */
  lemma {:induction false} CompareDecidesEquality(entries: seq<Option<Delivery>>)
    requires AllDecode(entries)
    ensures Distinct(Names(Values(entries))) <==>
            forall attrs: Attrs :: Agrees(attrs, entries) <==> attrs == Override(map[], Values(entries))
  {
    var ds, none: Attrs := Values(entries), map[];
    var names, same := Names(ds), Override(none, ds);
    CompareAfterRestore(entries, none);
    OverrideKeys(none, ds);
    DistinctSize(names);
    assert none.Keys + ToSet(names) == ToSet(names) == same.Keys && |same| == |same.Keys|;
    if Distinct(names) {
      DistinctIsConsistent(ds);
      forall attrs: Attrs
        ensures Agrees(attrs, entries) <==> attrs == same
      {
        AgreesIsCountAndInclusion(attrs, entries);
        if Agrees(attrs, entries) {
          CountedInclusionIsEquality(attrs, ds);
        }
      }
    }
  }

  // ---------------------------------------------------------------------
  // Names.
  // ---------------------------------------------------------------------

  /** The prefixes are a prefix code: a full name has one reading. */
  lemma PrefixCode(i: byte, s: string, j: byte, t: string)
    requires Prefix(i).Some? && Prefix(j).Some?
    ensures Prefix(i).value + s == Prefix(j).value + t <==> i == j && s == t
  {
    var p, q := Prefix(i).value, Prefix(j).value;
    if p + s == q + t {
      assert p[0] == (p + s)[0] && q[0] == (q + t)[0];
      assert p[1] == (p + s)[1] && q[1] == (q + t)[1];
      if |p| >= 18 && |q| >= 18 {
        assert p[17] == (p + s)[17] && q[17] == (q + t)[17];
      }
      assert i == j;
      assert s == (p + s)[|p|..] && t == (q + t)[|q|..];
    }
  }

  /** Entries with different name indexes or different NUL-free names are delivered
      under different full names. */
  lemma FullNamesAreDistinct(i: byte, s: seq<byte>, v: seq<byte>, j: byte, t: seq<byte>, w: seq<byte>)
    requires Meaning(i, s, v).Some? && Meaning(j, t, w).Some?
    requires 0 !in s && 0 !in t
    ensures Meaning(i, s, v).value.name == Meaning(j, t, w).value.name <==> i == j && s == t
  {
    PrefixCode(i, CString(Chars(s)), j, CString(Chars(t)));
    CStringOfChars(s);
    CStringOfChars(t);
    if Chars(s) == Chars(t) {
      forall k | 0 <= k < |s|
        ensures s[k] == t[k]
      {
        assert Chars(s)[k] as int == s[k] && Chars(t)[k] as int == t[k];
      }
    }
  }

  lemma CStringOfChars(s: seq<byte>)
    requires 0 !in s
    ensures CString(Chars(s)) == Chars(s)
  {
    assert forall k :: 0 <= k < |s| ==> Chars(s)[k] as int == s[k];
  }
}
