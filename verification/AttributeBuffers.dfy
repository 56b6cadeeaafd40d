// A file whose extended attributes are dumped in several buffers, one from the inode and
// one from a block (dump/traverse.c), each restored and compared by itself (restore/tape.c).

module AttributeBuffers {
  import opened LittleEndian
  import opened EntryChain
  import opened FileAttributes
  import opened Delivering
  import opened AttributeWalk
  import opened RestoreCompare
  import opened BufferLayout

  ghost predicate AllReadable(tape: seq<seq<byte>>) {
    forall i :: 0 <= i < |tape| ==> Readable(tape[i])
  }

  /** What the buffers deliver. */
  ghost function Lists(tape: seq<seq<byte>>): (lists: seq<seq<Option<Delivery>>>)
    requires AllReadable(tape)
    ensures |lists| == |tape|
  {
    seq(|tape|, i requires 0 <= i < |tape| => Found(tape[i]))
  }

  /** The attributes after restoring one list after another, and whether each was good. A
      list that fails does not stop the next. */
  ghost function RestoredAll(lists: seq<seq<Option<Delivery>>>, accepts: Acceptance, attrs: Attrs): (Attrs, bool) {
    if lists == [] then (attrs, true)
    else
      var n := |lists| - 1;
      var (before, ok) := RestoredAll(lists[..n], accepts, attrs);
      var (after, good) := Walked(lists[n], Set, accepts, before);
      (after, ok && good)
  }

  ghost predicate AllAgree(attrs: Attrs, lists: seq<seq<Option<Delivery>>>) {
    forall i :: 0 <= i < |lists| ==> Agrees(attrs, lists[i])
  }

  // ---------------------------------------------------------------------
  // The two loops.
  // ---------------------------------------------------------------------

  method ReadXattr(data: seq<byte>) returns (buffer: array<byte>)
    requires |data| == XATTR_MAXSIZE
    ensures fresh(buffer) && buffer.Length == XATTR_MAXSIZE && buffer[..] == data
  {
    buffer := new byte[XATTR_MAXSIZE](i requires 0 <= i < XATTR_MAXSIZE => data[i]);
  }

  /** Restores every buffer; their results are ignored. */
  method ExtractAttr(file: File, tape: seq<seq<byte>>)
    requires file.Valid() && AllReadable(tape)
    modifies file
    ensures file.Valid()
    ensures file.attrs == RestoredAll(Lists(tape), file.accepts, old(file.attrs)).0
  {
    hide Contents, ReachedInside, CopiesInside, Walked;
    for i := 0 to |tape|
      invariant file.Valid()
      invariant file.attrs == RestoredAll(Lists(tape)[..i], file.accepts, old(file.attrs)).0
    {
      var xattr := ReadXattr(tape[i]);
      if Verified(tape[i]) {
        ReadableIsSafe(tape[i]);
      }
      NotDecoded(file.accepts, file.attrs);
      assert Lists(tape)[..i + 1][..i] == Lists(tape)[..i];
      var _ := XattrExtract(file, xattr);
    }
    assert Lists(tape)[..|tape|] == Lists(tape);
  }

  lemma NotDecoded(accepts: Acceptance, attrs: Attrs)
    ensures Walked([None], Set, accepts, attrs) == (attrs, false)
  {
  }

  lemma NoneDisagrees(attrs: Attrs)
    ensures !Agrees(attrs, [None])
  {
    var undecoded: seq<Option<Delivery>> := [None];
    assert undecoded[0].None?;
  }

  /** Compares every buffer; without one, the file should have no attributes. */
  method CompareAttr(file: File, tape: seq<seq<byte>>) returns (same: Status)
    requires file.Valid() && AllReadable(tape)
    modifies file
    ensures file.Valid() && file.attrs == old(file.attrs)
    ensures same == GOOD <==>
            file.listable && if tape == [] then file.attrs == map[] else AllAgree(file.attrs, Lists(tape))
  {
    hide Contents, ReachedInside, CopiesInside, Agrees;
    same := GOOD;
    for i := 0 to |tape|
      invariant file.Valid() && file.attrs == old(file.attrs)
      invariant same == GOOD <==>
                (i == 0 || file.listable) && forall j :: 0 <= j < i ==> Agrees(file.attrs, Lists(tape)[j])
    {
      var xattr := ReadXattr(tape[i]);
      if Verified(tape[i]) {
        ReadableIsSafe(tape[i]);
      }
      NoneDisagrees(file.attrs);
      var r := XattrCompare(file, xattr);
      assert Lists(tape)[i] == Found(tape[i]);
      if r == FAIL {
        same := FAIL;
      }
    }
    if tape == [] {
      same := XattrCompare(file, null);
    }
  }

  // ---------------------------------------------------------------------
  // What restoring and comparing several buffers mean.
  // ---------------------------------------------------------------------

  /** The lists one after another. */
  function Flat<T>(lists: seq<seq<T>>): seq<T> {
    if lists == [] then [] else Flat(lists[..|lists| - 1]) + lists[|lists| - 1]
  }

  /** If each restore is good, they are one restore of all the entries; and only then. */
  lemma {:induction false} RestoredAllIsOneRestore(lists: seq<seq<Option<Delivery>>>, accepts: Acceptance, attrs: Attrs)
    ensures RestoredAll(lists, accepts, attrs).1 <==> Walked(Flat(lists), Set, accepts, attrs).1
    ensures RestoredAll(lists, accepts, attrs).1 ==>
            RestoredAll(lists, accepts, attrs).0 == Walked(Flat(lists), Set, accepts, attrs).0
  {
    if lists != [] {
      var n := |lists| - 1;
      RestoredAllIsOneRestore(lists[..n], accepts, attrs);
      WalkedAppend(Flat(lists[..n]), lists[n], Set, accepts, attrs);
    }
  }

  /** A buffer that delivers nothing might as well not be there: it does not stop the next. */
  lemma {:induction false} UnverifiedIsSkipped(a: seq<seq<Option<Delivery>>>, b: seq<seq<Option<Delivery>>>,
                                               accepts: Acceptance, attrs: Attrs)
    ensures RestoredAll(a + [[None]] + b, accepts, attrs).0 == RestoredAll(a + b, accepts, attrs).0
    decreases |b|
  {
    var lists := a + [[None]] + b;
    if b == [] {
      assert lists[..|a|] == a && lists[|a|] == [None] && a + b == a;
      NotDecoded(accepts, RestoredAll(a, accepts, attrs).0);
    } else {
      var n := |b| - 1;
      UnverifiedIsSkipped(a, b[..n], accepts, attrs);
      assert lists[..|lists| - 1] == a + [[None]] + b[..n];
      assert (a + b)[..|a| + n] == a + b[..n];
    }
  }

  lemma {:induction false} InFlat<T>(lists: seq<seq<T>>, i: nat, k: nat) returns (m: nat)
    requires i < |lists| && k < |lists[i]|
    ensures m < |Flat(lists)| && Flat(lists)[m] == lists[i][k]
  {
    var n := |lists| - 1;
    if i < n {
      m := InFlat(lists[..n], i, k);
    } else {
      m := |Flat(lists[..n])| + k;
    }
  }

  lemma {:induction false} FromFlat<T>(lists: seq<seq<T>>, m: nat) returns (i: nat, k: nat)
    requires m < |Flat(lists)|
    ensures i < |lists| && k < |lists[i]| && Flat(lists)[m] == lists[i][k]
  {
    var n := |lists| - 1;
    if m < |Flat(lists[..n])| {
      i, k := FromFlat(lists[..n], m);
    } else {
      i, k := n, m - |Flat(lists[..n])|;
    }
  }

  /** All entries of all lists hold just when those of the joined list do. */
  lemma {:induction false} AllHoldTogether(after: Attrs, lists: seq<seq<Option<Delivery>>>)
    requires AllDecode(Flat(lists))
    ensures AllHold(after, Values(Flat(lists))) <==>
            forall i, k :: 0 <= i < |lists| && 0 <= k < |lists[i]| ==> lists[i][k].Some? && Holds(after, lists[i][k].value)
  {
    var all := Flat(lists);
    if AllHold(after, Values(all)) {
      forall i, k | 0 <= i < |lists| && 0 <= k < |lists[i]|
        ensures lists[i][k].Some? && Holds(after, lists[i][k].value)
      {
        var m := InFlat(lists, i, k);
        assert Values(all)[m] == all[m].value;
      }
    } else {
      var m :| 0 <= m < |all| && !Holds(after, Values(all)[m]);
      var i, k := FromFlat(lists, m);
      assert Values(all)[m] == lists[i][k].value;
    }
  }

  /** After a complete restore of several buffers every comparison is good if and only if
      duplicates agree, in one buffer or across them, and each buffer has as many entries
      as the file then has names, those of all buffers and those it had before. */
  lemma {:induction false} CompareAfterRestoringAll(lists: seq<seq<Option<Delivery>>>, accepts: Acceptance, attrs: Attrs)
    requires lists != [] && RestoredAll(lists, accepts, attrs).1
    ensures AllDecode(Flat(lists))
    ensures var ds := Values(Flat(lists));
            && RestoredAll(lists, accepts, attrs).0 == Override(attrs, ds)
            && (AllAgree(Override(attrs, ds), lists) <==>
                && Consistent(ds)
                && forall i :: 0 <= i < |lists| ==> |lists[i]| == |attrs.Keys + ToSet(Names(ds))|)
  {
    hide Walked, RestoredAll, Flat, Consistent, Holds, Override, Values;
    RestoredAllIsOneRestore(lists, accepts, attrs);
    GoodRestore(Flat(lists), accepts, attrs);
    var ds := Values(Flat(lists));
    var after := Override(attrs, ds);
    OverrideHolds(attrs, ds);
    OverrideKeys(attrs, ds);
    AllHoldTogether(after, lists);
    assert |after| == |after.Keys|;
  }

  /** A file of which no name was dumped twice, restored without earlier attributes: the
      comparison with one buffer is good if and only if all others are empty. A file with
      attributes both in its inode and in a block is reported as changed, twice. */
  lemma {:induction false} SeparateBuffersFail(lists: seq<seq<Option<Delivery>>>, accepts: Acceptance, i: nat)
    requires i < |lists| && RestoredAll(lists, accepts, map[]).1
    ensures AllDecode(Flat(lists))
    ensures Distinct(Names(Values(Flat(lists)))) ==>
              (Agrees(RestoredAll(lists, accepts, map[]).0, lists[i]) <==>
               forall j :: 0 <= j < |lists| && j != i ==> lists[j] == [])
  {
    hide Walked, RestoredAll, Flat, Consistent, Holds, Override, Values, Distinct;
    var none: Attrs := map[];
    CompareAfterRestoringAll(lists, accepts, none);
    var all := Flat(lists);
    var ds := Values(all);
    var after := Override(none, ds);
    if Distinct(Names(ds)) {
      DistinctIsConsistent(ds);
      DistinctSize(Names(ds));
      OverrideHolds(none, ds);
      OverrideKeys(none, ds);
      AllHoldTogether(after, lists);
      assert none.Keys + ToSet(Names(ds)) == ToSet(Names(ds));
      assert |after| == |after.Keys| == |all|;
      FlatSize(lists, i);
    }
  }

  /** The two loops one after the other, on a file without attributes: if everything is
      restored and no name was dumped twice, the comparison is good if and only if there is
      at most one buffer, or nothing in any of them. */
  method ExtractThenCompare(file: File, tape: seq<seq<byte>>) returns (same: Status)
    requires AllReadable(tape)
    requires file.Valid() && file.listable && file.attrs == map[]
    requires RestoredAll(Lists(tape), file.accepts, map[]).1
    requires AllDecode(Flat(Lists(tape))) && Distinct(Names(Values(Flat(Lists(tape)))))
    modifies file
    ensures file.Valid() && file.attrs == Override(map[], Values(Flat(Lists(tape))))
    ensures same == GOOD <==> |tape| <= 1 || forall j :: 0 <= j < |tape| ==> Lists(tape)[j] == []
  {
    hide Contents, ReachedInside, CopiesInside, RestoredAll, Flat, Distinct, Agrees, Override, Values, Lists;
    ghost var lists := Lists(tape);
    if tape != [] {
      CompareAfterRestoringAll(lists, file.accepts, map[]);
    } else {
      NothingRestored(file.accepts);
    }
    forall i | 0 <= i < |lists|
      ensures Agrees(RestoredAll(lists, file.accepts, map[]).0, lists[i]) <==>
              forall j :: 0 <= j < |lists| && j != i ==> lists[j] == []
    {
      SeparateBuffersFail(lists, file.accepts, i);
    }
    ExtractAttr(file, tape);
    same := CompareAttr(file, tape);
    if |lists| > 1 && AllAgree(file.attrs, lists) {
      assert Agrees(file.attrs, lists[0]) && Agrees(file.attrs, lists[1]);
    }
  }

  lemma NothingRestored(accepts: Acceptance)
    ensures RestoredAll([], accepts, map[]).0 == map[] == Override(map[], Values(Flat([])))
  {
  }

  lemma {:induction false} FlatSize<T>(lists: seq<seq<T>>, i: nat)
    requires i < |lists|
    ensures |lists[i]| <= |Flat(lists)|
    ensures |lists[i]| == |Flat(lists)| <==> forall j :: 0 <= j < |lists| && j != i ==> lists[j] == []
  {
    var n := |lists| - 1;
    if i < n {
      FlatSize(lists[..n], i);
    } else if n > 0 {
      FlatIsEmpty(lists[..n]);
    }
  }

  lemma {:induction false} FlatIsEmpty<T>(lists: seq<seq<T>>)
    ensures Flat(lists) == [] <==> forall j :: 0 <= j < |lists| ==> lists[j] == []
  {
    if lists != [] {
      FlatIsEmpty(lists[..|lists| - 1]);
    }
  }

  const OTHER := Attribute(INDEX_USER, [98], [1], 0, 0)

  /** One attribute in the inode and another in a block: everything is restored, and the
      comparison with either buffer fails. */
  lemma {:induction false} InodeAndBlockFail()
    ensures AllStorable([ONE]) && Fits(InInode, [ONE]) && AllStorable([OTHER]) && Fits(Block, [OTHER])
    ensures var tape, accepts: Acceptance := [Serialise(InInode, [ONE]), Serialise(Block, [OTHER])], (_, _, _) => true;
            && AllReadable(tape)
            && var (after, restored) := RestoredAll(Lists(tape), accepts, map[]);
            && restored && !Agrees(after, Lists(tape)[0]) && !Agrees(after, Lists(tape)[1])
  {
    hide Serialise, Contents, Walked, Override, RestoredAll, Agrees, Distinct, Meanings;
    var accepts: Acceptance := (_, _, _) => true;
    OneFits();
    SerialiseRoundTrip(InInode, [ONE]);
    SerialiseRoundTrip(Block, [OTHER]);
    var lists := [Meanings([ONE]), Meanings([OTHER])];
    assert Lists([Serialise(InInode, [ONE]), Serialise(Block, [OTHER])]) == lists;
    FlatOfTwo(lists[0], lists[1]);
    NamesDiffer();
    RestoredAllIsOneRestore(lists, accepts, map[]);
    GoodRestore(Flat(lists), accepts, map[]);
    SeparateBuffersFail(lists, accepts, 0);
    SeparateBuffersFail(lists, accepts, 1);
  }

  lemma OneFits()
    ensures AllStorable([ONE]) && Fits(InInode, [ONE]) && AllStorable([OTHER]) && Fits(Block, [OTHER])
  {
    assert [ONE][1..] == [] && [OTHER][1..] == [];
    assert AreaSize([]) == 4 && ValuesSize([]) == 0;
    assert EntryLen(1) == 20;
  }

  lemma FlatOfTwo<T>(a: seq<T>, b: seq<T>)
    ensures Flat([a, b]) == a + b
  {
    assert [a, b][..1] == [a] && [a][..0] == [];
    assert Flat([a]) == [] + a == a;
  }

  lemma NamesDiffer()
    ensures var entries := Meanings([ONE]) + Meanings([OTHER]);
            AllDecode(entries) && Distinct(Names(Values(entries)))
  {
    FullNamesAreDistinct(INDEX_USER, [97], [1], INDEX_USER, [98], [1]);
    var s: seq<byte>, t: seq<byte> := [97], [98];
    assert s[0] != t[0];
    var entries := Meanings([ONE]) + Meanings([OTHER]);
    assert |entries| == 2;
    assert entries[0] == Meaning(INDEX_USER, [97], [1]) && entries[1] == Meaning(INDEX_USER, [98], [1]);
  }
}
