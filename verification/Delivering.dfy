// Delivering decoded attributes one after another to a callback: what restoring a
// list of attributes leaves behind, and what comparing one with a file decides
// (restore/xattr.c). No bytes here: an entry is already decoded, or undecodable.

module Delivering {
  import opened LittleEndian
  import opened FileAttributes

  datatype Delivery = Delivery(name: string, value: seq<byte>)

  datatype Callback = Set | Compare

  ghost predicate Holds(attrs: Attrs, d: Delivery) {
    d.name in attrs && attrs[d.name] == d.value
  }

  /** One turn of the walk: the attributes it leaves, and whether the walk may go on. */
  ghost function Visited(entry: Option<Delivery>, cb: Callback, accepts: Acceptance, attrs: Attrs): (Attrs, bool) {
    match entry
    case None => (attrs, false)
    case Some(d) =>
      match cb
      case Set => if accepts(attrs, d.name, d.value) then (attrs[d.name := d.value], true) else (attrs, false)
      case Compare => (attrs, Holds(attrs, d))
  }

  ghost function Walked(entries: seq<Option<Delivery>>, cb: Callback, accepts: Acceptance, attrs: Attrs): (Attrs, bool) {
    if entries == [] then (attrs, true)
    else
      var (attrs', ok) := Visited(entries[0], cb, accepts, attrs);
      if !ok then (attrs', false) else Walked(entries[1..], cb, accepts, attrs')
  }

  /** A walk over a and then b: b is walked from what a leaves, if a was good. */
  lemma {:induction false} WalkedAppend(a: seq<Option<Delivery>>, b: seq<Option<Delivery>>, cb: Callback,
                                        accepts: Acceptance, attrs: Attrs)
    ensures Walked(a + b, cb, accepts, attrs)
         == var (attrs', ok) := Walked(a, cb, accepts, attrs);
            if ok then Walked(b, cb, accepts, attrs') else (attrs', false)
  {
    if a == [] {
      assert a + b == b;
    } else {
      WalkedAppend(a[1..], b, cb, accepts, Visited(a[0], cb, accepts, attrs).0);
      assert (a + b)[1..] == a[1..] + b;
    }
  }

  /** One more turn of a walk that has been good so far; when it fails, the walk ends. */
  lemma WalkedNext(entries: seq<Option<Delivery>>, k: nat, cb: Callback, accepts: Acceptance, attrs: Attrs)
    requires k < |entries| && Walked(entries[..k], cb, accepts, attrs).1
    ensures var after := Walked(entries[..k + 1], cb, accepts, attrs);
            && after == Visited(entries[k], cb, accepts, Walked(entries[..k], cb, accepts, attrs).0)
            && (!after.1 ==> Walked(entries, cb, accepts, attrs) == after)
  {
    assert entries[..k + 1] == entries[..k] + [entries[k]];
    assert entries == entries[..k + 1] + entries[k + 1..];
    WalkedAppend(entries[..k], [entries[k]], cb, accepts, attrs);
    WalkedAppend(entries[..k + 1], entries[k + 1..], cb, accepts, attrs);
  }

  lemma {:induction false} WalkedCompare(entries: seq<Option<Delivery>>, accepts: Acceptance, attrs: Attrs)
    ensures Walked(entries, Compare, accepts, attrs).0 == attrs
    ensures Walked(entries, Compare, accepts, attrs).1 <==>
            forall k :: 0 <= k < |entries| ==> entries[k].Some? && Holds(attrs, entries[k].value)
  {
    if entries != [] {
      WalkedCompare(entries[1..], accepts, attrs);
      assert forall k :: 1 <= k < |entries| ==> entries[k] == entries[1..][k - 1];
    }
  }

  predicate AllDecode(entries: seq<Option<Delivery>>) {
    forall k :: 0 <= k < |entries| ==> entries[k].Some?
  }

  function Values(entries: seq<Option<Delivery>>): (ds: seq<Delivery>)
    requires AllDecode(entries)
    ensures |ds| == |entries|
  {
    seq(|entries|, k requires 0 <= k < |entries| => entries[k].value)
  }

  /** A walk that is good delivered every entry. */
  lemma {:induction false} WalkedDecodes(entries: seq<Option<Delivery>>, cb: Callback, accepts: Acceptance, attrs: Attrs)
    requires Walked(entries, cb, accepts, attrs).1
    ensures AllDecode(entries)
  {
    if entries != [] {
      WalkedDecodes(entries[1..], cb, accepts, Visited(entries[0], cb, accepts, attrs).0);
      assert entries == [entries[0]] + entries[1..];
    }
  }

  // ---------------------------------------------------------------------
  // Attribute maps as lists of settings.
  // ---------------------------------------------------------------------

  /** The map after the settings ds, a later one overriding an earlier one. */
  function Override(attrs: Attrs, ds: seq<Delivery>): Attrs {
    if ds == [] then attrs
    else
      var last := ds[|ds| - 1];
      Override(attrs, ds[..|ds| - 1])[last.name := last.value]
  }

  function Names(ds: seq<Delivery>): (names: seq<string>)
    ensures |names| == |ds|
  {
    seq(|ds|, i requires 0 <= i < |ds| => ds[i].name)
  }

  lemma {:induction false} OverrideKeys(attrs: Attrs, ds: seq<Delivery>)
    ensures Override(attrs, ds).Keys == attrs.Keys + ToSet(Names(ds))
  {
    if ds == [] {
      assert Names(ds) == [];
    } else {
      var front := ds[..|ds| - 1];
      OverrideKeys(attrs, front);
      assert Names(ds) == Names(front) + [ds[|ds| - 1].name];
    }
  }

  /** Two settings of one name agree. */
  ghost predicate Consistent(ds: seq<Delivery>) {
    forall i, j :: 0 <= i < j < |ds| && ds[i].name == ds[j].name ==> ds[i].value == ds[j].value
  }

  ghost predicate AllHold(attrs: Attrs, ds: seq<Delivery>) {
    forall i :: 0 <= i < |ds| ==> Holds(attrs, ds[i])
  }

  lemma {:induction false} OverrideHolds(attrs: Attrs, ds: seq<Delivery>)
    ensures AllHold(Override(attrs, ds), ds) <==> Consistent(ds)
  {
    if ds != [] {
      var n := |ds| - 1;
      var front, last := ds[..n], ds[n];
      OverrideHolds(attrs, front);
      if Consistent(ds) {
        assert Consistent(front);
        assert forall i :: 0 <= i < n ==> Holds(Override(attrs, front), front[i]);
        forall i | 0 <= i < |ds|
          ensures Holds(Override(attrs, ds), ds[i])
        {
          if i < n {
            assert Holds(Override(attrs, front), front[i]) && ds[i] == front[i];
          }
        }
      }
      if AllHold(Override(attrs, ds), ds) {
        var after := Override(attrs, ds);
        forall i, j | 0 <= i < j < |ds| && ds[i].name == ds[j].name
          ensures ds[i].value == ds[j].value
        {
          assert Holds(after, ds[i]) && Holds(after, ds[j]);
        }
      }
    }
  }

  // ---------------------------------------------------------------------
  // Restoring.
  // ---------------------------------------------------------------------

  /** The entries up to k decode, and the system takes setting k once those before it
      have been made. */
  ghost predicate SettableAt(entries: seq<Option<Delivery>>, k: nat, accepts: Acceptance, attrs: Attrs)
    requires k < |entries|
  {
    && AllDecode(entries[..k + 1])
    && var d := entries[k].value; accepts(Override(attrs, Values(entries[..k])), d.name, d.value)
  }

  /** The first entry, from k on, that cannot be set. */
  ghost function FirstFailure(entries: seq<Option<Delivery>>, accepts: Acceptance, attrs: Attrs, k: nat): (n: nat)
    requires k <= |entries|
    ensures k <= n <= |entries|
    ensures forall j :: k <= j < n ==> SettableAt(entries, j, accepts, attrs)
    ensures n < |entries| ==> !SettableAt(entries, n, accepts, attrs)
    decreases |entries| - k
  {
    if k == |entries| || !SettableAt(entries, k, accepts, attrs) then k
    else FirstFailure(entries, accepts, attrs, k + 1)
  }

  /** A restore delivers the entries in order and stops at the first that fails: the
      attributes are the old ones overridden by exactly the n entries before it, and
      the result is good just when there was no such entry. */
  lemma {:induction false} RestoreIsAnOrderedPrefix(entries: seq<Option<Delivery>>, accepts: Acceptance, attrs: Attrs)
    returns (n: nat)
    ensures n <= |entries|
    ensures forall k :: 0 <= k < n ==> SettableAt(entries, k, accepts, attrs)
    ensures n < |entries| ==> !SettableAt(entries, n, accepts, attrs)
    ensures AllDecode(entries[..n])
    ensures Walked(entries, Set, accepts, attrs) == (Override(attrs, Values(entries[..n])), n == |entries|)
  {
    n := FirstFailure(entries, accepts, attrs, 0);
    WalkedPrefix(entries, n, accepts, attrs);
    if n == |entries| {
      assert entries[..n] == entries;
    } else {
      WalkedAppend(entries[..n], entries[n..], Set, accepts, attrs);
      assert entries == entries[..n] + entries[n..] && entries[n..][0] == entries[n];
      assert entries[..n + 1] == entries[..n] + [entries[n]];
    }
  }

  /** Walking k entries that can all be set. */
  lemma {:induction false} WalkedPrefix(entries: seq<Option<Delivery>>, k: nat, accepts: Acceptance, attrs: Attrs)
    requires k <= |entries|
    requires forall j :: 0 <= j < k ==> SettableAt(entries, j, accepts, attrs)
    ensures AllDecode(entries[..k])
    ensures Walked(entries[..k], Set, accepts, attrs) == (Override(attrs, Values(entries[..k])), true)
  {
    if k > 0 {
      WalkedPrefix(entries, k - 1, accepts, attrs);
      assert SettableAt(entries, k - 1, accepts, attrs);
      assert entries[..k] == entries[..k - 1] + [entries[k - 1]];
      WalkedAppend(entries[..k - 1], [entries[k - 1]], Set, accepts, attrs);
      assert Values(entries[..k])[..k - 1] == Values(entries[..k - 1]);
    }
  }

  // ---------------------------------------------------------------------
  // Comparing.
  // ---------------------------------------------------------------------

  /** The comparison of a file with some entries: as many attributes as entries, and
      every entry decodes and holds. */
  ghost predicate Agrees(attrs: Attrs, entries: seq<Option<Delivery>>) {
    && |attrs| == |entries|
    && forall k :: 0 <= k < |entries| ==> entries[k].Some? && Holds(attrs, entries[k].value)
  }

  lemma DistinctIsConsistent(ds: seq<Delivery>)
    requires Distinct(Names(ds))
    ensures Consistent(ds)
  {
    assert forall i :: 0 <= i < |ds| ==> Names(ds)[i] == ds[i].name;
  }

  lemma CountedInclusionIsEquality(attrs: Attrs, ds: seq<Delivery>)
    requires |attrs| == |ds| && AllHold(attrs, ds) && Distinct(Names(ds))
    ensures attrs == Override(map[], ds)
  {
    var names, same: Attrs := Names(ds), Override(map[], ds);
    OverrideKeys(map[], ds);
    DistinctIsConsistent(ds);
    OverrideHolds(map[], ds);
    DistinctSize(names);
    assert same.Keys == ToSet(names);
    forall n | n in names
      ensures n in attrs && attrs[n] == same[n]
    {
      var i :| 0 <= i < |names| && names[i] == n;
      assert Holds(attrs, ds[i]) && Holds(same, ds[i]);
    }
    assert same.Keys <= attrs.Keys && |same.Keys| == |attrs.Keys|;
    EqualBySize(same.Keys, attrs.Keys);
  }

  lemma EqualBySize<T>(s: set<T>, t: set<T>)
    requires s <= t && |s| == |t|
    ensures s == t
  {
    assert |t - s| == |t| - |s|;
  }
}
