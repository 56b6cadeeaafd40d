// A file's extended attributes, as the four system calls of restore/xattr.c see
// them, and the scan of a NUL-separated list of names.

module FileAttributes {
  import opened LittleEndian
  import opened Splitting

  type Attrs = map<string, seq<byte>>

  /** Which settings the system accepts; it may depend on what the file already has. */
  type Acceptance = (Attrs, string, seq<byte>) -> bool

  /** A C string that is not empty. */
  predicate IsName(name: string) {
    name != "" && '\0' !in name
  }

  /** The names one after another, each followed by a NUL. */
  function Join(names: seq<string>): string {
    if names == [] then "" else Join(names[..|names| - 1]) + names[|names| - 1] + "\0"
  }

  ghost predicate Distinct<T>(s: seq<T>) {
    forall i, j :: 0 <= i < j < |s| ==> s[i] != s[j]
  }

  function ToSet<T(!new)>(s: seq<T>): (r: set<T>)
    ensures forall x :: x in r <==> x in s
  {
    set x | x in s
  }

  /** Pigeonhole: as many values as places, just when none is repeated. */
  lemma {:induction false} DistinctSize<T(!new)>(s: seq<T>)
    ensures |ToSet(s)| <= |s|
    ensures |ToSet(s)| == |s| <==> Distinct(s)
  {
    if s != [] {
      var front, last := s[..|s| - 1], s[|s| - 1];
      DistinctSize(front);
      assert ToSet(s) == ToSet(front) + {last};
      assert s == front + [last];
      if |ToSet(s)| == |s| {
        assert last !in ToSet(front);
      }
    }
  }

  class File {
    var attrs: Attrs
    /** The order in which the names are listed: the system promises no particular one. */
    var order: seq<string>
    /** Which settings the system accepts, and whether it can list the names at all. */
    const accepts: Acceptance
    const listable: bool

    ghost predicate Valid()
      reads this
    {
      && Distinct(order)
      && (forall n :: n in order <==> n in attrs)
      && (forall n :: n in attrs ==> IsName(n))
    }

    constructor (accepts: Acceptance, listable: bool)
      ensures Valid() && attrs == map[]
      ensures this.accepts == accepts && this.listable == listable
    {
      attrs, order := map[], [];
      this.accepts, this.listable := accepts, listable;
    }

    lemma OrderSize()
      requires Valid()
      ensures |order| == |attrs|
    {
      DistinctSize(order);
      assert ToSet(order) == attrs.Keys;
    }

    method LSetXattr(name: string, value: seq<byte>) returns (ok: bool)
      requires Valid() && IsName(name)
      modifies this
      ensures Valid()
      ensures ok == accepts(old(attrs), name, value)
      ensures attrs == if ok then old(attrs)[name := value] else old(attrs)
    {
      ok := accepts(attrs, name, value);
      if ok {
        if name !in attrs {
          order := order + [name];
        }
        attrs := attrs[name := value];
      }
    }

    method LGetXattr(name: string, size: nat) returns (value: Option<seq<byte>>)
      ensures value.Some? <==> name in attrs && |attrs[name]| <= size
      ensures value.Some? ==> value.value == attrs[name]
    {
      value := if name in attrs && |attrs[name]| <= size then Some(attrs[name]) else None;
    }

    /** A size of 0 asks only for the length of the list. */
    method LListXattr(names: array?<char>, size: nat) returns (count: int)
      requires Valid()
      requires if names == null then size == 0 else size <= names.Length
      modifies names
      ensures count == if !listable || 0 < size < |Join(order)| then -1 else |Join(order)|
      ensures size == |Join(order)| && names != null && listable ==> names[..size] == Join(order)
    {
      var list := Join(order);
      if !listable || 0 < size < |list| {
        return -1;
      }
      count := |list|;
      if size > 0 {
        forall i | 0 <= i < |list| {
          names[i] := list[i];
        }
      }
    }
  }

  // ---------------------------------------------------------------------
  // Counting the names in a list.
  // ---------------------------------------------------------------------

  /** How many positions begin a non-empty name. */
  function Starts(list: string): nat {
    if list == "" then 0
    else
      var n := |list| - 1;
      Starts(list[..n]) + if list[n] != '\0' && (n == 0 || list[n - 1] == '\0') then 1 else 0
  }

  predicate Terminated(list: string) {
    list == "" || list[|list| - 1] == '\0'
  }

  lemma StartsStep(list: string, n: nat)
    requires n < |list|
    ensures Starts(list[..n + 1])
         == Starts(list[..n]) + if list[n] != '\0' && (n == 0 || list[n - 1] == '\0') then 1 else 0
  {
    assert list[..n + 1][..n] == list[..n];
  }

  /** The pointer loop: the list, whose length is `end`, is followed by one more NUL
      that is never reached, because the scan stops at `end` itself. */
  method CountNames(names: array<char>, end: nat) returns (count: nat)
    requires end < names.Length && Terminated(names[..end])
    ensures count == Starts(names[..end])
  {
    ghost var list := names[..end];
    count := 0;
    var name := 0;
    while name != end
      invariant 0 <= name <= end
      invariant Terminated(list[..name]) && count == Starts(list[..name])
      decreases end - name
    {
      var p := name;
      while names[p] != '\0'
        invariant name <= p < end
        invariant forall i :: name <= i < p ==> list[i] != '\0'
        invariant Starts(list[..p]) == Starts(list[..name]) + if p > name then 1 else 0
        decreases end - p
      {
        StartsStep(list, p);
        assert list[end - 1] == '\0';
        p := p + 1;
      }
      StartsStep(list, p);
      if names[name] != '\0' {
        count := count + 1;
      }
      name := p + 1;
    }
    assert list[..end] == list;
  }

  lemma {:induction false} StartsOfName(before: string, name: string)
    requires Terminated(before) && '\0' !in name
    ensures Starts(before + name) == Starts(before) + if name == "" then 0 else 1
    decreases |name|
  {
    if name == "" {
      assert before + name == before;
    } else {
      var n := |name| - 1;
      StartsOfName(before, name[..n]);
      assert (before + name)[..|before| + n] == before + name[..n];
    }
  }

  lemma StartsOfEnd(list: string)
    ensures Starts(list + "\0") == Starts(list)
  {
    assert (list + "\0")[..|list|] == list;
  }

  lemma {:induction false} StartsOfJoin(names: seq<string>)
    requires forall n :: n in names ==> IsName(n)
    ensures Terminated(Join(names)) && Starts(Join(names)) == |names|
  {
    if names != [] {
      hide Starts;
      var front, last := names[..|names| - 1], names[|names| - 1];
      assert names == front + [last] && last in names;
      assert forall n :: n in front ==> n in names;
      StartsOfJoin(front);
      StartsOfName(Join(front), last);
      StartsOfEnd(Join(front) + last);
    }
  }

  /** Split at its NULs, the list of some names is those names, in order. */
  lemma {:induction false} JoinSplits(names: seq<string>)
    requires forall n :: n in names ==> IsName(n)
    ensures Split(Join(names), '\0') == names + [""]
  {
    hide Split;
    if names == [] {
      SplitWhole("", '\0');
    } else {
      var front, last := names[..|names| - 1], names[|names| - 1];
      assert names == front + [last] && last in names;
      assert forall n :: n in front ==> n in names;
      JoinSplits(front);
      SplitExtended(Join(front), last, '\0');
      assert "" + last == last && Extended(front + [""], last) == names;
      SplitAppended(Join(front) + last, "", '\0');
      assert Join(front) + last + ['\0'] + "" == Join(names);
    }
  }
}
