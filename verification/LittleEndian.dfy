// Unsigned little-endian words inside byte strings, and an option type.

module LittleEndian {

  datatype Option<+T> = None | Some(value: T)

  type byte = x: int | 0 <= x < 256
  type u16 = x: int | 0 <= x < 0x1_0000
  type u32 = x: int | 0 <= x < 0x1_0000_0000

  function U16(s: seq<byte>, at: nat): u16
    requires at + 2 <= |s|
  {
    s[at] as int + 256 * (s[at + 1] as int)
  }

  function U32(s: seq<byte>, at: nat): u32
    requires at + 4 <= |s|
  {
    U16(s, at) as int + 0x1_0000 * (U16(s, at + 2) as int)
  }

  function Put16(n: u16): (s: seq<byte>)
    ensures |s| == 2 && U16(s, 0) == n
  {
    [n % 256, n / 256]
  }

  function Put32(n: u32): (s: seq<byte>)
    ensures |s| == 4 && U32(s, 0) == n
  {
    Put16(n % 0x1_0000) + Put16(n / 0x1_0000)
  }

  /** The lowest byte comes first. */
  lemma WordsInBytes(s: seq<byte>, at: nat)
    requires at + 4 <= |s|
    ensures U16(s, at) as int == s[at] as int + 0x100 * s[at + 1] as int
    ensures U32(s, at) as int
         == s[at] as int + 0x100 * s[at + 1] as int + 0x1_0000 * s[at + 2] as int + 0x100_0000 * s[at + 3] as int
    ensures U32(s, at) == 0 <==> s[at] == 0 && s[at + 1] == 0 && s[at + 2] == 0 && s[at + 3] == 0
  {
  }

  /** The bytes of a word are determined by its value. */
  lemma Put16Of(s: seq<byte>, at: nat)
    requires at + 2 <= |s|
    ensures s[at..at + 2] == Put16(U16(s, at))
  {
    assert s[at..at + 2] == [s[at], s[at + 1]];
  }

  lemma Put32Of(s: seq<byte>, at: nat)
    requires at + 4 <= |s|
    ensures s[at..at + 4] == Put32(U32(s, at))
  {
    Put16Of(s, at);
    Put16Of(s, at + 2);
    var n := U32(s, at);
    assert n % 0x1_0000 == U16(s, at) && n / 0x1_0000 == U16(s, at + 2);
    assert s[at..at + 4] == s[at..at + 2] + s[at + 2..at + 4];
  }

  /** A word read from a longer string whose bytes there are known. */
  lemma U16Slice(s: seq<byte>, at: nat, n: u16)
    requires at + 2 <= |s| && s[at..at + 2] == Put16(n)
    ensures U16(s, at) == n
  {
    assert s[at] == s[at..at + 2][0] && s[at + 1] == s[at..at + 2][1];
  }

  lemma U32Slice(s: seq<byte>, at: nat, n: u32)
    requires at + 4 <= |s| && s[at..at + 4] == Put32(n)
    ensures U32(s, at) == n
  {
    var w := s[at..at + 4];
    assert s[at] == w[0] && s[at + 1] == w[1] && s[at + 2] == w[2] && s[at + 3] == w[3];
  }

  /** s stands in b, from `at` on. */
  ghost predicate HoldsAt(b: seq<byte>, at: nat, s: seq<byte>) {
    at + |s| <= |b| && b[at..at + |s|] == s
  }

  lemma HoldsPart(b: seq<byte>, at: nat, s: seq<byte>, i: nat, j: nat)
    requires HoldsAt(b, at, s) && i <= j <= |s|
    ensures HoldsAt(b, at + i, s[i..j])
  {
    forall k | i <= k < j
      ensures b[at + k] == s[k]
    {
      assert s[k] == b[at..at + |s|][k];
    }
  }

  lemma HoldsConcat(b: seq<byte>, at: nat, s: seq<byte>, t: seq<byte>)
    ensures HoldsAt(b, at, s + t) <==> HoldsAt(b, at, s) && HoldsAt(b, at + |s|, t)
  {
    if HoldsAt(b, at, s + t) {
      HoldsPart(b, at, s + t, 0, |s|);
      HoldsPart(b, at, s + t, |s|, |s + t|);
      assert (s + t)[0..|s|] == s && (s + t)[|s|..|s + t|] == t;
    }
    if HoldsAt(b, at, s) && HoldsAt(b, at + |s|, t) {
      assert b[at..at + |s + t|] == b[at..at + |s|] + b[at + |s|..at + |s| + |t|];
    }
  }

  /** A word read inside a part of a longer string. */
  lemma U16Within(s: seq<byte>, base: nat, part: seq<byte>, at: nat)
    requires HoldsAt(s, base, part) && at + 2 <= |part|
    ensures U16(s, base + at) == U16(part, at)
  {
    assert part[at] == s[base + at] && part[at + 1] == s[base + at + 1];
  }

  lemma U32Within(s: seq<byte>, base: nat, part: seq<byte>, at: nat)
    requires HoldsAt(s, base, part) && at + 4 <= |part|
    ensures U32(s, base + at) == U32(part, at)
  {
    U16Within(s, base, part, at);
    U16Within(s, base, part, at + 2);
  }

  /** The same words, read in place from a buffer. */
  function Load16(a: array<byte>, at: nat): (n: u16)
    requires at + 2 <= a.Length
    reads a
    ensures n == U16(a[..], at)
  {
    a[at] as int + 256 * (a[at + 1] as int)
  }

  function Load32(a: array<byte>, at: nat): (n: u32)
    requires at + 4 <= a.Length
    reads a
    ensures n == U32(a[..], at)
  {
    Load16(a, at) as int + 0x1_0000 * (Load16(a, at + 2) as int)
  }

  /** Copies s into the buffer at the given offset. */
  method Store(a: array<byte>, at: nat, s: seq<byte>)
    requires at + |s| <= a.Length
    modifies a
    ensures a[..] == Overwrite(old(a[..]), at, s)
  {
    for i := 0 to |s|
      invariant forall k :: 0 <= k < at ==> a[k] == old(a[k])
      invariant forall k :: 0 <= k < i ==> a[at + k] == s[k]
      invariant forall k :: at + i <= k < a.Length ==> a[k] == old(a[k])
    {
      a[at + i] := s[i];
    }
  }

  function Overwrite(was: seq<byte>, at: nat, s: seq<byte>): (r: seq<byte>)
    requires at + |s| <= |was|
    ensures |r| == |was|
  {
    was[..at] + s + was[at + |s|..]
  }

  /** The new bytes where they go, and the old ones everywhere else. */
  lemma OverwriteAt(was: seq<byte>, at: nat, s: seq<byte>, k: nat)
    requires at + |s| <= |was| && k < |was|
    ensures Overwrite(was, at, s)[k] == if at <= k < at + |s| then s[k - at] else was[k]
  {
  }

  lemma OverwriteNext(was: seq<byte>, done: seq<byte>, s: seq<byte>)
    requires |done| + |s| <= |was|
    ensures Overwrite(Overwrite(was, 0, done), |done|, s) == Overwrite(was, 0, done + s)
  {
  }
}
