// Dump records as 256 words of 32 bits, their header fields
// (compat/include/protocols/dumprestore.h) and the header checksum
// (common/indexer_test.c, restore/tape.c).

module DumpRecord {

  const MODULUS := 0x1_0000_0000

  type word = x: int | 0 <= x < MODULUS

  const WORDS := 256
  const CHECKSUM: word := 84446

  // Word offsets of the header fields that are used here; the mode is the low
  // half of its word.
  const C_TYPE := 0
  const C_DATE := 1
  const C_INUMBER := 5
  const C_MAGIC := 6
  const C_CHECKSUM := 7
  const DI_MODE := 8
  const C_FLAGS := 222

  const TS_INODE: word := 2
  const TS_END: word := 5
  const NFS_MAGIC: word := 60012
  const DR_COMPRESSED: word := 0x0080
  const DR_EXTATTRIBUTES: word := 0x8000
  const S_IFIFO: word := 0x1000
  const S_IFCHR: word := 0x2000
  const S_IFDIR: word := 0x4000
  const S_IFBLK: word := 0x6000
  const S_IFREG: word := 0x8000
  const S_IFLNK: word := 0xA000
  const S_IFSOCK: word := 0xC000

  type Record = s: seq<word> | |s| == WORDS witness seq(WORDS, _ => 0)

  // ---------------------------------------------------------------------
  // Single bits of a word.
  // ---------------------------------------------------------------------

  predicate Has(w: word, bit: word)
    requires bit > 0
  {
    w / bit % 2 == 1
  }

  function Without(w: word, bit: word): (r: word)
    requires bit > 0
    ensures r == w || r + bit == w
  {
    if Has(w, bit) then BitIsBelow(w, bit); w - bit else w
  }

  lemma BitIsBelow(w: word, bit: word)
    requires bit > 0 && Has(w, bit)
    ensures bit <= w
  {
  }

  /** Two bits that are tested, in a word split at the bit: what is above it, the
      bit itself, and what is below. */
  lemma CompressedBit(high: nat, b: nat, low: nat)
    requires b < 2 && low < 0x80 && high * 0x100 + b * 0x80 + low < MODULUS
    ensures Has(high * 0x100 + b * 0x80 + low, DR_COMPRESSED) <==> b == 1
    ensures Without(high * 0x100 + b * 0x80 + low, DR_COMPRESSED) == high * 0x100 + low
  {
  }

  lemma ExtAttributesBit(high: nat, b: nat, low: nat)
    requires b < 2 && low < 0x8000 && high * 0x1_0000 + b * 0x8000 + low < MODULUS
    ensures Has(high * 0x1_0000 + b * 0x8000 + low, DR_EXTATTRIBUTES) <==> b == 1
  {
  }

  /** The file-type field of a mode, without the permission bits. */
  function FileType(mode: word): word {
    mode % 0x1_0000 / 0x1000 * 0x1000
  }

  // ---------------------------------------------------------------------
  // The checksum.
  // ---------------------------------------------------------------------

  /** 32-bit addition, which wraps around. */
  function Add(a: word, b: word): word {
    (a + b) % MODULUS
  }

  function Total(s: seq<word>): nat {
    if s == [] then 0 else Total(s[..|s| - 1]) + s[|s| - 1]
  }

  /** What adding the words up one after another gives. */
  function Sum(s: seq<word>): word {
    Total(s) % MODULUS
  }

  /** Adding up is determined by this: a word counts once, wherever the words are split. */
  lemma {:induction false} TotalOfParts(s: seq<word>, t: seq<word>, w: word)
    ensures Total([w]) == w
    ensures Total(s + t) == Total(s) + Total(t)
    decreases |t|
  {
    assert [w][..0] == [];
    if t == [] {
      assert s + t == s;
    } else {
      var n := |t| - 1;
      TotalOfParts(s, t[..n], w);
      assert (s + t)[..|s| + n] == s + t[..n];
    }
  }

  lemma SumOneMore(s: seq<word>, n: nat)
    requires n < |s|
    ensures Sum(s[..n + 1]) == Add(Sum(s[..n]), s[n])
  {
    assert s[..n + 1][..n] == s[..n];
  }

  lemma {:induction false} TotalUpdate(s: seq<word>, i: nat, v: word)
    requires i < |s|
    ensures Total(s[i := v]) == Total(s) - s[i] + v
  {
    var n := |s| - 1;
    var t := s[i := v];
    if i == n {
      assert t[..n] == s[..n];
    } else {
      TotalUpdate(s[..n], i, v);
      assert t[..n] == s[..n][i := v];
    }
  }

  /** The record with its checksum word set so that all words sum to CHECKSUM. */
  function Checksummed(r: Record): Record {
    r[C_CHECKSUM := (CHECKSUM - Sum(r[C_CHECKSUM := 0])) % MODULUS]
  }

  /** Four words at a time, on the record with its checksum word cleared. */
  method MkChecksum(rec: array<word>)
    requires rec.Length == WORDS
    modifies rec
    ensures rec[..] == Checksummed(old(rec[..]))
  {
    ghost var was: Record := rec[..];
    rec[C_CHECKSUM] := 0;
    ghost var r := rec[..];
    var sum: word := 0;
    var lp := 0;
    var cnt := WORDS / 4 - 1;
    while cnt >= 0
      invariant -1 <= cnt < WORDS / 4 && lp == WORDS - 4 * (cnt + 1)
      invariant rec[..] == r && sum == Sum(r[..lp])
    {
      SumOneMore(r, lp);
      SumOneMore(r, lp + 1);
      SumOneMore(r, lp + 2);
      SumOneMore(r, lp + 3);
      sum := Add(sum, rec[lp]);
      sum := Add(sum, rec[lp + 1]);
      sum := Add(sum, rec[lp + 2]);
      sum := Add(sum, rec[lp + 3]);
      lp := lp + 4;
      cnt := cnt - 1;
    }
    assert r[..WORDS] == r == was[C_CHECKSUM := 0];
    rec[C_CHECKSUM] := (CHECKSUM - sum) % MODULUS;
    assert rec[..] == r[C_CHECKSUM := (CHECKSUM - sum) % MODULUS];
  }

  /** The reader's test, one word at a time. */
  method Checksum(buf: array<word>) returns (good: bool)
    requires buf.Length == WORDS
    ensures good <==> Sum(buf[..]) == CHECKSUM
  {
    ghost var r := buf[..];
    var sum: word := 0;
    for i := 0 to WORDS
      invariant sum == Sum(r[..i])
    {
      SumOneMore(r, i);
      sum := Add(sum, buf[i]);
    }
    assert r[..WORDS] == r;
    good := sum == CHECKSUM;
  }

  /** Among the records that differ from r in the checksum word at most, Checksummed(r)
      is the one and only that the reader accepts. */
  lemma ChecksumIsTheOnlyOne(r: Record, w: word)
    ensures Sum(r[C_CHECKSUM := w]) == CHECKSUM <==> r[C_CHECKSUM := w] == Checksummed(r)
  {
    var z := r[C_CHECKSUM := 0];
    TotalUpdate(z, C_CHECKSUM, w);
    assert z[C_CHECKSUM := w] == r[C_CHECKSUM := w];
    Complement(Total(z), w);
    assert r[C_CHECKSUM := w][C_CHECKSUM] == w;
  }

  lemma Complement(t: nat, w: word)
    ensures (t + w) % MODULUS == CHECKSUM <==> w == (CHECKSUM - t % MODULUS) % MODULUS
  {
  }

  lemma ChecksumIsAccepted(r: Record)
    ensures Sum(Checksummed(r)) == CHECKSUM
    ensures Checksummed(Checksummed(r)) == Checksummed(r)
  {
    ChecksumIsTheOnlyOne(r, Checksummed(r)[C_CHECKSUM]);
    assert Checksummed(r)[C_CHECKSUM := 0] == r[C_CHECKSUM := 0];
  }

  /** Changing one word of an accepted record is always detected. */
  lemma OneWordChangeIsDetected(r: Record, i: nat, v: word)
    requires i < WORDS && Sum(r) == CHECKSUM
    ensures Sum(r[i := v]) == CHECKSUM <==> v == r[i]
  {
    TotalUpdate(r, i, v);
  }
}
