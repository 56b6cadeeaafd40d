// Cipher block chaining, as section 6.2 of NIST SP 800-38A defines it, over an
// arbitrary invertible block function on 8-byte blocks (rmt/cipher.c uses Blowfish).

module Cbc {

  const BLOCKSIZE := 8

  type Block = s: seq<bv8> | |s| == BLOCKSIZE witness seq(BLOCKSIZE, _ => 0)

  datatype BlockCipher = BlockCipher(forward: Block -> Block, inverse: Block -> Block)

  ghost predicate Invertible(bc: BlockCipher) {
    forall b: Block :: bc.inverse(bc.forward(b)) == b
  }

  predicate Whole(s: seq<bv8>) {
    |s| % BLOCKSIZE == 0
  }

  function Xor(a: Block, b: Block): Block {
    seq(BLOCKSIZE, i requires 0 <= i < BLOCKSIZE => a[i] ^ b[i])
  }

  lemma XorTwice(a: Block, b: Block)
    ensures Xor(Xor(a, b), b) == a
  {
    forall i | 0 <= i < BLOCKSIZE
      ensures (a[i] ^ b[i]) ^ b[i] == a[i]
    {
    }
  }

  /** Each ciphertext block is the image of the plaintext block xor the previous
      ciphertext block, the first time the initialisation vector. */
  function Encrypt(bc: BlockCipher, iv: Block, p: seq<bv8>): (c: seq<bv8>)
    requires Whole(p)
    ensures |c| == |p|
    decreases |p|
  {
    if p == [] then []
    else
      var first := bc.forward(Xor(p[..BLOCKSIZE], iv));
      first + Encrypt(bc, first, p[BLOCKSIZE..])
  }

  function Decrypt(bc: BlockCipher, iv: Block, c: seq<bv8>): (p: seq<bv8>)
    requires Whole(c)
    ensures |p| == |c|
    decreases |c|
  {
    if c == [] then []
    else Xor(bc.inverse(c[..BLOCKSIZE]), iv) + Decrypt(bc, c[..BLOCKSIZE], c[BLOCKSIZE..])
  }

  /** The chaining value after some ciphertext: its last block. */
  function LastBlock(iv: Block, c: seq<bv8>): Block
    requires Whole(c)
  {
    if c == [] then iv else c[|c| - BLOCKSIZE..]
  }

  lemma LastBlockConcat(iv: Block, c: seq<bv8>, d: seq<bv8>)
    requires Whole(c) && Whole(d)
    ensures LastBlock(iv, c + d) == LastBlock(LastBlock(iv, c), d)
  {
  }

  lemma {:induction false} EncryptConcat(bc: BlockCipher, iv: Block, p: seq<bv8>, q: seq<bv8>)
    requires Whole(p) && Whole(q)
    ensures Encrypt(bc, iv, p + q)
         == Encrypt(bc, iv, p) + Encrypt(bc, LastBlock(iv, Encrypt(bc, iv, p)), q)
    decreases |p|
  {
    if p == [] {
      assert p + q == q;
    } else {
      var first := bc.forward(Xor(p[..BLOCKSIZE], iv));
      var rest := Encrypt(bc, first, p[BLOCKSIZE..]);
      assert (p + q)[..BLOCKSIZE] == p[..BLOCKSIZE] && (p + q)[BLOCKSIZE..] == p[BLOCKSIZE..] + q;
      EncryptConcat(bc, first, p[BLOCKSIZE..], q);
      LastBlockConcat(iv, first, rest);
    }
  }

  lemma {:induction false} DecryptConcat(bc: BlockCipher, iv: Block, c: seq<bv8>, d: seq<bv8>)
    requires Whole(c) && Whole(d)
    ensures Decrypt(bc, iv, c + d) == Decrypt(bc, iv, c) + Decrypt(bc, LastBlock(iv, c), d)
    decreases |c|
  {
    if c == [] {
      assert c + d == d;
    } else {
      var first, rest := c[..BLOCKSIZE], c[BLOCKSIZE..];
      assert (c + d)[..BLOCKSIZE] == first && (c + d)[BLOCKSIZE..] == rest + d;
      DecryptConcat(bc, first, rest, d);
      LastBlockConcat(iv, first, rest);
      assert c == first + rest;
    }
  }

  lemma {:induction false} DecryptEncrypt(bc: BlockCipher, iv: Block, p: seq<bv8>)
    requires Whole(p) && Invertible(bc)
    ensures Decrypt(bc, iv, Encrypt(bc, iv, p)) == p
    decreases |p|
  {
    if p != [] {
      var x: Block := p[..BLOCKSIZE];
      var first := bc.forward(Xor(x, iv));
      var c := Encrypt(bc, iv, p);
      assert c[..BLOCKSIZE] == first && c[BLOCKSIZE..] == Encrypt(bc, first, p[BLOCKSIZE..]);
      XorTwice(x, iv);
      DecryptEncrypt(bc, first, p[BLOCKSIZE..]);
      assert p == x + p[BLOCKSIZE..];
    }
  }

  // ---------------------------------------------------------------------
  // The equations of the standard, block by block.
  // ---------------------------------------------------------------------

  /** Block k of some data. */
  function BlockAt(s: seq<bv8>, k: nat): (b: Block)
    requires 8 * k + 8 <= |s|
  {
    s[8 * k..8 * k + 8]
  }

  /** Each byte of z is the exclusive or of those of x and y. */
  ghost predicate IsXor(z: Block, x: Block, y: Block) {
    forall i :: 0 <= i < 8 ==> z[i] == x[i] ^ y[i]
  }

  lemma XorIsUnique(z: Block, x: Block, y: Block)
    ensures IsXor(z, x, y) <==> z == Xor(x, y)
  {
  }

  lemma {:induction false} BlocksAfterFirst(s: seq<bv8>, k: nat)
    requires k > 0 && 8 * k + 8 <= |s|
    ensures BlockAt(s[8..], k - 1) == BlockAt(s, k)
  {
  }

  /** Ciphertext block k is the image of plaintext block k xor ciphertext block k - 1,
      the first time the initialisation vector. */
  lemma {:induction false} EncryptBlock(bc: BlockCipher, iv: Block, p: seq<bv8>, k: nat, z: Block)
    requires Whole(p) && 8 * k + 8 <= |p|
    requires IsXor(z, BlockAt(p, k), if k == 0 then iv else BlockAt(Encrypt(bc, iv, p), k - 1))
    ensures BlockAt(Encrypt(bc, iv, p), k) == bc.forward(z)
    decreases k
  {
    var c := Encrypt(bc, iv, p);
    var first := bc.forward(Xor(p[..BLOCKSIZE], iv));
    assert c[..8] == first && c[8..] == Encrypt(bc, first, p[8..]);
    if k == 0 {
      XorIsUnique(z, BlockAt(p, 0), iv);
    } else {
      BlocksAfterFirst(p, k);
      BlocksAfterFirst(c, k);
      if k == 1 {
        assert BlockAt(c, 0) == first;
      } else {
        BlocksAfterFirst(c, k - 1);
      }
      EncryptBlock(bc, first, p[8..], k - 1, z);
    }
  }

  /** Plaintext block k is the inverse image of ciphertext block k, xor ciphertext block
      k - 1. */
  lemma {:induction false} DecryptBlock(bc: BlockCipher, iv: Block, c: seq<bv8>, k: nat)
    requires Whole(c) && 8 * k + 8 <= |c|
    ensures IsXor(BlockAt(Decrypt(bc, iv, c), k), bc.inverse(BlockAt(c, k)), if k == 0 then iv else BlockAt(c, k - 1))
    decreases k
  {
    var p := Decrypt(bc, iv, c);
    var first := Xor(bc.inverse(c[..BLOCKSIZE]), iv);
    assert p[..8] == first && p[8..] == Decrypt(bc, c[..8], c[8..]);
    if k > 0 {
      BlocksAfterFirst(p, k);
      BlocksAfterFirst(c, k);
      if k > 1 {
        BlocksAfterFirst(c, k - 1);
      }
      DecryptBlock(bc, c[..8], c[8..], k - 1);
    }
  }
}
