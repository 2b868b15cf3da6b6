/** The stream cipher around an uninterpreted block function: keystream addressing. */
module Cipher {
  import opened BitOps

  type Key = k: seq<Byte> | |k| == 32 witness seq(32, _ => 0)
  type Nonce = n: seq<Byte> | |n| == 12 witness seq(12, _ => 0)
  type Keystream = s: seq<Byte> | |s| == 64 witness seq(64, _ => 0)

  /** The block function: key, nonce and 32-bit counter to 64 bytes. */
  type BlockFunction = (Key, Nonce, nat) -> Keystream

  const CHUNK_SIZE := 8192
  const BLOCK_SIZE := 64

  lemma ByteXor(a: Byte, b: Byte)
    ensures Xor(a, b) < 256
  {
    hide Xor, Pow2;
    Pow2Values();
    XorBound(a, b, 8);
  }

  function XorByte(a: Byte, b: Byte): Byte {
    ByteXor(a, b);
    Xor(a, b)
  }

  /** The counter of the block that byte `i` uses, in 32-bit arithmetic. */
  function CounterAt(counter: nat, i: nat): nat {
    (counter + i / BLOCK_SIZE) % WORD_32
  }

  function KeyByte(block: BlockFunction, key: Key, nonce: Nonce, counter: nat, i: nat): Byte {
    block(key, nonce, CounterAt(counter, i))[i % BLOCK_SIZE]
  }

  /** The data with its keystream added. */
  function Crypted(block: BlockFunction, key: Key, nonce: Nonce, counter: nat, data: seq<Byte>): (r: seq<Byte>)
    ensures |r| == |data|
  {
    seq(|data|, i requires 0 <= i < |data| => XorByte(data[i], KeyByte(block, key, nonce, counter, i)))
  }

  /** Decryption is encryption again. */
  lemma CryptedTwice(block: BlockFunction, key: Key, nonce: Nonce, counter: nat, data: seq<Byte>)
    ensures Crypted(block, key, nonce, counter, Crypted(block, key, nonce, counter, data)) == data
  {
    hide KeyByte, Xor;
    var once := Crypted(block, key, nonce, counter, data);
    var twice := Crypted(block, key, nonce, counter, once);
    forall i | 0 <= i < |data|
      ensures twice[i] == data[i]
    {
      var k := KeyByte(block, key, nonce, counter, i);
      XorAssociative(data[i], k, k);
      XorSelf(k);
      XorZero(data[i]);
    }
  }

  /** Adds the keystream in place, block by block. */
  method XCrypt(block: BlockFunction, key: Key, nonce: Nonce, counter: nat, data: array<Byte>)
    requires counter < WORD_32
    modifies data
    ensures data[..] == Crypted(block, key, nonce, counter, old(data[..]))
    ensures forall i :: 0 <= i < data.Length ==>
              data[i] == Xor(old(data[i]), block(key, nonce, (counter + i / 64) % WORD_32)[i % 64])
  {
    hide Xor;
    var ctr, off := counter, 0;
    var ks := block(key, nonce, ctr);
    for i := 0 to data.Length
      invariant off == i % BLOCK_SIZE && ctr == CounterAt(counter, i) && ks == block(key, nonce, ctr)
      invariant forall j :: 0 <= j < i ==> data[j] == XorByte(old(data[j]), KeyByte(block, key, nonce, counter, j))
      invariant forall j :: i <= j < data.Length ==> data[j] == old(data[j])
    {
      data[i] := XorByte(data[i], ks[off]);
      CounterStep(counter, i);
      if off == 63 {
        off := 0;
        ctr := (ctr + 1) % WORD_32;
        ks := block(key, nonce, ctr);
      } else {
        off := off + 1;
      }
    }
  }

  /** Encrypting zeros gives the blocks of the block function, one counter after the other. */
  method KeystreamBlocks(block: BlockFunction, key: Key, nonce: Nonce, counter: nat, n: nat) returns (s: seq<Byte>)
    requires counter < WORD_32
    ensures |s| == 64 * n
    ensures forall b :: 0 <= b < n ==> s[64 * b..64 * b + 64] == block(key, nonce, (counter + b) % WORD_32)
  {
    hide Xor, Crypted;
    var a := new Byte[64 * n](_ => 0);
    XCrypt(block, key, nonce, counter, a);
    s := a[..];
    forall b | 0 <= b < n
      ensures s[64 * b..64 * b + 64] == block(key, nonce, (counter + b) % WORD_32)
    {
      var part, expected := s[64 * b..64 * b + 64], block(key, nonce, (counter + b) % WORD_32);
      forall j | 0 <= j < 64
        ensures part[j] == expected[j]
      {
        InBlock(b, j);
        XorZero(expected[j]);
      }
    }
  }

  lemma InBlock(b: nat, j: nat)
    requires j < 64
    ensures (64 * b + j) / 64 == b && (64 * b + j) % 64 == j
  {}

  /** The same keystream on two texts: it cancels, and what is left is their difference. */
  method CryptBoth(block: BlockFunction, key: Key, nonce: Nonce, counter: nat, x: seq<Byte>, y: seq<Byte>)
    returns (u: seq<Byte>, v: seq<Byte>)
    requires counter < WORD_32 && |x| == |y|
    ensures |u| == |v| == |x| && forall i :: 0 <= i < |x| ==> Xor(u[i], v[i]) == Xor(x[i], y[i])
  {
    hide Xor, Crypted;
    var a := new Byte[|x|](i requires 0 <= i < |x| => x[i]);
    var b := new Byte[|y|](i requires 0 <= i < |y| => y[i]);
    XCrypt(block, key, nonce, counter, a);
    XCrypt(block, key, nonce, counter, b);
    u, v := a[..], b[..];
    forall i | 0 <= i < |x|
      ensures Xor(u[i], v[i]) == Xor(x[i], y[i])
    {
      KeyCancels(x[i], y[i], block(key, nonce, (counter + i / 64) % WORD_32)[i % 64]);
    }
  }

  lemma KeyCancels(a: nat, b: nat, k: nat)
    ensures Xor(Xor(a, k), Xor(b, k)) == Xor(a, b)
  {
    hide Xor;
    XorCommutative(b, k);
    XorAssociative(a, k, Xor(k, b));
    XorAssociative(k, k, b);
    XorSelf(k);
    XorZero(b);
  }

  lemma CounterStep(counter: nat, i: nat)
    ensures i % 64 == 63 ==> (i + 1) % 64 == 0 && CounterAt(counter, i + 1) == (CounterAt(counter, i) + 1) % WORD_32
    ensures i % 64 < 63 ==> (i + 1) % 64 == i % 64 + 1 && CounterAt(counter, i + 1) == CounterAt(counter, i)
  {
    if i % 64 == 63 {
      assert (i + 1) / 64 == i / 64 + 1;
    } else {
      assert (i + 1) / 64 == i / 64;
    }
  }

  /** The counter at which chunk `c` starts. */
  function CounterFor(c: nat): nat {
    c * (CHUNK_SIZE / BLOCK_SIZE) % WORD_32
  }

  /** Two different bytes of one object never share a keystream byte. */
  lemma KeystreamsDisjoint(c: nat, i: nat, c': nat, i': nat)
    requires c < 0x200_0000 && c' < 0x200_0000 && i < CHUNK_SIZE && i' < CHUNK_SIZE
    requires CounterAt(CounterFor(c), i) == CounterAt(CounterFor(c'), i') && i % BLOCK_SIZE == i' % BLOCK_SIZE
    ensures c == c' && i == i'
  {
    hide CounterAt, CounterFor;
    ChunkCounter(c, i);
    ChunkCounter(c', i');
  }

  /** Within an object the counters do not wrap around. */
  lemma ChunkCounter(c: nat, i: nat)
    requires c < 0x200_0000 && i < CHUNK_SIZE
    ensures CounterAt(CounterFor(c), i) == 128 * c + i / 64 && i / 64 < 128
  {
    SmallRemainder(128 * c);
    SmallRemainder(128 * c + i / 64);
  }

  lemma SmallRemainder(n: nat)
    requires n < WORD_32
    ensures n % WORD_32 == n
  {}
}
