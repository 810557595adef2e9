/** Cipher block chaining over an abstract block permutation, NIST SP 800-38A section 6.2. */
module Cbc {
  import opened Bytes

  const BLOCK: nat := 16

  type Block = b: seq<byte> | |b| == 16 witness Zeros(16)

  /** What the device computes under one key: a permutation of blocks and its inverse. */
  datatype Cipher = Cipher(enc: Block -> Block, dec: Block -> Block)

  ghost predicate Inverts(c: Cipher) {
    forall b: Block :: c.dec(c.enc(b)) == b
  }

  // ---------------------------------------------------------------- exclusive or

  function Pow2(n: nat): nat {
    if n == 0 then 1 else 2 * Pow2(n - 1)
  }

  /** Exclusive or of the lowest n bits. */
  function XorBits(x: nat, y: nat, n: nat): (z: nat)
    ensures z < Pow2(n)
  {
    if n == 0 then 0 else 2 * XorBits(x / 2, y / 2, n - 1) + (if x % 2 == y % 2 then 0 else 1)
  }

  lemma {:induction false} XorTwice(x: nat, y: nat, n: nat)
    requires x < Pow2(n)
    ensures XorBits(XorBits(x, y, n), y, n) == x
  {
    if n > 0 {
      XorTwice(x / 2, y / 2, n - 1);
      assert XorBits(x, y, n) / 2 == XorBits(x / 2, y / 2, n - 1);
    }
  }

  function XorByte(x: byte, y: byte): byte {
    assert Pow2(8) == 256 by { EightBits(); }
    XorBits(x, y, 8)
  }

  lemma {:induction false} EightBits()
    ensures Pow2(8) == 256
  {
    assert Pow2(4) == 16;
    assert Pow2(6) == 64;
  }

  function Xor(a: Block, b: Block): Block {
    seq(16, i requires 0 <= i < 16 => XorByte(a[i], b[i]))
  }

  lemma {:induction false} XorUndoesXor(a: Block, b: Block)
    ensures Xor(Xor(a, b), b) == a
  {
    EightBits();
    forall i | 0 <= i < 16 ensures Xor(Xor(a, b), b)[i] == a[i] {
      XorTwice(a[i], b[i], 8);
    }
  }

  lemma {:induction false} XorCommutes(x: nat, y: nat, n: nat)
    ensures XorBits(x, y, n) == XorBits(y, x, n)
  {
    if n > 0 {
      XorCommutes(x / 2, y / 2, n - 1);
    }
  }

  lemma {:induction false} XorCancels(x: byte, y: byte, z: byte)
    ensures XorByte(x, y) == XorByte(x, z) <==> y == z
    ensures XorByte(y, x) == XorByte(z, x) <==> y == z
  {
    EightBits();
    XorCommutes(x, y, 8);
    XorCommutes(x, z, 8);
    XorTwice(y, x, 8);
    XorTwice(z, x, 8);
  }

  /** What is added can be told from the result. */
  lemma {:induction false} XorInjective(x: nat, y: nat, z: nat, n: nat)
    requires y < Pow2(n) && z < Pow2(n) && XorBits(x, y, n) == XorBits(x, z, n)
    ensures y == z
  {
    XorCommutes(x, y, n);
    XorCommutes(x, z, n);
    XorTwice(y, x, n);
    XorTwice(z, x, n);
  }

  lemma {:induction false} Pow2Sum(a: nat, b: nat)
    ensures Pow2(a + b) == Pow2(a) * Pow2(b)
  {
    if a > 0 {
      Pow2Sum(a - 1, b);
      assert Pow2(a + b) == 2 * (Pow2(a - 1) * Pow2(b));
    }
  }

  lemma {:induction false} Bits128()
    ensures Pow2(128) == 0x1_0000_0000_0000_0000_0000_0000_0000_0000
  {
    hide Pow2;
    EightBits();
    Pow2Sum(8, 8);
    Pow2Sum(16, 16);
    Pow2Sum(32, 32);
    Pow2Sum(64, 64);
  }

  lemma {:induction false} XorZero(x: nat, n: nat)
    requires x < Pow2(n)
    ensures XorBits(x, 0, n) == x
  {
    if n > 0 {
      XorZero(x / 2, n - 1);
    }
  }

  lemma {:induction false} XorZeros(b: Block)
    ensures Xor(b, Zeros(16)) == b
  {
    EightBits();
    forall i | 0 <= i < 16 ensures XorByte(b[i], 0) == b[i] {
      XorZero(b[i], 8);
    }
  }

  // ---------------------------------------------------------------- chaining

  predicate Whole(s: seq<byte>) {
    |s| % 16 == 0
  }

  function PadLen(n: nat): nat {
    if n % BLOCK == 0 then 0 else BLOCK - n % BLOCK
  }

  /** Zeros fill up the last block of what starts at byte `at`. */
  function PadFrom(f: seq<byte>, at: nat): (p: seq<byte>)
    requires |f| >= at
    ensures |p| == |f| + PadLen(|f| - at) && Whole(p[at..])
  {
    f + Zeros(PadLen(|f| - at))
  }

  function Encrypt(c: Cipher, iv: Block, p: seq<byte>): (x: seq<byte>)
    requires Whole(p)
    ensures |x| == |p|
    decreases |p|
  {
    if p == [] then []
    else
      var b := c.enc(Xor(p[..16], iv));
      b + Encrypt(c, b, p[16..])
  }

  function Decrypt(c: Cipher, iv: Block, x: seq<byte>): (p: seq<byte>)
    requires Whole(x)
    ensures |p| == |x|
    decreases |x|
  {
    if x == [] then [] else Xor(c.dec(x[..16]), iv) + Decrypt(c, x[..16], x[16..])
  }

  /** The device works from byte `at` of a packet on. */
  function EncryptFrom(c: Cipher, iv: Block, f: seq<byte>, at: nat): (e: seq<byte>)
    requires at <= |f| && Whole(f[at..])
    ensures |e| == |f|
  {
    f[..at] + Encrypt(c, iv, f[at..])
  }

  function DecryptFrom(c: Cipher, iv: Block, e: seq<byte>, at: nat): (f: seq<byte>)
    requires at <= |e| && Whole(e[at..])
    ensures |f| == |e|
  {
    e[..at] + Decrypt(c, iv, e[at..])
  }

  lemma {:induction false} DecryptUndoesEncrypt(c: Cipher, iv: Block, p: seq<byte>)
    requires Inverts(c) && Whole(p)
    ensures Decrypt(c, iv, Encrypt(c, iv, p)) == p
    decreases |p|
  {
    if p != [] {
      var b := c.enc(Xor(p[..16], iv));
      var x := Encrypt(c, iv, p);
      assert x[..16] == b && x[16..] == Encrypt(c, b, p[16..]);
      DecryptUndoesEncrypt(c, b, p[16..]);
      XorUndoesXor(p[..16], iv);
      assert c.dec(b) == Xor(p[..16], iv);
      assert p == p[..16] + p[16..];
    }
  }

  lemma {:induction false} DecryptFromUndoes(c: Cipher, iv: Block, f: seq<byte>, at: nat)
    requires Inverts(c) && at <= |f| && Whole(f[at..])
    ensures Whole(EncryptFrom(c, iv, f, at)[at..]) && DecryptFrom(c, iv, EncryptFrom(c, iv, f, at), at) == f
  {
    var e := EncryptFrom(c, iv, f, at);
    assert e[at..] == Encrypt(c, iv, f[at..]) && e[..at] == f[..at];
    DecryptUndoesEncrypt(c, iv, f[at..]);
    assert f[..at] + f[at..] == f;
  }

  function BlockAt(s: seq<byte>, j: nat): Block
    requires 16 * j + 16 <= |s|
  {
    s[16 * j..16 * j + 16]
  }

  lemma {:induction false} BlockOfRest(s: seq<byte>, j: nat)
    requires 16 * j + 32 <= |s|
    ensures BlockAt(s[16..], j) == BlockAt(s, j + 1)
  {
    SliceOfSlice(s, 16, |s|, 16 * j, 16 * j + 16);
    assert s[16..|s|] == s[16..];
  }

  /** Block j of the ciphertext is the permutation of block j of the plaintext and the ciphertext block before it, the
      first of the IV. */
  lemma {:induction false} EncryptBlock(c: Cipher, iv: Block, p: seq<byte>, j: nat)
    requires Whole(p) && 16 * j + 16 <= |p|
    ensures var x := Encrypt(c, iv, p);
            BlockAt(x, j) == c.enc(Xor(BlockAt(p, j), if j == 0 then iv else BlockAt(x, j - 1)))
    decreases j
  {
    hide Xor, BlockAt, Encrypt;
    FirstBlock(c, iv, p);
    if j > 0 {
      var x := Encrypt(c, iv, p);
      WholeRest(p);
      EncryptBlock(c, BlockAt(x, 0), p[16..], j - 1);
      BlockOfRest(p, j - 1);
      BlockOfRest(x, j - 1);
      if j > 1 {
        BlockOfRest(x, j - 2);
      }
    }
  }

  lemma {:induction false} FirstBlock(c: Cipher, iv: Block, p: seq<byte>)
    requires Whole(p) && |p| >= 16
    ensures Whole(p[16..])
    ensures var x := Encrypt(c, iv, p);
            BlockAt(x, 0) == c.enc(Xor(BlockAt(p, 0), iv)) && x[16..] == Encrypt(c, BlockAt(x, 0), p[16..])
  {
    hide Xor;
    WholeRest(p);
  }

  /** Fewer than sixteen zeros are added, and what is to be encrypted becomes whole blocks. */
  lemma {:induction false} PaddingIs(f: seq<byte>, at: nat)
    requires |f| >= at
    ensures var p := PadFrom(f, at);
            && f <= p && |p| - |f| < 16 && (|p| - at) % 16 == 0 && forall i :: |f| <= i < |p| ==> p[i] == 0
  {
  }

  /** The block that is chained into what follows x. */
  function LastOf(iv: Block, x: seq<byte>): Block
    requires Whole(x)
  {
    if x == [] then iv else x[|x| - 16..]
  }

  lemma {:induction false} WholeSum(x: seq<byte>, y: seq<byte>)
    requires Whole(x) && Whole(y)
    ensures Whole(x + y)
  {
  }

  lemma {:induction false} WholeRest(x: seq<byte>)
    requires Whole(x) && x != []
    ensures |x| >= 16 && Whole(x[16..])
  {
  }

  lemma {:induction false} DecryptAppend(c: Cipher, iv: Block, x: seq<byte>, y: seq<byte>)
    requires Whole(x) && Whole(y)
    ensures Whole(x + y) && Decrypt(c, iv, x + y) == Decrypt(c, iv, x) + Decrypt(c, LastOf(iv, x), y)
    decreases |x|
  {
    hide Xor, Whole;
    WholeSum(x, y);
    if x == [] {
      assert x + y == y;
    } else {
      WholeRest(x);
      WholeRest(x + y);
      var rest := x[16..];
      assert (x + y)[..16] == x[..16] && (x + y)[16..] == rest + y;
      assert LastOf(x[..16], rest) == LastOf(iv, x);
      DecryptAppend(c, x[..16], rest, y);
    }
  }

  /** Later ciphertext does not influence earlier plaintext. */
  lemma {:induction false} DecryptPrefix(c: Cipher, iv: Block, x: seq<byte>, n: nat)
    requires Whole(x) && n <= |x| && n % 16 == 0
    ensures Decrypt(c, iv, x)[..n] == Decrypt(c, iv, x[..n])
  {
    DecryptAppend(c, iv, x[..n], x[n..]);
    assert x == x[..n] + x[n..];
  }

  /** Ciphertext that is intact up to a block boundary yields the plaintext up to there. */
  lemma {:induction false} PrefixSurvives(c: Cipher, iv: Block, p: seq<byte>, bad: seq<byte>, k: nat)
    requires Inverts(c) && Whole(p) && Whole(bad) && k % 16 == 0 && k <= |p| && k <= |bad|
    requires bad[..k] == Encrypt(c, iv, p)[..k]
    ensures Decrypt(c, iv, bad)[..k] == p[..k]
  {
    DecryptUndoesEncrypt(c, iv, p);
    DecryptPrefix(c, iv, Encrypt(c, iv, p), k);
    DecryptPrefix(c, iv, bad, k);
  }

  lemma {:induction false} XorTells(x: Block, a: Block, b: Block)
    ensures Xor(x, a) == Xor(x, b) <==> a == b
  {
    hide XorByte;
    if Xor(x, a) == Xor(x, b) {
      forall i | 0 <= i < 16 ensures a[i] == b[i] {
        assert Xor(x, a)[i] == Xor(x, b)[i];
        XorCancels(x[i], a[i], b[i]);
      }
    }
  }

  /** The IV enters the first block of the plaintext only, and there nothing makes up for a wrong one. */
  lemma {:induction false} IvOnlyFirst(c: Cipher, a: Block, b: Block, x: seq<byte>)
    requires Whole(x) && x != []
    ensures |x| >= 16 && Decrypt(c, a, x)[16..] == Decrypt(c, b, x)[16..]
    ensures Decrypt(c, a, x)[..16] == Decrypt(c, b, x)[..16] <==> a == b
  {
    WholeRest(x);
    XorTells(c.dec(x[..16]), a, b);
    hide Xor;
  }

  // ---------------------------------------------------------------- a permutation that moves only two bytes

  function SwapEnds(b: Block): Block {
    b[0 := b[15]][15 := b[0]]
  }

  const SWAP: Cipher := Cipher(SwapEnds, SwapEnds)

  lemma {:induction false} SwapInverts()
    ensures Inverts(SWAP)
  {
    forall b: Block ensures SWAP.dec(SWAP.enc(b)) == b {
      assert SwapEnds(SwapEnds(b)) == b;
    }
  }

  /** The two differ in byte 5 of every block and agree elsewhere. */
  ghost predicate DifferInFifth(x: seq<byte>, y: seq<byte>) {
    |x| == |y| && forall i :: 0 <= i < |x| ==> (x[i] == y[i] <==> i % 16 != 5)
  }

  /** A change of byte 5 of the IV changes byte 5 of every ciphertext block and nothing else. */
  lemma {:induction false} FifthColumn(iv: Block, iv': Block, p: seq<byte>)
    requires Whole(p) && iv' == iv[5 := iv'[5]] && iv[5] != iv'[5]
    ensures DifferInFifth(Encrypt(SWAP, iv, p), Encrypt(SWAP, iv', p))
    decreases |p|
  {
    if p != [] {
      WholeRest(p);
      var a, a' := Xor(p[..16], iv), Xor(p[..16], iv');
      XorCancels(p[5], iv[5], iv'[5]);
      assert a' == a[5 := a'[5]] && a[5] != a'[5];
      var b, b' := SwapEnds(a), SwapEnds(a');
      assert b' == b[5 := b'[5]] && b[5] != b'[5];
      hide Xor, SwapEnds, Whole, DifferInFifth;
      FifthColumn(b, b', p[16..]);
      FifthStep(b, b', Encrypt(SWAP, b, p[16..]), Encrypt(SWAP, b', p[16..]));
    }
  }

  lemma {:induction false} FifthStep(b: Block, b': Block, x: seq<byte>, x': seq<byte>)
    requires b' == b[5 := b'[5]] && b[5] != b'[5] && DifferInFifth(x, x')
    ensures DifferInFifth(b + x, b' + x')
  {
    forall i | 0 <= i < |b + x| ensures (b + x)[i] == (b' + x')[i] <==> i % 16 != 5 {
      if i >= 16 {
        assert (i - 16) % 16 == i % 16;
        assert (b + x)[i] == x[i - 16] && (b' + x')[i] == x'[i - 16];
      }
    }
  }

  lemma {:induction false} FifthColumnAt(iv: Block, iv': Block, p: seq<byte>, i: nat)
    requires Whole(p) && iv' == iv[5 := iv'[5]] && iv[5] != iv'[5] && i < |p|
    ensures Encrypt(SWAP, iv, p)[i] == Encrypt(SWAP, iv', p)[i] <==> i % 16 != 5
  {
    FifthColumn(iv, iv', p);
  }

  lemma {:induction false} SwapLast(iv: Block, x: seq<byte>, k: nat)
    requires Whole(x) && k + 16 == |x|
    ensures Decrypt(SWAP, iv, x)[k] == XorByte(x[k + 15], LastOf(iv, x[..k])[0])
  {
    var b: Block := x[k..];
    assert x == x[..k] + b && b[..16] == b;
    DecryptAppend(SWAP, iv, x[..k], b);
    assert Decrypt(SWAP, LastOf(iv, x[..k]), b)[0] == Xor(SwapEnds(b), LastOf(iv, x[..k]))[0];
  }

  // ---------------------------------------------------------------- a permutation that moves every byte

  function Rotated(b: Block): Block {
    [b[15]] + b[..15]
  }

  function RotatedBack(b: Block): Block {
    b[1..] + [b[0]]
  }

  const ROTATION: Cipher := Cipher(Rotated, RotatedBack)

  lemma {:induction false} RotationInverts()
    ensures Inverts(ROTATION)
  {
    forall b: Block ensures ROTATION.dec(ROTATION.enc(b)) == b {
      assert RotatedBack(Rotated(b)) == b;
    }
  }

  /** The two blocks agree but for byte i. */
  ghost predicate AgreeBut(a: Block, b: Block, i: nat) {
    forall j :: 0 <= j < 16 && j != i ==> a[j] == b[j]
  }

  lemma {:induction false} RotationShifts(a: Block, b: Block, p: Block, i: nat)
    requires i < 15 && AgreeBut(a, b, i)
    ensures AgreeBut(Rotated(Xor(p, a)), Rotated(Xor(p, b)), i + 1)
  {
    hide XorByte;
  }

  /** A change of byte 5 of the IV changes byte 6 of the first ciphertext block and byte 7 of the second. */
  lemma {:induction false} ChangeTravels(a: Block, b: Block, p: seq<byte>, j: nat)
    requires Whole(p) && AgreeBut(a, b, 5) && j < 16 + |p| && j < 48 && j != 5 && j != 22 && j != 39
    ensures (a + Encrypt(ROTATION, a, p))[j] == (b + Encrypt(ROTATION, b, p))[j]
  {
    if j >= 16 {
      WholeRest(p);
      var x, y := Rotated(Xor(p[..16], a)), Rotated(Xor(p[..16], b));
      RotationShifts(a, b, p[..16], 5);
      assert Encrypt(ROTATION, a, p) == x + Encrypt(ROTATION, x, p[16..]);
      assert Encrypt(ROTATION, b, p) == y + Encrypt(ROTATION, y, p[16..]);
      if j >= 32 {
        WholeRest(p[16..]);
        var q := p[16..][..16];
        RotationShifts(x, y, q, 6);
        assert Encrypt(ROTATION, x, p[16..])[..16] == Rotated(Xor(q, x));
        assert Encrypt(ROTATION, y, p[16..])[..16] == Rotated(Xor(q, y));
      }
    }
  }

  const IDENTITY: Cipher := Cipher((b: Block) => b, (b: Block) => b)

  /** Encrypted under one permutation and decrypted under another: the first block comes out with its ends swapped. */
  lemma {:induction false} WrongKeyShows(p: seq<byte>)
    requires Whole(p) && |p| >= 16
    ensures Decrypt(IDENTITY, Zeros(16), Encrypt(SWAP, Zeros(16), p))[..16] == SwapEnds(p[..16])
  {
    XorZeros(p[..16]);
    var x := Encrypt(SWAP, Zeros(16), p);
    assert x[..16] == SwapEnds(p[..16]);
    XorZeros(x[..16]);
    hide Xor;
  }
}
