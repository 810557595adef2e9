/** The Internet checksum of RFC 1071 as the program computes, stores and verifies it. */
module Checksum {
  import opened Bytes

  // ---------------------------------------------------------------- folding

  /** One pass of the loop that adds the carries back in. */
  function FoldOnce(sum: nat): nat {
    sum % U16 + sum / U16
  }

  function Fold(sum: nat): (r: u16) {
    if sum < U16 then sum else Fold(FoldOnce(sum))
  }

  lemma {:induction false} FoldOnceKeeps(sum: nat)
    requires sum >= U16
    ensures 0 < FoldOnce(sum) < sum && FoldOnce(sum) % 0xFFFF == sum % 0xFFFF
  {
    var q := sum / U16;
    assert sum == FoldOnce(sum) + 0xFFFF * q;
    MultipleOff(FoldOnce(sum), q);
  }

  lemma {:induction false} MultipleOff(x: int, q: int)
    ensures (x + 0xFFFF * q) % 0xFFFF == x % 0xFFFF
  {
  }

  /** Folding keeps the sum modulo 65535 and yields 0 only for 0. */
  lemma {:induction false} FoldIs(sum: nat)
    ensures Fold(sum) % 0xFFFF == sum % 0xFFFF
    ensures Fold(sum) == 0 <==> sum == 0
    decreases sum
  {
    if sum >= U16 {
      FoldOnceKeeps(sum);
      FoldIs(FoldOnce(sum));
    }
  }

  /** The loop the program writes out after every sum. */
  method FoldLoop(sum: nat) returns (r: u16)
    ensures r == Fold(sum)
  {
    var s: nat := sum;
    while s / U16 != 0
      invariant Fold(s) == Fold(sum)
      decreases s
    {
      FoldOnceKeeps(s);
      s := s % U16 + s / U16;
    }
    r := s;
  }

  // ---------------------------------------------------------------- sums of words

  function Word(s: seq<byte>, k: nat): u16
    requires 2 * k + 1 < |s|
  {
    Be16(s[2 * k], s[2 * k + 1])
  }

  /** Sum of the first n whole words in network order. */
  function Words(s: seq<byte>, n: nat): nat
    requires 2 * n <= |s|
  {
    if n == 0 then 0 else Words(s, n - 1) + Word(s, n - 1)
  }

  /** A last odd byte counts as the high half of a word. */
  function Tail(s: seq<byte>): nat {
    if |s| % 2 == 1 then s[|s| - 1] as int * 0x100 else 0
  }

  function WordSum(s: seq<byte>): nat {
    Words(s, |s| / 2) + Tail(s)
  }

  lemma {:induction false} WordsOfPrefix(a: seq<byte>, b: seq<byte>, n: nat)
    requires 2 * n <= |a|
    ensures Words(a + b, n) == Words(a, n)
  {
    if n > 0 {
      WordsOfPrefix(a, b, n - 1);
    }
  }

  lemma {:induction false} WordsBehind(a: seq<byte>, b: seq<byte>, m: nat, n: nat)
    requires |a| == 2 * m && 2 * n <= |b|
    ensures Words(a + b, m + n) == Words(a, m) + Words(b, n)
  {
    if n == 0 {
      WordsOfPrefix(a, b, m);
    } else {
      WordsBehind(a, b, m, n - 1);
    }
  }

  /** Behind whole words the sum goes on as it would begin. */
  lemma {:induction false} SumSplits(a: seq<byte>, b: seq<byte>)
    requires |a| % 2 == 0
    ensures WordSum(a + b) == WordSum(a) + WordSum(b)
  {
    WordsBehind(a, b, |a| / 2, |b| / 2);
    hide Words;
    assert |a + b| / 2 == |a| / 2 + |b| / 2;
  }

  /** A last odd byte is padded on the right with a zero byte, as section 1 of RFC 1071 has it. */
  lemma {:induction false} OddIsPadded(s: seq<byte>)
    requires |s| % 2 == 1
    ensures WordSum(s + [0]) == WordSum(s)
  {
    WordsOfPrefix(s, [0], |s| / 2);
    hide Words;
    assert |s + [0]| / 2 == |s| / 2 + 1;
    LastWord(s);
  }

  lemma {:induction false} LastWord(s: seq<byte>)
    requires |s| % 2 == 1
    ensures Words(s + [0], |s| / 2 + 1) == Words(s + [0], |s| / 2) + s[|s| - 1] as int * 0x100
  {
  }

  /** The sum byte by byte: those at even positions are the high halves of words. */
  function ByteSum(s: seq<byte>, n: nat): nat
    requires n <= |s|
  {
    if n == 0 then 0 else ByteSum(s, n - 1) + s[n - 1] as int * (if n % 2 == 1 then 0x100 else 1)
  }

  lemma {:induction false} WordsAreBytes(s: seq<byte>, n: nat)
    requires 2 * n <= |s|
    ensures Words(s, n) == ByteSum(s, 2 * n)
  {
    if n > 0 {
      WordsAreBytes(s, n - 1);
      assert ByteSum(s, 2 * n - 1) == ByteSum(s, 2 * (n - 1)) + s[2 * n - 2] as int * 0x100;
    }
  }

  /** Whatever its length, a buffer is summed as its bytes weigh in network order. */
  lemma {:induction false} SumIsByteSum(s: seq<byte>)
    ensures WordSum(s) == ByteSum(s, |s|)
  {
    WordsAreBytes(s, |s| / 2);
    hide Words;
    assert |s| == 2 * (|s| / 2) + |s| % 2;
  }

  function Put16(s: seq<byte>, i: nat, x: u16): (t: seq<byte>)
    requires i + 1 < |s|
    ensures |t| == |s|
  {
    s[i := Hi(x)][i + 1 := Lo(x)]
  }

  function Not16(x: u16): u16 {
    0xFFFF - x
  }

  /** Two buffers that agree but for one word. */
  ghost predicate DifferAt(s: seq<byte>, t: seq<byte>, k: nat) {
    && |s| == |t| && 2 * k + 1 < |s|
    && (forall i :: 0 <= i < |s| && i != 2 * k && i != 2 * k + 1 ==> s[i] == t[i])
  }

  lemma {:induction false} WordsDiffer(s: seq<byte>, t: seq<byte>, k: nat, n: nat)
    requires DifferAt(s, t, k) && 2 * n <= |s|
    ensures Words(t, n) == Words(s, n) + (if k < n then Word(t, k) - Word(s, k) else 0)
  {
    if n > 0 {
      WordsDiffer(s, t, k, n - 1);
    }
  }

  lemma {:induction false} SumDiffers(s: seq<byte>, t: seq<byte>, k: nat)
    requires DifferAt(s, t, k)
    ensures WordSum(t) == WordSum(s) + Word(t, k) - Word(s, k)
  {
    WordsDiffer(s, t, k, |s| / 2);
  }

  lemma {:induction false} PutsDiffer(s: seq<byte>, k: nat, x: u16, y: u16)
    requires 2 * k + 1 < |s|
    ensures var t, u := Put16(s, 2 * k, x), Put16(s, 2 * k, y);
            DifferAt(t, u, k) && Word(t, k) == x && Word(u, k) == y
  {
  }

  // ---------------------------------------------------------------- the checksum closes the sum

  /** A sum plus the complement of its fold folds to 0xFFFF. */
  lemma {:induction false} Closes(sum: nat)
    ensures Fold(sum + Not16(Fold(sum))) == 0xFFFF
  {
    var c := Not16(Fold(sum));
    FoldIs(sum);
    FoldIs(sum + c);
    CongruentSum(sum, Fold(sum), c);
    assert (Fold(sum) + c) % 0xFFFF == 0;
    OnlyTwoMultiples(Fold(sum + c));
  }

  lemma {:induction false} CongruentSum(a: nat, b: nat, c: nat)
    requires a % 0xFFFF == b % 0xFFFF
    ensures (a + c) % 0xFFFF == (b + c) % 0xFFFF
  {
    var d := a / 0xFFFF - b / 0xFFFF;
    assert a + c == b + c + 0xFFFF * d;
    MultipleOff(b + c, d);
  }

  lemma {:induction false} OnlyTwoMultiples(x: u16)
    ensures x % 0xFFFF == 0 <==> x == 0 || x == 0xFFFF
  {
  }

  /** Store at word k the checksum of the buffer taken with that word 0. */
  function Sealed(s: seq<byte>, k: nat, rest: nat): (t: seq<byte>)
    requires 2 * k + 1 < |s|
    ensures |t| == |s|
  {
    Put16(s, 2 * k, Not16(Fold(WordSum(Put16(s, 2 * k, 0)) + rest)))
  }

  lemma {:induction false} SealedKeeps(s: seq<byte>, k: nat, rest: nat)
    requires 2 * k + 1 < |s|
    ensures forall i :: 0 <= i < |s| && i != 2 * k && i != 2 * k + 1 ==> Sealed(s, k, rest)[i] == s[i]
  {
    hide Fold, WordSum, Hi, Lo;
  }

  /** Whatever else enters the sum, a sealed buffer sums to 0xFFFF. */
  lemma {:induction false} SealedSums(s: seq<byte>, k: nat, rest: nat)
    requires 2 * k + 1 < |s|
    ensures Fold(WordSum(Sealed(s, k, rest)) + rest) == 0xFFFF
  {
    hide WordSum, Fold, Word, DifferAt, Put16, Not16;
    var zero := Put16(s, 2 * k, 0);
    var c := Not16(Fold(WordSum(zero) + rest));
    PutsDiffer(s, k, 0, c);
    SumDiffers(zero, Put16(s, 2 * k, c), k);
    Closes(WordSum(zero) + rest);
  }

  /** Sealing again changes nothing: the old checksum does not enter the new one. */
  lemma {:induction false} SealedIsStable(s: seq<byte>, k: nat, x: u16, rest: nat)
    requires 2 * k + 1 < |s|
    ensures Sealed(Put16(s, 2 * k, x), k, rest) == Sealed(s, k, rest)
  {
    assert Put16(Put16(s, 2 * k, x), 2 * k, 0) == Put16(s, 2 * k, 0);
  }
}
