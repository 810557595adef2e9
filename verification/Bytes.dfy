/** Bytes, unsigned machine integers and the two ways the program lays integers out in memory. */
module Bytes {
  type byte = x: int | 0 <= x < 0x100
  type u16 = x: int | 0 <= x < 0x1_0000
  type u32 = x: int | 0 <= x < 0x1_0000_0000

  const U16: int := 0x1_0000
  const U32: int := 0x1_0000_0000

  function Min(a: nat, b: nat): nat {
    if a <= b then a else b
  }

  /** High and low byte of a 16-bit field in network order. */
  function Hi(x: u16): byte {
    x / 0x100
  }

  function Lo(x: u16): byte {
    x % 0x100
  }

  function Be16(hi: byte, lo: byte): u16 {
    hi as int * 0x100 + lo
  }

  lemma {:induction false} HiLo(x: u16)
    ensures Be16(Hi(x), Lo(x)) == x
  {
  }

  lemma {:induction false} HiLoBack(hi: byte, lo: byte)
    ensures Hi(Be16(hi, lo)) == hi && Lo(Be16(hi, lo)) == lo
  {
  }

  /** Network order: the first byte is the high one. */
  lemma {:induction false} NetworkOrder(hi: byte, lo: byte)
    ensures Be16(hi, lo) / 0x100 == hi && Be16(hi, lo) % 0x100 == lo
  {
  }

  /** The 16-bit field at position i of a packet. */
  function Field16(s: seq<byte>, i: nat): u16
    requires i + 1 < |s|
  {
    Be16(s[i], s[i + 1])
  }

  /** A 32-bit integer as the little-endian host writes it to a file. */
  function Le32(x: u32): (s: seq<byte>)
    ensures |s| == 4
  {
    var y := x / 0x100;
    var z := y / 0x100;
    [x % 0x100, y % 0x100, z % 0x100, z / 0x100]
  }

  function FromLe32(s: seq<byte>): u32
    requires |s| == 4
  {
    var b0: int, b1: int, b2: int, b3: int := s[0], s[1], s[2], s[3];
    b0 + 0x100 * (b1 + 0x100 * (b2 + 0x100 * b3))
  }

  lemma {:induction false} Le32RoundTrip(x: u32)
    ensures FromLe32(Le32(x)) == x
  {
  }

  /** The first byte is the low one. */
  lemma {:induction false} HostOrder(x: u32)
    ensures var s := Le32(x); x == s[0] as int + 0x100 * s[1] as int + 0x1_0000 * s[2] as int + 0x100_0000 * s[3] as int
  {
  }

  lemma {:induction false} FromLe32RoundTrip(s: seq<byte>)
    requires |s| == 4
    ensures Le32(FromLe32(s)) == s
  {
    var high: int := s[2] + 0x100 * (s[3] as int);
    var mid: int := s[1] + 0x100 * high;
    Digit(s[2], s[3]);
    Digit(s[1], high);
    Digit(s[0], mid);
  }

  lemma {:induction false} Digit(low: byte, high: int)
    requires high >= 0
    ensures (low + 0x100 * high) / 0x100 == high && (low + 0x100 * high) % 0x100 == low
  {
  }

  /** 32-bit addition wraps around. */
  function Add32(x: u32, y: u32): u32 {
    (x + y) % U32
  }

  function Inc32(x: u32): u32 {
    Add32(x, 1)
  }

  lemma {:induction false} IncMod(x: nat)
    ensures Inc32(x % U32) == (x + 1) % U32
  {
  }

  function Zeros(n: nat): (s: seq<byte>)
    ensures |s| == n
  {
    seq(n, _ => 0)
  }

  lemma {:induction false} SliceOfSlice<T>(s: seq<T>, lo: nat, hi: nat, x: nat, y: nat)
    requires lo <= hi <= |s| && x <= y <= hi - lo
    ensures s[lo..hi][x..y] == s[lo + x..lo + y]
  {
    forall k | 0 <= k < y - x ensures s[lo..hi][x..y][k] == s[lo + x..lo + y][k] {
      assert s[lo..hi][x..y][k] == s[lo..hi][x + k];
    }
  }

  /** A slice of a prefix is a slice of the window it lies in. */
  lemma {:induction false} SliceInWindow<T>(s: seq<T>, cut: nat, lo: nat, hi: nat, x: nat, y: nat)
    requires lo <= hi <= |s| && cut <= |s| && x <= y <= hi - lo && lo + y <= cut
    ensures s[..cut][lo + x..lo + y] == s[lo..hi][x..y]
  {
    SliceOfSlice(s, lo, hi, x, y);
    SliceOfSlice(s, 0, cut, lo + x, lo + y);
    assert s[0..cut] == s[..cut];
  }

  /** What stands behind a prefix stays readable when more is appended. */
  lemma {:induction false} SliceBehindPrefix<T>(a: seq<T>, b: seq<T>, s: seq<T>)
    requires a + b <= s
    ensures s[|a|..|a| + |b|] == b
  {
    assert s[|a|..|a| + |b|] == (a + b)[|a|..];
  }

  lemma {:induction false} SliceOfPrefix<T>(s: seq<T>, t: seq<T>, lo: nat, hi: nat)
    requires lo <= hi <= |s|
    ensures (s + t)[lo..hi] == s[lo..hi]
  {
  }
}
