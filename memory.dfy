/** The host's linear memory as the allocator sees it: a byte sequence whose
    length is a whole number of 64 KiB pages, little-endian 32-bit word
    load/store at any byte offset, and a bulk byte copy with memmove semantics. */
module Memory {

  type u8 = x: int | 0 <= x < 0x100
  type u32 = x: int | 0 <= x < 0x1_0000_0000

  const PAGE_SIZE: nat := 0x1_0000

  /** `load<u32>(a)`: the little-endian word at byte offset a. */
  function Load32(m: seq<u8>, a: nat): u32
    requires a + 4 <= |m|
  {
    m[a] as int + 0x100 * m[a + 1] as int + 0x1_0000 * m[a + 2] as int + 0x100_0000 * m[a + 3] as int
  }

  /** `store<u32>(a, v)`: the four bytes of v, least significant first. */
  function Store32(m: seq<u8>, a: nat, v: u32): (r: seq<u8>)
    requires a + 4 <= |m|
    ensures |r| == |m|
    ensures forall i :: 0 <= i < |m| && (i < a || a + 4 <= i) ==> r[i] == m[i]
  {
    m[a := v % 0x100][a + 1 := v / 0x100 % 0x100][a + 2 := v / 0x1_0000 % 0x100][a + 3 := v / 0x100_0000]
  }

  /** n freshly grown bytes, all zero. */
  function Zeros(n: nat): (r: seq<u8>)
    ensures |r| == n && forall i :: 0 <= i < n ==> r[i] == 0
  {
    seq(n, _ => 0)
  }

  /** Memory m after memory.grow has brought it to the given number of pages:
      the old bytes, then zeros. */
  function Grown(m: seq<u8>, pages: nat): (r: seq<u8>)
    requires |m| <= pages * PAGE_SIZE
    ensures |r| == pages * PAGE_SIZE
  {
    m + Zeros(pages * PAGE_SIZE - |m|)
  }

  /** `memory.copy(dst, src, n)`: afterwards [dst, dst+n) holds what [src, src+n)
      held before, even when the two ranges overlap; every other byte is kept. */
  function Copy(m: seq<u8>, dst: nat, src: nat, n: nat): (r: seq<u8>)
    requires dst + n <= |m| && src + n <= |m|
    ensures |r| == |m|
    ensures r[dst..dst + n] == m[src..src + n]
    ensures forall i :: 0 <= i < |m| && (i < dst || dst + n <= i) ==> r[i] == m[i]
  {
    m[..dst] + m[src..src + n] + m[dst + n..]
  }

  /** Reading back a stored word gives the word: the byte encoding round-trips. */
  lemma LoadOfStore(m: seq<u8>, a: nat, v: u32)
    requires a + 4 <= |m|
    ensures Load32(Store32(m, a, v), a) == v
  {
    var r := Store32(m, a, v);
    assert r[a] == v % 0x100 && r[a + 1] == v / 0x100 % 0x100;
    assert r[a + 2] == v / 0x1_0000 % 0x100 && r[a + 3] == v / 0x100_0000;
    assert v / 0x100 == v / 0x100 % 0x100 + 0x100 * (v / 0x1_0000);
    assert v / 0x1_0000 == v / 0x1_0000 % 0x100 + 0x100 * (v / 0x100_0000);
  }

  /** A store leaves every word that does not overlap it unchanged. */
  lemma LoadOfStoreElsewhere(m: seq<u8>, a: nat, v: u32, b: nat)
    requires a + 4 <= |m| && b + 4 <= |m|
    requires a + 4 <= b || b + 4 <= a
    ensures Load32(Store32(m, a, v), b) == Load32(m, b)
  {
  }

  /** Storing the word already there changes nothing: the decoding round-trips too. */
  lemma StoreOfLoad(m: seq<u8>, a: nat)
    requires a + 4 <= |m|
    ensures Store32(m, a, Load32(m, a)) == m
  {
    var v := Load32(m, a);
    var hi3 := m[a + 3] as int;
    var hi2 := m[a + 2] as int + 0x100 * hi3;
    var hi1 := m[a + 1] as int + 0x100 * hi2;
    assert v == m[a] as int + 0x100 * hi1;
    SplitByte(m[a], hi1);
    SplitByte(m[a + 1], hi2);
    SplitByte(m[a + 2], hi3);
    assert v / 0x100 == hi1 && v / 0x100 / 0x100 == hi2 && v / 0x100 / 0x100 / 0x100 == hi3;
    assert v / 0x1_0000 == hi2 && v / 0x100_0000 == hi3;
    var r := Store32(m, a, v);
    assert forall i :: 0 <= i < |m| ==> r[i] == m[i];
  }

  lemma SplitByte(lo: u8, hi: nat)
    ensures (lo + 0x100 * hi) / 0x100 == hi && (lo + 0x100 * hi) % 0x100 == lo
  {
  }

  /** A copy leaves every word outside its destination unchanged. */
  lemma LoadOfCopyElsewhere(m: seq<u8>, dst: nat, src: nat, n: nat, b: nat)
    requires dst + n <= |m| && src + n <= |m| && b + 4 <= |m|
    requires dst + n <= b || b + 4 <= dst
    ensures Load32(Copy(m, dst, src, n), b) == Load32(m, b)
  {
  }
}
