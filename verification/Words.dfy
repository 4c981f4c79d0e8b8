/** Little-endian words inside byte buffers, as the kernel reads and writes them. */
module Words {

  type Byte = x: int | 0 <= x < 256
  type U32 = x: int | 0 <= x < 0x1_0000_0000

  const SECTOR_SIZE := 512
  const PTRS := 128             // block pointers in a sector
  const BLOCKS_MAX := 16384

  /** One disk sector (also one CatFS block). */
  type Sector = s: seq<Byte> | |s| == SECTOR_SIZE witness Zeros(SECTOR_SIZE)

  function Zeros(n: nat): (z: seq<Byte>)
    ensures |z| == n && forall k | 0 <= k < n :: z[k] == 0
  {
    seq(n, _ => 0)
  }

  /** The 32-bit little-endian word stored in the first four bytes of `s`. */
  function Le32(s: seq<Byte>): (v: nat)
    requires |s| == 4
    ensures v < 0x1_0000_0000
  {
    s[0] as int + 0x100 * s[1] as int + 0x1_0000 * s[2] as int + 0x100_0000 * s[3] as int
  }

  /** The four bytes that store `v`. */
  function Put32(v: nat): (s: seq<Byte>)
    requires v < 0x1_0000_0000
    ensures |s| == 4 && Le32(s) == v
  {
    var q1 := v / 0x100;
    var q2 := q1 / 0x100;
    [v % 0x100, q1 % 0x100, q2 % 0x100, q2 / 0x100]
  }

  /** The 64-bit little-endian word stored in eight bytes. */
  function Le64(s: seq<Byte>): (v: int)
    requires |s| == 8
    ensures 0 <= v <= 0xFFFF_FFFF_FFFF_FFFF
  {
    Le32(s[..4]) + 0x1_0000_0000 * Le32(s[4..])
  }

  function Put64(v: int): (s: seq<Byte>)
    requires 0 <= v <= 0xFFFF_FFFF_FFFF_FFFF
    ensures |s| == 8 && Le64(s) == v
  {
    var s := Put32(v % 0x1_0000_0000) + Put32(v / 0x1_0000_0000);
    assert s[..4] == Put32(v % 0x1_0000_0000) && s[4..] == Put32(v / 0x1_0000_0000);
    s
  }

  /** The first byte counts least. */
  lemma LittleEndian()
    ensures Le32([0x78, 0x56, 0x34, 0x12]) == 0x1234_5678 && Le64([1, 0, 0, 0, 2, 0, 0, 0]) == 0x2_0000_0001
    ensures Put32(0x1234_5678) == [0x78, 0x56, 0x34, 0x12]
  {
    var s: seq<Byte> := [1, 0, 0, 0, 2, 0, 0, 0];
    assert s[..4] == [1, 0, 0, 0] && s[4..] == [2, 0, 0, 0];
  }

  /** A sector seen as its 128 block pointers. */
  function Pointers(sec: Sector): (p: seq<int>)
    ensures |p| == PTRS
  {
    PointersUpTo(sec, PTRS)
  }

  function PointersUpTo(sec: Sector, n: nat): (p: seq<int>)
    requires n <= PTRS
    ensures |p| == n
  {
    if n == 0 then [] else PointersUpTo(sec, n - 1) + [Le32(sec[4 * n - 4..4 * n])]
  }

  lemma {:induction false} PointerAt(sec: Sector, n: nat, k: nat)
    requires k < n <= PTRS
    ensures PointersUpTo(sec, n)[k] == Le32(sec[4 * k..4 * k + 4])
  {
    if k < n - 1 { PointerAt(sec, n - 1, k); }
  }

  lemma AllPointers(sec: Sector)
    ensures forall k | 0 <= k < PTRS :: Pointers(sec)[k] == Le32(sec[4 * k..4 * k + 4])
  {
    forall k | 0 <= k < PTRS
      ensures Pointers(sec)[k] == Le32(sec[4 * k..4 * k + 4])
    {
      PointerAt(sec, PTRS, k);
    }
  }

  /** Stores `v` as the `k`-th pointer of the sector: no other pointer moves. */
  function SetPointer(sec: Sector, k: nat, v: nat): (r: Sector)
    requires k < PTRS && v < 0x1_0000_0000
    ensures Pointers(r) == Pointers(sec)[k := v]
  {
    var r := sec[..4 * k] + Put32(v) + sec[4 * k + 4..];
    assert forall j | 0 <= j < PTRS && j != k :: r[4 * j..4 * j + 4] == sec[4 * j..4 * j + 4];
    assert r[4 * k..4 * k + 4] == Put32(v);
    AllPointers(sec);
    AllPointers(r);
    r
  }

  predicate AllWords(p: seq<int>) {
    forall k | 0 <= k < |p| :: 0 <= p[k] < 0x1_0000_0000
  }

  /** The sector that stores the pointers `p`. */
  function FromPointers(p: seq<int>): (sec: Sector)
    requires |p| == PTRS && AllWords(p)
    ensures Pointers(sec) == p
  {
    var sec: seq<Byte> := seq(SECTOR_SIZE, n requires 0 <= n < SECTOR_SIZE => Put32(p[n / 4])[n % 4]);
    assert forall k | 0 <= k < PTRS :: sec[4 * k..4 * k + 4] == Put32(p[k]);
    AllPointers(sec);
    sec
  }

  lemma ZeroSectorHasNoPointers()
    ensures Pointers(Zeros(SECTOR_SIZE)) == Zeros(PTRS)
  {
    var z := Zeros(SECTOR_SIZE);
    AllPointers(z);
    forall k | 0 <= k < PTRS
      ensures Pointers(z)[k] == 0
    {
      assert Le32(z[4 * k..4 * k + 4]) == 0;
    }
  }
}
