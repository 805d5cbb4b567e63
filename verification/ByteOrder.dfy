/** Fixed-width integers in little-endian and big-endian byte order. */
module ByteOrder {
  import opened Common

  function Pow256(k: nat): (r: nat)
    ensures r > 0
  {
    if k == 0 then 1 else 256 * Pow256(k - 1)
  }

  function LittleEndian(n: nat, k: nat): (s: Bytes)
    ensures |s| == k
  {
    if k == 0 then [] else [n % 256] + LittleEndian(n / 256, k - 1)
  }

  function FromLittleEndian(s: Bytes): nat {
    if s == [] then 0 else s[0] + 256 * FromLittleEndian(s[1..])
  }

  lemma {:induction false} LittleEndianInverts(n: nat, k: nat)
    requires n < Pow256(k)
    ensures FromLittleEndian(LittleEndian(n, k)) == n
  {
    if k == 0 {
    } else {
      LittleEndianInverts(n / 256, k - 1);
      assert LittleEndian(n, k)[1..] == LittleEndian(n / 256, k - 1);
    }
  }

  /** The byte at place i is the digit of 256 to the power i. */
  lemma {:induction false} LittleEndianDigit(n: nat, k: nat, i: nat)
    requires i < k
    ensures LittleEndian(n, k)[i] == n / Pow256(i) % 256
  {
    if i == 0 {
    } else {
      LittleEndianDigit(n / 256, k - 1, i - 1);
      DivTwice(n, Pow256(i - 1));
    }
  }

  lemma DivTwice(n: nat, m: nat)
    requires m > 0
    ensures n / 256 / m == n / (256 * m)
  {
    var q, r := n / 256, n % 256;
    var q', r' := q / m, q % m;
    assert n == 256 * (m * q' + r') + r;
    assert 256 * (m * q') == (256 * m) * q';
    var low := 256 * r' + r;
    assert n == (256 * m) * q' + low && 0 <= low < 256 * m;
    DivIs(n, 256 * m, q', low);
  }

  lemma DivIs(n: nat, m: nat, q: nat, r: nat)
    requires m > 0 && n == m * q + r && r < m
    ensures n / m == q
  {
    var q' := n / m;
    assert n == m * q' + n % m;
    assert q' >= q + 1 ==> m * q' >= m * (q + 1);
    assert q >= q' + 1 ==> m * q >= m * (q' + 1);
    assert m * (q + 1) == m * q + m && m * (q' + 1) == m * q' + m;
  }

  lemma {:induction false} LittleEndianBound(s: Bytes)
    ensures FromLittleEndian(s) < Pow256(|s|)
  {
    if s == [] {
    } else {
      LittleEndianBound(s[1..]);
    }
  }

  function BigEndian(n: nat, k: nat): (s: Bytes)
    ensures |s| == k
  {
    if k == 0 then [] else BigEndian(n / 256, k - 1) + [n % 256]
  }

  function FromBigEndian(s: Bytes): nat {
    if s == [] then 0 else FromBigEndian(Init(s)) * 256 + Last(s)
  }

  /** The other way round: the byte at place i is the digit of 256 to the power k - 1 - i. */
  lemma {:induction false} BigEndianDigit(n: nat, k: nat, i: nat)
    requires i < k
    ensures BigEndian(n, k)[i] == n / Pow256(k - 1 - i) % 256
  {
    if i == k - 1 {
    } else {
      BigEndianDigit(n / 256, k - 1, i);
      DivTwice(n, Pow256(k - 2 - i));
    }
  }

  lemma {:induction false} BigEndianInverts(n: nat, k: nat)
    requires n < Pow256(k)
    ensures FromBigEndian(BigEndian(n, k)) == n
  {
    if k == 0 {
    } else {
      BigEndianInverts(n / 256, k - 1);
      assert Init(BigEndian(n, k)) == BigEndian(n / 256, k - 1);
    }
  }

  lemma {:induction false} BigEndianIsOnto(s: Bytes)
    ensures BigEndian(FromBigEndian(s), |s|) == s && FromBigEndian(s) < Pow256(|s|)
  {
    if s == [] {
    } else {
      BigEndianIsOnto(Init(s));
      assert s == Init(s) + [Last(s)];
    }
  }

  const TWO_64: nat := 0x1_0000_0000_0000_0000
  const TWO_63: nat := 0x8000_0000_0000_0000
  const TWO_32: nat := 0x1_0000_0000

  lemma Widths()
    ensures Pow256(4) == TWO_32 && Pow256(8) == TWO_64
  {
    assert Pow256(1) == 256 && Pow256(2) == 65536 && Pow256(3) == 16777216 && Pow256(4) == TWO_32;
    assert Pow256(5) == 256 * TWO_32 && Pow256(6) == 65536 * TWO_32 && Pow256(7) == 16777216 * TWO_32;
  }

  type UInt64 = n: nat | n < TWO_64

  type UInt32 = n: nat | n < TWO_32

  type Int64 = n: int | 0 - TWO_63 as int <= n < TWO_63

  /** A signed 64-bit value as its two's complement, and back. */
  function Unsigned(n: Int64): UInt64 {
    if n < 0 then n + TWO_64 else n
  }

  function Signed(n: UInt64): Int64 {
    if n < TWO_63 then n else n - TWO_64
  }
}
