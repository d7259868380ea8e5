/** Fixed-width binary text, as `std::bitset<N>::to_string` prints it:
    most significant bit first, one '0' or '1' per bit. */
module Binary {

  function Pow2(k: nat): (r: nat)
    ensures r >= 1
  {
    if k == 0 then 1 else 2 * Pow2(k - 1)
  }

  /** The powers the Hack instruction layout uses. */
  lemma Pow2Values()
    ensures Pow2(1) == 2 && Pow2(3) == 8 && Pow2(7) == 128
    ensures Pow2(10) == 1024 && Pow2(13) == 8192 && Pow2(15) == 32768 && Pow2(16) == 65536
  {
    assert Pow2(3) == 8;
    assert Pow2(7) == 128;
    assert Pow2(10) == 1024;
    assert Pow2(13) == 8192;
    assert Pow2(16) == 65536;
  }

  predicate IsBitString(s: string) { forall i :: 0 <= i < |s| ==> s[i] == '0' || s[i] == '1' }

  /** The low `width` bits of `n`, most significant first. */
  function ToBinary(n: nat, width: nat): string
  {
    if width == 0 then "" else ToBinary(n / 2, width - 1) + [if n % 2 == 1 then '1' else '0']
  }

  /** One '0' or '1' per bit of the width. */
  lemma {:induction false} ToBinaryShape(n: nat, width: nat)
    ensures |ToBinary(n, width)| == width && IsBitString(ToBinary(n, width))
  {
    if width > 0 {
      ToBinaryShape(n / 2, width - 1);
    }
  }

  /** Zero prints as all zeros. */
  lemma {:induction false} ToBinaryZero(width: nat)
    ensures ToBinary(0, width) == seq(width, _ => '0')
  {
    if width > 0 {
      ToBinaryZero(width - 1);
    }
  }

  /** The number a bit string denotes, most significant bit first. */
  function FromBinary(s: string): nat
  {
    if s == [] then 0 else 2 * FromBinary(s[..|s| - 1]) + (if s[|s| - 1] == '1' then 1 else 0)
  }

  /** Halving and taking the remainder commute with reduction modulo 2p. */
  lemma ModDouble(n: nat, p: nat)
    requires p > 0
    ensures 2 * ((n / 2) % p) + n % 2 == n % (2 * p)
  {
    var q, r := n / 2, n % 2;
    var t, u := q / p, q % p;
    assert n == 2 * q + r;
    assert q == p * t + u;
    assert n == (2 * p) * t + (2 * u + r);
    assert 0 <= 2 * u + r < 2 * p;
    DivModUnique(n, 2 * p, t, 2 * u + r);
  }

  lemma DivModUnique(n: int, m: int, t: int, v: int)
    requires m > 0 && 0 <= v < m && n == m * t + v
    ensures n % m == v && n / m == t
  {
    var t', v' := n / m, n % m;
    assert n == m * t' + v';
    var k := t' - t;
    assert m * k == v - v';
    if k >= 1 {
      MulAtLeast(m, k);
    } else if k <= -1 {
      MulAtLeast(m, -k);
    }
  }

  lemma MulAtLeast(m: int, k: int)
    requires m > 0 && k >= 1
    ensures m * k >= m
  {
  }

  /** Reading back printed bits gives the number modulo 2^width. */
  lemma {:induction false} FromToBinary(n: nat, width: nat)
    ensures FromBinary(ToBinary(n, width)) == n % Pow2(width)
  {
    if width > 0 {
      var s := ToBinary(n, width);
      assert s[..|s| - 1] == ToBinary(n / 2, width - 1);
      FromToBinary(n / 2, width - 1);
      ModDouble(n, Pow2(width - 1));
    }
  }

  /** A number below 2^k printed on k bits reads back as itself. */
  lemma FromToBinarySmall(n: nat, width: nat)
    requires n < Pow2(width)
    ensures FromBinary(ToBinary(n, width)) == n
  {
    FromToBinary(n, width);
  }

  /** Bit fields side by side: the high part on `w` bits followed by a low
      part below 2^k on `k` bits is the number high * 2^k + low on w + k bits. */
  lemma {:induction false} ToBinaryConcat(hi: nat, lo: nat, w: nat, k: nat)
    requires lo < Pow2(k)
    ensures ToBinary(hi * Pow2(k) + lo, w + k) == ToBinary(hi, w) + ToBinary(lo, k)
  {
    if k > 0 {
      var n := hi * Pow2(k) + lo;
      var x := hi * Pow2(k - 1);
      assert hi * Pow2(k) == 2 * x;
      assert n == 2 * x + lo;
      assert n / 2 == x + lo / 2 && n % 2 == lo % 2;
      ToBinaryConcat(hi, lo / 2, w, k - 1);
    }
  }
}
