/**
 * Fixed-width unsigned integers and their little-endian byte encoding, as
 * Rust's `to_le_bytes` / `from_le_bytes` define it and as Borsh uses it for
 * every integer field of an account.
 */
module LittleEndian {

  newtype u8 = x: int | 0 <= x < 0x100
  newtype u32 = x: int | 0 <= x < 0x1_0000_0000
  newtype u64 = x: int | 0 <= x < 0x1_0000_0000_0000_0000

  /** 256 to the power `i`: the weight of byte `i` in a little-endian number. */
  function Pow256(i: nat): (r: nat)
    ensures r > 0
  {
    if i == 0 then 1 else 256 * Pow256(i - 1)
  }

  lemma Pow256Widths()
    ensures Pow256(4) == 0x1_0000_0000
    ensures Pow256(8) == 0x1_0000_0000_0000_0000
  {
    assert Pow256(2) == 0x1_0000;
    assert Pow256(4) == 0x1_0000_0000 by { assert Pow256(4) == 256 * (256 * Pow256(2)); }
    assert Pow256(6) == 0x1_0000_0000_0000 by { assert Pow256(6) == 256 * (256 * Pow256(4)); }
    assert Pow256(8) == 256 * (256 * Pow256(6));
  }

  /** Every byte above the lowest weighs at least 256. */
  lemma {:induction false} Pow256AtLeast(i: nat)
    requires i > 0
    ensures Pow256(i) >= 256
  {
    if i > 1 {
      Pow256AtLeast(i - 1);
    }
  }

  /** A positive multiple of `d` is at least `d`. */
  lemma {:induction false} MulAtLeast(d: nat, k: nat)
    requires k >= 1
    ensures d * k >= d
  {
    if k > 1 {
      MulAtLeast(d, k - 1);
      assert d * k == d * (k - 1) + d;
    }
  }

  /** Division theorem: quotient and remainder are unique. */
  lemma DivUnique(x: int, d: int, q: int, r: int)
    requires d > 0 && 0 <= r < d && x == d * q + r
    ensures x / d == q && x % d == r
  {
    var q', r' := x / d, x % d;
    assert x == d * q' + r';
    assert d * q - d * q' == r' - r;
    if q > q' {
      assert d * (q - q') == d * q - d * q';
      MulAtLeast(d, q - q');
    } else if q < q' {
      assert d * (q' - q) == d * q' - d * q;
      MulAtLeast(d, q' - q);
    }
  }

  /** Dividing by `a` and then by `b` is dividing by `a * b`. */
  lemma DivDiv(x: nat, a: nat, b: nat)
    requires a > 0 && b > 0
    ensures (x / a) / b == x / (a * b)
  {
    var q, r := x / a, x % a;
    var q2, r2 := q / b, q % b;
    assert x == a * q + r;
    assert q == b * q2 + r2;
    assert a * q == a * (b * q2) + a * r2;
    assert a * (b * q2) == (a * b) * q2;
    assert r2 <= b - 1;
    assert a * r2 <= a * (b - 1) by { MulMono(a, r2, b - 1); }
    assert a * (b - 1) == a * b - a;
    DivUnique(x, a * b, q2, a * r2 + r);
  }

  lemma MulMono(a: nat, m: nat, n: nat)
    requires m <= n
    ensures a * m <= a * n
  {
    if m < n {
      MulAtLeast(a, n - m);
      assert a * n == a * m + a * (n - m);
    }
  }

  /**
   * The `width` low-order bytes of `x`, least significant first (see
   * LeBytesDigit for what each byte is).
   */
  function LeBytes(x: nat, width: nat): (r: seq<u8>)
    ensures |r| == width
  {
    if width == 0 then [] else [(x % 256) as u8] + LeBytes(x / 256, width - 1)
  }

  /** Byte `i` of the encoding is digit `i` of `x` written in base 256. */
  lemma {:induction false} LeBytesDigit(x: nat, width: nat, i: nat)
    requires i < width
    ensures LeBytes(x, width)[i] as int == (x / Pow256(i)) % 256
  {
    if i > 0 {
      LeBytesDigit(x / 256, width - 1, i - 1);
      DivDiv(x, 256, Pow256(i - 1));
    }
  }

  /** The number whose little-endian digits are `s`. */
  function FromLeBytes(s: seq<u8>): (r: nat)
    ensures r < Pow256(|s|)
  {
    if s == [] then 0 else s[0] as nat + 256 * FromLeBytes(s[1..])
  }

  /** Encoding a number that fits the width and decoding it gives it back. */
  lemma {:induction false} DecodeEncode(x: nat, width: nat)
    requires x < Pow256(width)
    ensures FromLeBytes(LeBytes(x, width)) == x
  {
    if width > 0 {
      var s := LeBytes(x, width);
      var q := x / 256;
      assert s[1..] == LeBytes(q, width - 1);
      assert x == 256 * q + x % 256;
      assert q < Pow256(width - 1);
      DecodeEncode(q, width - 1);
    }
  }

  /** Decoding a byte string and re-encoding at its width gives it back. */
  lemma {:induction false} EncodeDecode(s: seq<u8>)
    ensures LeBytes(FromLeBytes(s), |s|) == s
  {
    if s != [] {
      var x := FromLeBytes(s);
      DivUnique(x, 256, FromLeBytes(s[1..]), s[0] as int);
      EncodeDecode(s[1..]);
      assert LeBytes(x, |s|) == [s[0]] + s[1..];
    }
  }

  /** Two numbers that fit the width have the same encoding only if they are equal. */
  lemma EncodingInjective(x: nat, y: nat, width: nat)
    requires x < Pow256(width) && y < Pow256(width)
    ensures LeBytes(x, width) == LeBytes(y, width) <==> x == y
  {
    DecodeEncode(x, width);
    DecodeEncode(y, width);
  }
}
