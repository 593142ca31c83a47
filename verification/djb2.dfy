/** The table's string hash (bcmap.c, `hash`): djb2 over the bytes of a C
    string, computed in a 64-bit `size_t` that wraps around. */
module Djb2 {
  import opened CString

  /** 2^64: `size_t` arithmetic is taken modulo this. */
  const SizeModulus: nat := 0x1_0000_0000_0000_0000

  /** The starting value of the hash. */
  const Seed: nat := 5381

  /** One round of the loop as written, `hashval = (hashval << 5) + hashval + c`:
      the shift and both additions each wrap modulo 2^64. */
  function Step(h: nat, c: Byte): (r: nat)
    requires h < SizeModulus
    ensures r < SizeModulus
    ensures r == (h * 33 + c) % SizeModulus
  {
    var shifted := (h * 32) % SizeModulus;
    var sum := (shifted + h) % SizeModulus;
    ModAddLeft(h * 32, h, SizeModulus);
    ModAddLeft(h * 33, c, SizeModulus);
    (sum + c) % SizeModulus
  }

  /** The hash of the bytes `s` (which stop before the terminator). */
  function Hash(s: seq<Byte>): (r: nat)
    ensures r < SizeModulus
  {
    if |s| == 0 then Seed else Step(Hash(s[..|s| - 1]), s[|s| - 1])
  }

  /** 33 to the power n. */
  ghost function Pow33(n: nat): nat
  {
    if n == 0 then 1 else 33 * Pow33(n - 1)
  }

  /** The sum over i of s[i] * 33^(|s|-1-i). */
  ghost function Weighted(s: seq<Byte>): nat
  {
    if |s| == 0 then 0 else s[0] * Pow33(|s| - 1) + Weighted(s[1..])
  }

  /** djb2 in closed form, over unbounded integers:
      5381 * 33^n + sum of s[i] * 33^(n-1-i) for a string of n bytes. */
  ghost function Djb2Polynomial(s: seq<Byte>): nat
  {
    Seed * Pow33(|s|) + Weighted(s)
  }

  /** The wrapping hash is the closed-form djb2 polynomial reduced modulo 2^64. */
  lemma {:induction false} HashIsPolynomial(s: seq<Byte>)
    ensures Hash(s) == Djb2Polynomial(s) % SizeModulus
    decreases |s|
  {
    if |s| > 0 {
      var init, c := s[..|s| - 1], s[|s| - 1];
      HashIsPolynomial(init);
      WeightedSnoc(init, c);
      assert s == init + [c];
      assert Djb2Polynomial(s) == Djb2Polynomial(init) * 33 + c;
      ModMulAdd(Djb2Polynomial(init), c, SizeModulus);
    }
  }

  /** Appending a byte multiplies the weighted sum by 33 and adds the byte. */
  lemma {:induction false} WeightedSnoc(s: seq<Byte>, c: Byte)
    ensures Weighted(s + [c]) == Weighted(s) * 33 + c
    decreases |s|
  {
    if |s| > 0 {
      assert (s + [c])[1..] == s[1..] + [c];
      WeightedSnoc(s[1..], c);
      assert Pow33(|s|) == 33 * Pow33(|s| - 1);
    }
  }

  /** The loop of `hash` over a C string in a buffer: read bytes until the
      terminator, folding each one in with Step. */
  method HashCString(buf: seq<Byte>) returns (h: nat)
    requires 0 in buf
    ensures h == Hash(CStr(buf))
    ensures h == Djb2Polynomial(CStr(buf)) % SizeModulus
  {
    h := Seed;
    var i := 0;
    while buf[i] != 0
      invariant 0 <= i <= FirstNul(buf)
      invariant h == Hash(buf[..i])
      decreases FirstNul(buf) - i
    {
      assert buf[..i + 1][..i] == buf[..i];
      h := Step(h, buf[i]);
      i := i + 1;
    }
    HashIsPolynomial(CStr(buf));
  }

  /** Reducing the left operand first does not change a sum modulo m. */
  lemma ModAddLeft(x: int, y: int, m: int)
    requires m > 0
    ensures ((x % m) + y) % m == (x + y) % m
  {
    ModShift(x % m + y, x / m, m);
  }

  /** (a % m) * 33 + c and a * 33 + c agree modulo m. */
  lemma ModMulAdd(a: int, c: int, m: int)
    requires m > 0
    ensures ((a % m) * 33 + c) % m == (a * 33 + c) % m
  {
    assert a * 33 + c == (a % m) * 33 + c + (a / m * 33) * m;
    ModShift((a % m) * 33 + c, a / m * 33, m);
  }

  /** Adding a multiple of m does not change a value modulo m. */
  lemma ModShift(z: int, q: int, m: int)
    requires m > 0
    ensures (z + q * m) % m == z % m
  {
    var r := z % m;
    assert z == (z / m) * m + r;
    assert z + q * m == (z / m + q) * m + r;
    ModUnique(z + q * m, z / m + q, r, m);
  }

  /** The remainder of z by m is the r of any decomposition z == q*m + r with 0 <= r < m. */
  lemma ModUnique(z: int, q: int, r: int, m: int)
    requires m > 0 && 0 <= r < m && z == q * m + r
    ensures z % m == r
  {
    var q', r' := z / m, z % m;
    assert z == q' * m + r';
    var d := q - q';
    assert d * m == q * m - q' * m;
    assert d * m == r' - r;
    if d > 0 {
      MulAtLeast(d, m);
    } else if d < 0 {
      MulAtLeast(-d, m);
    }
  }

  lemma MulAtLeast(d: int, m: int)
    requires d >= 1 && m > 0
    ensures d * m >= m
  {
  }
}
