/** Machine words and byte strings shared by the other modules. */
module Words {

  const TWO_64: int := 0x1_0000_0000_0000_0000

  type Byte = x: int | 0 <= x < 256
  type U32 = x: int | 0 <= x < 0x1_0000_0000
  type U64 = x: int | 0 <= x < 0x1_0000_0000_0000_0000

  /** 256 to the power `n`. */
  function Pow256(n: nat): (p: nat)
    ensures p > 0
  {
    if n == 0 then 1 else 256 * Pow256(n - 1)
  }

  /** The low `n` bytes of `x`, least significant first. */
  function ToLe(x: nat, n: nat): (s: seq<Byte>)
    ensures |s| == n
  {
    if n == 0 then [] else [x % 256] + ToLe(x / 256, n - 1)
  }

  function FromLe(s: seq<Byte>): nat {
    if s == [] then 0 else s[0] + 256 * FromLe(s[1..])
  }

  lemma {:induction false} FromLeToLe(x: nat, n: nat)
    requires x < Pow256(n)
    ensures FromLe(ToLe(x, n)) == x
  {
    if n > 0 {
      FromLeToLe(x / 256, n - 1);
      assert ToLe(x, n)[1..] == ToLe(x / 256, n - 1);
    }
  }

  /** The low `n` bytes of `x`, most significant first. */
  function ToBe(x: nat, n: nat): (s: seq<Byte>)
    ensures |s| == n
  {
    if n == 0 then [] else ToBe(x / 256, n - 1) + [x % 256]
  }

  function FromBe(s: seq<Byte>): nat {
    if s == [] then 0 else 256 * FromBe(s[..|s| - 1]) + s[|s| - 1]
  }

  lemma {:induction false} FromBeToBe(x: nat, n: nat)
    requires x < Pow256(n)
    ensures FromBe(ToBe(x, n)) == x
  {
    if n > 0 {
      FromBeToBe(x / 256, n - 1);
      assert ToBe(x, n)[..n - 1] == ToBe(x / 256, n - 1);
    }
  }

  lemma {:induction false} ToBeFromBe(s: seq<Byte>)
    ensures ToBe(FromBe(s), |s|) == s
  {
    if s != [] {
      ToBeFromBe(s[..|s| - 1]);
    }
  }

  lemma FromBeInjective(s: seq<Byte>, t: seq<Byte>)
    requires |s| == |t| && FromBe(s) == FromBe(t)
    ensures s == t
  {
    ToBeFromBe(s);
    ToBeFromBe(t);
  }

  /** Byte `i` of a word, least significant first. */
  lemma {:induction false} ToLeByte(x: nat, n: nat, i: nat)
    requires i < n
    ensures ToLe(x, n)[i] == x / Pow256(i) % 256
  {
    if i > 0 {
      ToLeByte(x / 256, n - 1, i - 1);
      DivideOnce(x, Pow256(i - 1));
    }
  }

  lemma DivideOnce(x: nat, p: nat)
    requires p > 0
    ensures x / (256 * p) == x / 256 / p
  {
    var q := x / 256 / p;
    var r := x / 256 % p;
    assert x / 256 == p * q + r;
    assert 256 * (p * q) == 256 * p * q;
    QuotientIs(x, 256 * p, q, 256 * r + x % 256);
  }

  lemma QuotientIs(x: nat, n: nat, q: nat, r: nat)
    requires n > 0 && x == n * q + r && r < n
    ensures x / n == q
  {
    var q' := x / n;
    assert x == n * q' + x % n;
    assert (q - q') * n == x % n - r;
    MultipleBound(q - q', n);
  }

  /** The two byte orders are each other's reverse. */
  lemma {:induction false} ToBeIsReversed(x: nat, n: nat, i: nat)
    requires i < n
    ensures ToBe(x, n)[n - 1 - i] == ToLe(x, n)[i]
  {
    if i > 0 {
      ToBeIsReversed(x / 256, n - 1, i - 1);
    }
  }

  // ---------------------------------------------------------------------
  // Remainders
  // ---------------------------------------------------------------------

  lemma SmallMod(x: nat, n: nat)
    requires x < n
    ensures x % n == x
  {
  }

  lemma MultipleBound(d: int, n: nat)
    ensures d >= 1 ==> d * n >= n
    ensures d <= -1 ==> d * n + n <= 0
  {
    if d >= 1 {
      assert d * n == (d - 1) * n + n;
    } else if d <= -1 {
      assert d * n == (d + 1) * n - n;
    }
  }

  lemma ModUnique(x: nat, n: nat, q: nat, r: nat)
    requires n > 0 && x == q * n + r && r < n
    ensures x % n == r
  {
    var q', r' := x / n, x % n;
    assert (q - q') * n == r' - r;
    MultipleBound(q - q', n);
  }

  /** One modulus more leaves the same remainder. */
  lemma AddModulus(x: nat, n: nat)
    requires n > 0
    ensures (x + n) % n == x % n
  {
    var q, r := x / n, x % n;
    assert x + n == (q + 1) * n + r;
    ModUnique(x + n, n, q + 1, r);
  }

  // ---------------------------------------------------------------------
  // Word arithmetic
  // ---------------------------------------------------------------------

  /** Addition and subtraction of 64-bit words as the compiled program does them. */
  function WrappingAdd(a: U64, b: nat): U64 {
    (a + b) % TWO_64
  }

  function WrappingSub(a: U64, b: U64): U64 {
    (a - b) % TWO_64
  }

  /** Reducing a summand first makes no difference. */
  lemma AddWraps(x: nat, y: nat)
    ensures (x % TWO_64 + y) % TWO_64 == (x + y) % TWO_64
  {
    assert x == x / TWO_64 * TWO_64 + x % TWO_64;
  }

  /** A sum of two words wraps at most once. */
  lemma AddCarries(x: U64, y: U64)
    ensures WrappingAdd(x, y) == if x + y < TWO_64 then x + y else x + y - TWO_64
  {
  }

  function SaturatingAdd(a: U64, b: U64): U64 {
    if a + b < TWO_64 then a + b else TWO_64 - 1
  }
}
