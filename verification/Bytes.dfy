/** Bytes and big-endian integers, the vocabulary every wire format shares. */
module Bytes {

  type byte = b: int | 0 <= b < 256
  type bytes = seq<byte>

  const TWO63 := 0x8000_0000_0000_0000
  const TWO64 := 0x1_0000_0000_0000_0000

  type int64 = n: int | -TWO63 <= n < TWO63

  /** 256 to the power k: the number of values k bytes can hold. */
  function Pow256(k: nat): (r: int)
    ensures r >= 1
  {
    if k == 0 then 1 else 256 * Pow256(k - 1)
  }

  lemma PowValues()
    ensures Pow256(1) == 0x100
    ensures Pow256(2) == 0x1_0000
    ensures Pow256(4) == 0x1_0000_0000
    ensures Pow256(8) == 0x1_0000_0000_0000_0000
  {
    assert Pow256(3) == 256 * Pow256(2);
    assert Pow256(4) == 256 * Pow256(3);
    assert Pow256(5) == 256 * Pow256(4);
    assert Pow256(6) == 256 * Pow256(5);
    assert Pow256(7) == 256 * Pow256(6);
  }

  /** The low k bytes of n, most significant first. */
  function Be(n: nat, k: nat): (s: bytes)
    ensures |s| == k
  {
    if k == 0 then [] else Be(n / 256, k - 1) + [n % 256]
  }

  /** The number a big-endian byte string denotes. */
  function FromBe(s: bytes): nat
  {
    if s == [] then 0 else 256 * FromBe(s[..|s| - 1]) + s[|s| - 1]
  }

  lemma {:induction false} FromBeBound(s: bytes)
    ensures FromBe(s) < Pow256(|s|)
  {
    if s == [] {
    } else {
      FromBeBound(s[..|s| - 1]);
    }
  }

  // A big-endian number byte by byte, most significant first.

  lemma Lanes2(n: nat, k: nat)
    ensures Be(n, k + 2) == Be(n / 0x1_0000, k) + [n / 0x100 % 0x100, n % 0x100]
  {
    assert Be(n, k + 2) == Be(n / 256, k + 1) + [n % 256];
    assert Be(n / 256, k + 1) == Be(n / 256 / 256, k) + [n / 256 % 256];
  }

  lemma Lanes4(n: nat, k: nat)
    ensures Be(n, k + 4) == Be(n / 0x1_0000_0000, k)
                            + [n / 0x100_0000 % 0x100, n / 0x1_0000 % 0x100, n / 0x100 % 0x100, n % 0x100]
  {
    hide Be;
    Lanes2(n, k + 2);
    Lanes2(n / 0x1_0000, k);
    Shift16(n);
  }

  lemma Shift16(n: nat)
    ensures n / 0x1_0000 / 0x1_0000 == n / 0x1_0000_0000
    ensures n / 0x1_0000 / 0x100 == n / 0x100_0000
  {}

  lemma Shift32(n: nat)
    ensures n / 0x1_0000_0000 / 0x100 == n / 0x100_0000_0000
    ensures n / 0x1_0000_0000 / 0x1_0000 == n / 0x1_0000_0000_0000
    ensures n / 0x1_0000_0000 / 0x100_0000 == n / 0x100_0000_0000_0000
  {}

  lemma Lanes8(n: nat)
    ensures Be(n, 8) == [
      n / 0x100_0000_0000_0000 % 0x100, n / 0x1_0000_0000_0000 % 0x100,
      n / 0x100_0000_0000 % 0x100, n / 0x1_0000_0000 % 0x100,
      n / 0x100_0000 % 0x100, n / 0x1_0000 % 0x100, n / 0x100 % 0x100, n % 0x100]
  {
    hide Be;
    Lanes4(n, 4);
    Lanes4(n / 0x1_0000_0000, 0);
    Shift32(n);
    NoLanes(n / 0x1_0000_0000 / 0x1_0000_0000);
  }

  lemma NoLanes(n: nat)
    ensures Be(n, 0) == [] && Be(n, 1) == [n % 0x100]
  {}

  /** Reading back the k bytes of any number that fits in them gives the number. */
  lemma {:induction false} FromBeOfBe(n: nat, k: nat)
    requires n < Pow256(k)
    ensures FromBe(Be(n, k)) == n
  {
    if k == 0 {
    } else {
      FromBeOfBe(n / 256, k - 1);
      var s := Be(n, k);
      assert s[..|s| - 1] == Be(n / 256, k - 1);
    }
  }

  /** Two byte strings of one length that denote one number are the same string. */
  lemma {:induction false} BeOfFromBe(s: bytes)
    ensures Be(FromBe(s), |s|) == s
  {
    if s == [] {
    } else {
      BeOfFromBe(s[..|s| - 1]);
      assert s == s[..|s| - 1] + [s[|s| - 1]];
    }
  }

  /** FromBe by Horner's rule from the left, as far as index k. */
  function Horner(s: bytes, k: nat): int
    requires k <= |s|
  {
    if k == 0 then 0 else 256 * Horner(s, k - 1) + s[k - 1]
  }

  lemma {:induction false} HornerIsFromBe(s: bytes, k: nat)
    requires k <= |s|
    ensures Horner(s, k) == FromBe(s[..k])
  {
    if k == 0 {
    } else {
      HornerIsFromBe(s, k - 1);
      assert s[..k][..k - 1] == s[..k - 1];
    }
  }

  // Assembly by shifts and ors; the lanes do not overlap, so they add up.

  function Join2(a: int, b: int): int { 0x100 * a + b }

  function Join4(a: int, b: int, c: int, d: int): int {
    0x100_0000 * a + 0x1_0000 * b + 0x100 * c + d
  }

  function Join8(a: int, b: int, c: int, d: int, e: int, f: int, g: int, h: int): int {
    0x1_0000_0000 * Join4(a, b, c, d) + Join4(e, f, g, h)
  }

  /** Assembling two, four or eight bytes yields the number they denote. */
  lemma JoinIsFromBe(s: bytes)
    ensures |s| == 1 ==> FromBe(s) == s[0]
    ensures |s| == 2 ==> FromBe(s) == Join2(s[0], s[1])
    ensures |s| == 4 ==> FromBe(s) == Join4(s[0], s[1], s[2], s[3])
    ensures |s| == 8 ==>
      FromBe(s) == Join8(s[0], s[1], s[2], s[3], s[4], s[5], s[6], s[7])
  {
    HornerIsFromBe(s, |s|);
    assert s[..|s|] == s;
    if |s| == 2 { Horner2(s, 2); }
    if |s| == 4 { Horner2(s, 2); Horner2(s, 4); }
    if |s| == 8 { Horner2(s, 2); Horner2(s, 4); Horner2(s, 6); Horner2(s, 8); }
  }

  lemma Horner2(s: bytes, k: nat)
    requires 2 <= k <= |s|
    ensures Horner(s, k) == 0x1_0000 * Horner(s, k - 2) + Join2(s[k - 2], s[k - 1])
    ensures Horner(s, 0) == 0
  {}

  /** The number widths of the format. */
  predicate NumWidth(k: nat) { k == 1 || k == 2 || k == 4 || k == 8 }

  /** Two's complement: in range, and congruent to the number that was there. */
  lemma SignedIsCongruent(n: nat, k: nat)
    requires n < Pow256(k) && k > 0
    ensures InSigned(Signed(n, k), k)
    ensures Signed(n, k) == n || Signed(n, k) == n - Pow256(k)
  {}

  lemma UnsignedIsCongruent(n: int, k: nat)
    ensures 0 <= Unsigned(n, k) < Pow256(k) && (n - Unsigned(n, k)) % Pow256(k) == 0
  {
    var p, q := Pow256(k), n / Pow256(k);
    assert n - Unsigned(n, k) == p * q;
    MultipleRest(p, q);
  }

  lemma MultipleRest(p: int, q: int)
    requires p > 0
    ensures p * q % p == 0
  {
    var a, r := p * q / p, p * q % p;
    assert p * (q - a) == r;
    if q > a { Stretch(p, q - a); }
    if q < a { Stretch(p, a - q); }
  }

  lemma Stretch(p: int, a: int)
    requires p > 0 && a > 0
    ensures p * a >= p
  {}

  /** The two's complement reading of a k-byte number. */
  function Signed(n: nat, k: nat): int
  {
    if 2 * n >= Pow256(k) then n - Pow256(k) else n
  }

  /** The k-byte pattern of an integer, as Go's conversion to an unsigned type takes it. */
  function Unsigned(n: int, k: nat): nat
  {
    n % Pow256(k)
  }

  predicate InSigned(n: int, k: nat) { -Pow256(k) <= 2 * n < Pow256(k) }

  /** The two reinterpretations undo each other. */
  lemma SignedOfUnsigned(n: int, k: nat)
    requires NumWidth(k) && InSigned(n, k)
    ensures Unsigned(n, k) < Pow256(k) && Signed(Unsigned(n, k), k) == n
  {
    hide Pow256;
    WrapOnce(n, Pow256(k));
  }

  lemma WrapOnce(n: int, p: int)
    requires p > 0 && -p <= n < p
    ensures n % p == if n < 0 then n + p else n
  {}

  lemma UnsignedOfSigned(n: nat, k: nat)
    requires NumWidth(k) && n < Pow256(k)
    ensures InSigned(Signed(n, k), k) && Unsigned(Signed(n, k), k) == n
  {
    hide Pow256;
    SignedIsCongruent(n, k);
    WrapOnce(Signed(n, k), Pow256(k));
  }

  /** s stands in input at pos. */
  predicate At(input: bytes, pos: nat, s: bytes) {
    pos + |s| <= |input| && input[pos..pos + |s|] == s
  }

  /** A concatenation stands at pos exactly when its parts stand one after the other. */
  lemma AtConcat(input: bytes, pos: nat, a: bytes, b: bytes)
    ensures At(input, pos, a + b) <==> At(input, pos, a) && At(input, pos + |a|, b)
  {
    if At(input, pos, a + b) {
      var s := input[pos..pos + |a + b|];
      assert input[pos..pos + |a|] == s[..|a|];
      assert input[pos + |a|..pos + |a| + |b|] == s[|a|..];
    }
    if At(input, pos, a) && At(input, pos + |a|, b) {
      assert input[pos..pos + |a + b|] == input[pos..pos + |a|] + input[pos + |a|..pos + |a| + |b|];
    }
  }
}
