/**
 * Octets and their bits, the 64-bit integer ranges the programs compute in,
 * and facts about strictly increasing sequences shared by the encoder and
 * the decoder.
 */
module Bytes {

  /** The range of a C `signed long long` on a 64-bit machine. */
  const INT64_MIN: int := -0x8000_0000_0000_0000
  const INT64_MAX: int := 0x7fff_ffff_ffff_ffff

  /** Number of values of a C `unsigned long` on a 64-bit machine. */
  const U64: int := 0x1_0000_0000_0000_0000

  type int64 = x: int | INT64_MIN <= x <= INT64_MAX

  /** A C `unsigned long` on a 64-bit machine. */
  type u64 = x: int | 0 <= x < U64

  predicate InInt64(x: int) {
    INT64_MIN <= x <= INT64_MAX
  }

  /** Conversion to `unsigned long`: arithmetic modulo 2^64. */
  function Wrap(x: int): (r: u64)
    ensures 0 <= x < U64 ==> r == x
    ensures InInt64(x) && x >= 0 ==> r == x
  {
    x % U64
  }

  /** `a + b` on two `unsigned long`s: the carry out of bit 63 is lost. */
  function Add64(a: u64, b: u64): u64 {
    if a + b < U64 then a + b else a + b - U64
  }

  /** Unsigned addition is addition modulo 2^64. */
  lemma Add64Wrap(a: u64, b: u64)
    ensures Add64(a, b) == Wrap(a + b)
  {
    if a + b >= U64 {
      ModUnique(a + b, U64, 1, a + b - U64);
    }
  }

  /** An `unsigned long` printed with `%ld`: the same 64 bits read as signed. */
  function Signed(u: u64): (r: int)
    ensures InInt64(r)
    ensures Wrap(r) == u
  {
    if u <= INT64_MAX then u else u - U64
  }

  /** Printing a value that was wrapped into an `unsigned long` gives it back when it fits. */
  lemma SignedWrap(x: int)
    requires InInt64(x)
    ensures Signed(Wrap(x)) == x
  {
  }

  /** Adding after wrapping is wrapping after adding. */
  lemma WrapAdd(x: int, y: int)
    ensures Wrap(Wrap(x) + y) == Wrap(x + y)
  {
    var q, q', r := x / U64, (x + y) / U64, (x + y) % U64;
    assert x == U64 * q + Wrap(x);
    assert x + y == U64 * q' + r;
    assert Wrap(x) + y == U64 * (q' - q) + r;
    ModUnique(Wrap(x) + y, U64, q' - q, r);
  }

  /** Euclidean division is determined by its quotient and remainder. */
  lemma ModUnique(a: int, b: int, q: int, r: int)
    requires b > 0 && 0 <= r < b && a == b * q + r
    ensures a / b == q && a % b == r
  {
    var q', r' := a / b, a % b;
    assert b * (q - q') == r' - r;
    MulBounds(b, q - q');
  }

  /** A non-zero multiple of `b` is at least `b` away from 0. */
  lemma MulBounds(b: int, k: int)
    requires b > 0
    ensures k >= 1 ==> b * k >= b
    ensures k <= -1 ==> b * k <= -b
  {
    if k >= 1 {
      assert b * k == b + b * (k - 1);
    } else if k <= -1 {
      assert b * k == -b - b * (-k - 1);
    }
  }

  /** Bit `j` of octet `b`, least significant first: the C test `(b & (1<<j)) != 0`. */
  predicate Bit(b: bv8, j: nat)
    requires j < 8
  {
    b & (1 << j) != 0
  }

  /** The number of bits among bits 0 .. n-1 of `b` that equal `pol`. */
  function CountBelow(b: bv8, pol: bool, n: nat): (r: nat)
    requires n <= 8
    ensures r <= n
  {
    if n == 0 then 0 else CountBelow(b, pol, n - 1) + (if Bit(b, n - 1) == pol then 1 else 0)
  }

  function Indicator(b: bv8, j: nat, pol: bool): nat
    requires j < 8
  {
    if Bit(b, j) == pol then 1 else 0
  }

  /** The count over a whole octet written out bit by bit. */
  lemma CountOctet(b: bv8, pol: bool)
    ensures CountBelow(b, pol, 8) ==
      Indicator(b, 0, pol) + Indicator(b, 1, pol) + Indicator(b, 2, pol) + Indicator(b, 3, pol) +
      Indicator(b, 4, pol) + Indicator(b, 5, pol) + Indicator(b, 6, pol) + Indicator(b, 7, pol)
  {
    assert CountBelow(b, pol, 1) == CountBelow(b, pol, 0) + Indicator(b, 0, pol) by { }
    assert CountBelow(b, pol, 2) == CountBelow(b, pol, 1) + Indicator(b, 1, pol) by { }
    assert CountBelow(b, pol, 3) == CountBelow(b, pol, 2) + Indicator(b, 2, pol) by { }
    assert CountBelow(b, pol, 4) == CountBelow(b, pol, 3) + Indicator(b, 3, pol) by { }
    assert CountBelow(b, pol, 5) == CountBelow(b, pol, 4) + Indicator(b, 4, pol) by { }
    assert CountBelow(b, pol, 6) == CountBelow(b, pol, 5) + Indicator(b, 5, pol) by { }
    assert CountBelow(b, pol, 7) == CountBelow(b, pol, 6) + Indicator(b, 6, pol) by { }
    assert CountBelow(b, pol, 8) == CountBelow(b, pol, 7) + Indicator(b, 7, pol) by { }
  }

  /** Every bit is either 0 or 1, so the two counts over bits 0 .. n-1 add up to n. */
  lemma {:induction false} CountBelowComplement(b: bv8, n: nat)
    requires n <= 8
    ensures CountBelow(b, false, n) + CountBelow(b, true, n) == n
  {
    if n > 0 {
      CountBelowComplement(b, n - 1);
    }
  }

  /** Extending a prefix of `s` by one byte. */
  lemma PrefixAppend(a: seq<bv8>, s: seq<bv8>, i: nat)
    requires i < |s|
    ensures a + s[..i + 1] == (a + s[..i]) + [s[i]]
  {
    assert s[..i + 1] == s[..i] + [s[i]];
  }

  /** A prefix of `s` is a shorter prefix followed by the slice between them. */
  lemma PrefixSplit(s: seq<bv8>, i: nat, j: nat)
    requires i <= j <= |s|
    ensures s[..j] == s[..i] + s[i..j]
  {
  }

  predicate Increasing(s: seq<int>) {
    forall i, j :: 0 <= i < j < |s| ==> s[i] < s[j]
  }

  /** Two strictly increasing sequences with the same elements are the same sequence. */
  lemma {:induction false} IncreasingUnique(a: seq<int>, b: seq<int>)
    requires Increasing(a) && Increasing(b)
    requires forall x :: x in a <==> x in b
    ensures a == b
  {
    assert a != [] ==> a[0] in a && a[0] in b;
    assert b != [] ==> b[0] in b && b[0] in a;
    if a != [] {
      assert a[0] in b && b[0] in a;
      assert a[0] == b[0];
      forall x
        ensures x in a[1..] <==> x in b[1..]
      {
        if x in a[1..] {
          assert x in b && x != b[0];
        }
        if x in b[1..] {
          assert x in a && x != a[0];
        }
      }
      IncreasingUnique(a[1..], b[1..]);
      assert a == [a[0]] + a[1..];
      assert b == [b[0]] + b[1..];
    }
  }
}
