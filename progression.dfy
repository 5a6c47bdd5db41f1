/**
 * The mapping between values and bit positions that all three programs share.
 * A progression `start, start+step, ...` with `step > 0` is laid out in a raw
 * byte stream: the value with index `t = (v - start) / step` is bit `t % 8`
 * (least significant first) of octet `t / 8`.
 */
module Progression {
  import opened Wrappers
  import opened Bytes

  /** The two command-line parameters that give the bytes their meaning. */
  datatype Progression = Progression(start: int, step: int)

  /** Octet `octet` of the stream, bit `bit` of that octet. */
  datatype Position = Position(octet: nat, bit: nat)

  predicate ValidProgression(p: Progression) {
    p.step > 0
  }

  /** The value that bit index `t` stands for. */
  function ValueAt(p: Progression, t: nat): int {
    p.start + p.step * t
  }

  /** The value that octet `x`, bit `y` stands for: `start + step * (x*8 + y)`. */
  function ValueOf(p: Progression, pos: Position): int
    requires pos.bit < 8
  {
    ValueAt(p, 8 * pos.octet + pos.bit)
  }

  /**
   * A value has a bit of its own when it is not below `start` and differs from
   * `start` by a whole number of steps. The start test comes first, so the
   * remainder is only ever taken of a non-negative difference, where C's `%`
   * and Dafny's `%` agree.
   */
  predicate Representable(p: Progression, v: int)
    requires ValidProgression(p)
  {
    v >= p.start && (v - p.start) % p.step == 0
  }

  /** The bit index of a representable value: `t = (v - start) / step`. */
  function IndexOf(p: Progression, v: int): (t: nat)
    requires ValidProgression(p) && Representable(p, v)
    ensures ValueAt(p, t) == v
  {
    (v - p.start) / p.step
  }

  /** `x = t / 8`, `y = t % 8`. */
  function Split(t: nat): (pos: Position)
    ensures pos.bit < 8 && 8 * pos.octet + pos.bit == t
  {
    Position(t / 8, t % 8)
  }

  /** Where a value is stored, or None when the value is ignored for having no bit. */
  function Locate(p: Progression, v: int): (r: Option<Position>)
    requires ValidProgression(p)
    ensures r.Some? <==> v >= p.start && (v - p.start) % p.step == 0
    ensures r.Some? ==> r.value.bit < 8 && ValueOf(p, r.value) == v
  {
    if Representable(p, v) then Some(Split(IndexOf(p, v))) else None
  }

  /** Different bit indices stand for different values, in the same order. */
  lemma ValueAtMonotonic(p: Progression, t: nat, u: nat)
    requires ValidProgression(p) && t < u
    ensures ValueAt(p, t) < ValueAt(p, u)
  {
    assert p.step * u == p.step * t + p.step * (u - t);
  }

  /** Every bit index stands for a representable value, and `IndexOf` gives the index back. */
  lemma IndexOfValueAt(p: Progression, t: nat)
    requires ValidProgression(p)
    ensures Representable(p, ValueAt(p, t)) && IndexOf(p, ValueAt(p, t)) == t
  {
    ModUnique(p.step * t, p.step, t, 0);
  }

  /** Decoding a position and locating the value gives the position back. */
  lemma LocateValueOf(p: Progression, pos: Position)
    requires ValidProgression(p) && pos.bit < 8
    ensures Locate(p, ValueOf(p, pos)) == Some(pos)
  {
    IndexOfValueAt(p, 8 * pos.octet + pos.bit);
  }

  /** Two representable values share a bit only when they are equal. */
  lemma IndexOfInjective(p: Progression, v: int, w: int)
    requires ValidProgression(p) && Representable(p, v) && Representable(p, w)
    ensures IndexOf(p, v) == IndexOf(p, w) <==> v == w
    ensures IndexOf(p, v) < IndexOf(p, w) <==> v < w
  {
    var t, u := IndexOf(p, v), IndexOf(p, w);
    if t < u {
      ValueAtMonotonic(p, t, u);
    } else if u < t {
      ValueAtMonotonic(p, u, t);
    }
  }

  /** With `start = 1`, `step = 2` the bitmap holds the odd numbers: octet x, bit y is `16x + 2y + 1`. */
  lemma OddNumbers(x: nat, y: nat)
    requires y < 8
    ensures ValueOf(Progression(1, 2), Position(x, y)) == 16 * x + 2 * y + 1
  {
  }
}
