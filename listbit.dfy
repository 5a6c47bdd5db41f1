/**
 * The decoder: a raw bitmap in, one decimal value per line out. With
 * `start` and `step` it prints, for each bit of the requested polarity, the
 * value that bit stands for. `start`, `step` and the running `value` are C
 * `unsigned long`s, so all arithmetic wraps modulo 2^64, and each value is
 * printed with `%ld`, that is, read back as a signed 64-bit number.
 */
module Listbit {
  import opened Wrappers
  import opened Bytes
  import opened Stdio
  import opened Progression
  import opened Filter
  import opened Bitset
  import opened Popcnt

  /** What strtoll made of an argument: a value, or `ERANGE`. */
  datatype Conversion = Converted(value: int64) | OutOfRange

  /** Why the arguments are refused (exit 3). */
  datatype ArgError = BadStart | BadStep | NonPositiveStep | BadType

  /** The parsed arguments: `start` and `step` as `unsigned long`, and whether 1 bits are listed. */
  datatype Listing = Listing(start: u64, step: u64, ones: bool)

  /**
   * The argument checks as written: `start`, then `step`, then the test
   * `step <= 0`, then the type "0" or "1". The step test is made on the
   * `unsigned long`, so only a step that wraps to 0 fails it.
   */
  function ListArgs(start: Conversion, step: Conversion, kind: string): (r: Result<Listing, ArgError>)
    ensures r.Success? <==>
      start.Converted? && step.Converted? && Wrap(step.value) != 0 && (kind == "0" || kind == "1")
    ensures r.Success? ==>
      r.value.start == Wrap(start.value) && r.value.step == Wrap(step.value) && (r.value.ones <==> kind == "1")
    ensures r == Failure(BadStart) <==> start.OutOfRange?
  {
    if start.OutOfRange? then Failure(BadStart)
    else if step.OutOfRange? then Failure(BadStep)
    else if Wrap(step.value) == 0 then Failure(NonPositiveStep)
    else if kind == "0" then Success(Listing(Wrap(start.value), Wrap(step.value), false))
    else if kind == "1" then Success(Listing(Wrap(start.value), Wrap(step.value), true))
    else Failure(BadType)
  }

  /** The argument checks with the step tested as the signed value that strtoll returned. */
  function ListArgsChecked(start: Conversion, step: Conversion, kind: string): (r: Result<Listing, ArgError>)
    ensures r.Success? <==>
      start.Converted? && step.Converted? && step.value > 0 && (kind == "0" || kind == "1")
    ensures r.Success? ==> r.value.step == step.value < U64
  {
    if start.OutOfRange? then Failure(BadStart)
    else if step.OutOfRange? then Failure(BadStep)
    else if step.value <= 0 then Failure(NonPositiveStep)
    else if kind == "0" then Success(Listing(Wrap(start.value), step.value, false))
    else if kind == "1" then Success(Listing(Wrap(start.value), step.value, true))
    else Failure(BadType)
  }

  /**
   * The two checks differ exactly on negative steps: those pass as written
   * (and list a descending progression) but are refused by the signed check.
   */
  lemma NegativeStepAccepted(start: Conversion, step: Conversion, kind: string)
    ensures ListArgsChecked(start, step, kind).Success? ==> ListArgs(start, step, kind) == ListArgsChecked(start, step, kind)
    ensures ListArgs(start, step, kind).Success? && ListArgsChecked(start, step, kind).Failure? <==>
      ListArgs(start, step, kind).Success? && step.value < 0
    ensures ListArgs(Converted(0), Converted(-1), "1") == Success(Listing(0, U64 - 1, true))
    ensures ListArgsChecked(Converted(0), Converted(-1), "1") == Failure(NonPositiveStep)
  {
  }

  /** The bit indices `base + j`, `j < n`, of octet `b` whose bit equals `pol`, in increasing order. */
  function OctetHits(b: bv8, pol: bool, base: nat, n: nat): (ks: seq<nat>)
    requires n <= 8
    ensures |ks| == CountBelow(b, pol, n)
  {
    if n == 0 then []
    else OctetHits(b, pol, base, n - 1) + if Bit(b, n - 1) == pol then [base + n - 1] else []
  }

  /** The indices listed for one octet are exactly its bits of polarity `pol`, in increasing order. */
  lemma {:induction false} OctetHitsExactly(b: bv8, pol: bool, base: nat, n: nat)
    requires n <= 8
    ensures forall k :: k in OctetHits(b, pol, base, n) <==> base <= k < base + n && Bit(b, k - base) == pol
    ensures forall i :: 0 <= i < |OctetHits(b, pol, base, n)| ==> base <= OctetHits(b, pol, base, n)[i] < base + n
    ensures Increasing(OctetHits(b, pol, base, n))
  {
    if n > 0 {
      OctetHitsExactly(b, pol, base, n - 1);
    }
  }

  /** Every bit index of `bytes` whose bit equals `pol`, in increasing order: what the listing is meant to be. */
  function PerBitHits(bytes: seq<bv8>, pol: bool): seq<nat> {
    if bytes == [] then []
    else
      var n := |bytes| - 1;
      PerBitHits(bytes[..n], pol) + OctetHits(bytes[n], pol, 8 * n, 8)
  }

  /** The bit indices the decoder lists as written: an octet that is 0 is skipped whole. */
  function Hits(bytes: seq<bv8>, pol: bool): seq<nat> {
    if bytes == [] then []
    else
      var n := |bytes| - 1;
      Hits(bytes[..n], pol) + if bytes[n] != 0 then OctetHits(bytes[n], pol, 8 * n, 8) else []
  }

  /** Bit k % 8 of octet k / 8 exists and equals `pol`. */
  predicate BitAt(bytes: seq<bv8>, k: nat, pol: bool) {
    k / 8 < |bytes| && Bit(bytes[k / 8], k % 8) == pol
  }

  /** Index k lies in an octet that is 0. */
  predicate InZeroOctet(bytes: seq<bv8>, k: nat) {
    k / 8 < |bytes| && bytes[k / 8] == 0
  }

  /** `value` when bit index k is reached: `start`, then `value += step` once per bit, in `unsigned long`. */
  function Running(start: u64, step: u64, k: nat): u64 {
    if k == 0 then start else Add64(Running(start, step, k - 1), step)
  }

  /** The running value in closed form: `start + k * step` modulo 2^64. */
  lemma {:induction false} RunningClosed(start: u64, step: u64, k: nat)
    ensures Running(start, step, k) == Wrap(start + k * step)
  {
    if k > 0 {
      var before := start + (k - 1) * step;
      RunningClosed(start, step, k - 1);
      Add64Wrap(Running(start, step, k - 1), step);
      assert before + step == start + k * step;
      WrapAdd(before, step);
    }
  }

  /** `value += OCTETBITS*step` in `unsigned long` moves on eight bits at once. */
  lemma RunningSkip(start: u64, step: u64, k: nat)
    ensures Add64(Running(start, step, k), Wrap(OCTETBITS * step)) == Running(start, step, k + 8)
  {
    var before := start + k * step;
    RunningClosed(start, step, k);
    RunningClosed(start, step, k + 8);
    Add64Wrap(Running(start, step, k), Wrap(OCTETBITS * step));
    assert before + OCTETBITS * step == start + (k + 8) * step;
    WrapAdd(before, Wrap(OCTETBITS * step));
    WrapAdd(OCTETBITS * step, before);
  }

  /** The lines printed for bit indices `ks`: each `value` printed with `%ld`. */
  function Emit(ks: seq<nat>, start: u64, step: u64): seq<int> {
    seq(|ks|, i requires 0 <= i < |ks| => Signed(Running(start, step, ks[i])))
  }

  /** One more octet: how both listings grow. */
  lemma HitsAppend(bytes: seq<bv8>, b: bv8, ones: bool)
    ensures Hits(bytes + [b], ones) == Hits(bytes, ones) + if b != 0 then OctetHits(b, ones, 8 * |bytes|, 8) else []
    ensures PerBitHits(bytes + [b], ones) == PerBitHits(bytes, ones) + OctetHits(b, ones, 8 * |bytes|, 8)
  {
    assert (bytes + [b])[..|bytes|] == bytes;
  }

  lemma EmitConcat(a: seq<nat>, b: seq<nat>, start: u64, step: u64)
    ensures Emit(a + b, start, step) == Emit(a, start, step) + Emit(b, start, step)
  {
  }

  /**
   * The intended listing, without recursion: index k is listed exactly when
   * bit k % 8 of octet k / 8 equals `pol`; the indices increase, and there
   * are as many as the bit counter counts.
   */
  lemma {:induction false} PerBitHitsExactly(bytes: seq<bv8>, pol: bool)
    ensures forall k :: k in PerBitHits(bytes, pol) <==> BitAt(bytes, k, pol)
    ensures forall i :: 0 <= i < |PerBitHits(bytes, pol)| ==> PerBitHits(bytes, pol)[i] < 8 * |bytes|
    ensures Increasing(PerBitHits(bytes, pol))
    ensures |PerBitHits(bytes, pol)| == BitsMatching(bytes, pol)
  {
    if bytes != [] {
      var n := |bytes| - 1;
      var init := bytes[..n];
      PerBitHitsExactly(init, pol);
      var a, b := PerBitHits(init, pol), OctetHits(bytes[n], pol, 8 * n, 8);
      OctetHitsExactly(bytes[n], pol, 8 * n, 8);
      assert PerBitHits(bytes, pol) == a + b;
      forall k: nat
        ensures k in a + b <==> BitAt(bytes, k, pol)
      {
        if k / 8 < n {
          assert bytes[k / 8] == init[k / 8];
        }
      }
      forall i, j | 0 <= i < j < |a + b|
        ensures (a + b)[i] < (a + b)[j]
      {
        if j >= |a| && i < |a| {
          assert (a + b)[i] == a[i] && (a + b)[j] == b[j - |a|];
        }
      }
    }
  }

  /** An octet that is 0 has no 1 bit to list. */
  lemma ZeroOctetHits(base: nat)
    ensures OctetHits(0, true, base, 8) == []
  {
    CountOctet(0, true);
  }

  /** For 1 bits the shortcut over zero octets is sound: the listing as written is the intended one. */
  lemma {:induction false} HitsOnes(bytes: seq<bv8>)
    ensures Hits(bytes, true) == PerBitHits(bytes, true)
  {
    if bytes != [] {
      var n := |bytes| - 1;
      HitsOnes(bytes[..n]);
      if bytes[n] == 0 {
        ZeroOctetHits(8 * n);
      }
    }
  }

  /** For 0 bits the listing as written drops exactly the indices that lie in an octet equal to 0. */
  lemma {:induction false} HitsZeros(bytes: seq<bv8>, k: nat)
    ensures k in Hits(bytes, false) <==> k in PerBitHits(bytes, false) && !InZeroOctet(bytes, k)
  {
    if bytes != [] {
      var n := |bytes| - 1;
      var init := bytes[..n];
      var octet := OctetHits(bytes[n], false, 8 * n, 8);
      assert PerBitHits(bytes, false) == PerBitHits(init, false) + octet;
      HitsZeros(init, k);
      OctetHitsExactly(bytes[n], false, 8 * n, 8);
      if k / 8 < n {
        assert k !in octet;
        assert bytes[k / 8] == init[k / 8];
      } else {
        PerBitHitsExactly(init, false);
        assert k !in PerBitHits(init, false);
      }
    }
  }

  /** The listing as written comes out in increasing bit-index order, inside the bytes read. */
  lemma {:induction false} HitsIncreasing(bytes: seq<bv8>, pol: bool)
    ensures Increasing(Hits(bytes, pol))
    ensures forall i :: 0 <= i < |Hits(bytes, pol)| ==> Hits(bytes, pol)[i] < 8 * |bytes|
  {
    if bytes != [] {
      var n := |bytes| - 1;
      HitsIncreasing(bytes[..n], pol);
      OctetHitsExactly(bytes[n], pol, 8 * n, 8);
      var a := Hits(bytes[..n], pol);
      var b := if bytes[n] != 0 then OctetHits(bytes[n], pol, 8 * n, 8) else [];
      assert Hits(bytes, pol) == a + b;
      forall i, j | 0 <= i < j < |a + b|
        ensures (a + b)[i] < (a + b)[j]
      {
        if j >= |a| && i < |a| {
          assert (a + b)[i] == a[i] && (a + b)[j] == b[j - |a|];
        }
      }
    }
  }

  /** A single zero octet, listing 0 bits: nothing is printed where eight values are due. */
  lemma ZeroOctetSkipped()
    ensures Hits([0], false) == []
    ensures PerBitHits([0], false) == [0, 1, 2, 3, 4, 5, 6, 7]
  {
    assert [0 as bv8][..0] == [];
    assert OctetHits(0, false, 0, 1) == [0];
    assert OctetHits(0, false, 0, 2) == [0, 1];
    assert OctetHits(0, false, 0, 3) == [0, 1, 2];
    assert OctetHits(0, false, 0, 4) == [0, 1, 2, 3];
    assert OctetHits(0, false, 0, 5) == [0, 1, 2, 3, 4];
    assert OctetHits(0, false, 0, 6) == [0, 1, 2, 3, 4, 5];
    assert OctetHits(0, false, 0, 7) == [0, 1, 2, 3, 4, 5, 6];
  }

  /**
   * How many lines are listed: one per bit of the requested polarity, the
   * number the bit counter prints for the same input and type.
   */
  lemma ListingCount(bytes: seq<bv8>, ones: bool, start: u64, step: u64)
    ensures |Emit(PerBitHits(bytes, ones), start, step)| == Expected(bytes, if ones then CountOne else CountZero)
    ensures ones ==> |Emit(Hits(bytes, ones), start, step)| == Expected(bytes, CountOne)
  {
    PerBitHitsExactly(bytes, ones);
    if ones {
      HitsOnes(bytes);
    }
  }

  /**
   * The bits of one non-zero octet: bit j, least significant first, is listed
   * when it equals the requested polarity, and `value` moves on by `step`
   * after every bit.
   */
  method ListOctet(b: bv8, ones: bool, start: u64, step: u64, ghost base: nat, value: u64)
    returns (out: seq<int>, next: u64)
    requires value == Running(start, step, base)
    ensures out == Emit(OctetHits(b, ones, base, 8), start, step)
    ensures next == Running(start, step, base + 8)
  {
    out, next := [], value;
    for j := 0 to OCTETBITS
      invariant out == Emit(OctetHits(b, ones, base, j), start, step)
      invariant next == Running(start, step, base + j)
    {
      EmitConcat(OctetHits(b, ones, base, j), if Bit(b, j) == ones then [base + j] else [], start, step);
      if Bit(b, j) == ones {
        out := out + [Signed(next)];
      }
      next := Add64(next, step);
    }
  }

  /** The printed listings after one more octet `b`, in terms of those before it. */
  lemma ListStep(prefix: seq<bv8>, b: bv8, ones: bool, start: u64, step: u64)
    ensures var octet := Emit(OctetHits(b, ones, 8 * |prefix|, 8), start, step);
      Emit(Hits(prefix + [b], ones), start, step) == Emit(Hits(prefix, ones), start, step) + if b != 0 then octet else []
    ensures Emit(PerBitHits(prefix + [b], ones), start, step) ==
      Emit(PerBitHits(prefix, ones), start, step) + Emit(OctetHits(b, ones, 8 * |prefix|, 8), start, step)
    ensures b == 0 ==> OctetHits(b, true, 8 * |prefix|, 8) == []
  {
    var octet := OctetHits(b, ones, 8 * |prefix|, 8);
    HitsAppend(prefix, b, ones);
    EmitConcat(Hits(prefix, ones), if b != 0 then octet else [], start, step);
    EmitConcat(PerBitHits(prefix, ones), octet, start, step);
    if b == 0 {
      ZeroOctetHits(8 * |prefix|);
    }
  }

  /**
   * One octet of the buffer as written: a non-zero octet is listed bit by bit;
   * an octet that is 0 is passed over with `value += OCTETBITS*step`.
   */
  method ListByte(ghost prefix: seq<bv8>, b: bv8, ones: bool, start: u64, step: u64, out0: seq<int>, value: u64)
    returns (out: seq<int>, next: u64)
    requires out0 == Emit(Hits(prefix, ones), start, step) && value == Running(start, step, 8 * |prefix|)
    ensures out == Emit(Hits(prefix + [b], ones), start, step)
    ensures next == Running(start, step, 8 * |prefix + [b]|)
  {
    ListStep(prefix, b, ones, start, step);
    if b != 0 {
      var octet, after := ListOctet(b, ones, start, step, 8 * |prefix|, value);
      out, next := out0 + octet, after;
    } else {
      RunningSkip(start, step, 8 * |prefix|);
      out, next := out0, Add64(value, Wrap(OCTETBITS * step));
    }
  }

  /** The switch over one buffer as written. */
  method ListBuffer(ghost before: seq<bv8>, buffer: seq<bv8>, ones: bool, start: u64, step: u64, out0: seq<int>, value: u64)
    returns (out: seq<int>, next: u64)
    requires out0 == Emit(Hits(before, ones), start, step) && value == Running(start, step, 8 * |before|)
    ensures out == Emit(Hits(before + buffer, ones), start, step)
    ensures next == Running(start, step, 8 * (|before| + |buffer|))
  {
    out, next := out0, value;
    assert before + buffer[..0] == before;
    for i := 0 to |buffer|
      invariant out == Emit(Hits(before + buffer[..i], ones), start, step)
      invariant next == Running(start, step, 8 * |before + buffer[..i]|)
    {
      PrefixAppend(before, buffer, i);
      out, next := ListByte(before + buffer[..i], buffer[i], ones, start, step, out, next);
    }
    assert buffer[..|buffer|] == buffer;
  }

  /**
   * One octet with the shortcut kept to 1 bits, where it is sound: when 0
   * bits are listed, an octet that is 0 is listed bit by bit like any other.
   */
  method ListByteFixed(ghost prefix: seq<bv8>, b: bv8, ones: bool, start: u64, step: u64, out0: seq<int>, value: u64)
    returns (out: seq<int>, next: u64)
    requires out0 == Emit(PerBitHits(prefix, ones), start, step) && value == Running(start, step, 8 * |prefix|)
    ensures out == Emit(PerBitHits(prefix + [b], ones), start, step)
    ensures next == Running(start, step, 8 * |prefix + [b]|)
  {
    ListStep(prefix, b, ones, start, step);
    if b != 0 || !ones {
      var octet, after := ListOctet(b, ones, start, step, 8 * |prefix|, value);
      out, next := out0 + octet, after;
    } else {
      RunningSkip(start, step, 8 * |prefix|);
      out, next := out0, Add64(value, Wrap(OCTETBITS * step));
    }
  }

  /** The switch over one buffer, listing every bit of the requested polarity. */
  method ListBufferFixed(ghost before: seq<bv8>, buffer: seq<bv8>, ones: bool, start: u64, step: u64, out0: seq<int>, value: u64)
    returns (out: seq<int>, next: u64)
    requires out0 == Emit(PerBitHits(before, ones), start, step) && value == Running(start, step, 8 * |before|)
    ensures out == Emit(PerBitHits(before + buffer, ones), start, step)
    ensures next == Running(start, step, 8 * (|before| + |buffer|))
  {
    out, next := out0, value;
    assert before + buffer[..0] == before;
    for i := 0 to |buffer|
      invariant out == Emit(PerBitHits(before + buffer[..i], ones), start, step)
      invariant next == Running(start, step, 8 * |before + buffer[..i]|)
    {
      PrefixAppend(before, buffer, i);
      out, next := ListByteFixed(before + buffer[..i], buffer[i], ones, start, step, out, next);
    }
    assert buffer[..|buffer|] == buffer;
  }

  /** One `fread` of the decoder and the switch over what it returned. */
  method ListRead(stream: seq<bv8>, bufsiz: nat, pos: nat, lst: Listing, out0: seq<int>, value: u64)
    returns (readcnt: nat, out: seq<int>, next: u64)
    requires pos <= |stream|
    requires out0 == Emit(Hits(stream[..pos], lst.ones), lst.start, lst.step)
    requires value == Running(lst.start, lst.step, 8 * pos)
    ensures readcnt == ReadCount(|stream| - pos, bufsiz)
    ensures out == Emit(Hits(stream[..pos + readcnt], lst.ones), lst.start, lst.step)
    ensures next == Running(lst.start, lst.step, 8 * (pos + readcnt))
  {
    readcnt := ReadCount(|stream| - pos, bufsiz);
    var buffer := stream[pos..pos + readcnt];
    PrefixSplit(stream, pos, pos + readcnt);
    out, next := ListBuffer(stream[..pos], buffer, lst.ones, lst.start, lst.step, out0, value);
  }

  /**
   * The decoder as written: read buffers until `feof`, listing each one. Every
   * byte of the input is listed before the loop fails on an empty read, which
   * comes exactly when the input length is a multiple of the buffer size.
   */
  method ListBits(stream: seq<bv8>, bufsiz: nat, lst: Listing) returns (out: seq<int>, failed: bool)
    requires bufsiz > 0
    ensures out == Emit(Hits(stream, lst.ones), lst.start, lst.step)
    ensures failed <==> |stream| % bufsiz == 0
  {
    out := [];
    var value := lst.start;
    var pos := 0;
    ghost var done := 0;
    while true
      invariant pos == Consumed(done, bufsiz) <= |stream|
      invariant out == Emit(Hits(stream[..pos], lst.ones), lst.start, lst.step)
      invariant value == Running(lst.start, lst.step, 8 * pos)
      decreases |stream| - pos
    {
      var readcnt;
      readcnt, out, value := ListRead(stream, bufsiz, pos, lst, out, value);
      if readcnt == 0 {
        assert |stream| % bufsiz == 0 by { EmptyReadAt(|stream|, bufsiz, done); }
        failed := true;
        break;
      }
      pos := pos + readcnt;
      if AtEof(readcnt, bufsiz) {
        assert |stream| % bufsiz != 0 by { EmptyReadAt(|stream|, bufsiz, done); }
        failed := false;
        break;
      }
      done := done + 1;
    }
    assert stream[..pos] == stream;
  }

  /** The decoder as evidently intended: an empty read ends the input, and every bit is listed. */
  method ListBitsFixed(stream: seq<bv8>, bufsiz: nat, lst: Listing) returns (out: seq<int>)
    requires bufsiz > 0
    ensures out == Emit(PerBitHits(stream, lst.ones), lst.start, lst.step)
  {
    out := [];
    var value := lst.start;
    var pos := 0;
    while true
      invariant pos <= |stream|
      invariant out == Emit(PerBitHits(stream[..pos], lst.ones), lst.start, lst.step)
      invariant value == Running(lst.start, lst.step, 8 * pos)
      decreases |stream| - pos
    {
      var readcnt := ReadCount(|stream| - pos, bufsiz);
      if readcnt == 0 {
        break;
      }
      var buffer := stream[pos..pos + readcnt];
      PrefixSplit(stream, pos, pos + readcnt);
      out, value := ListBufferFixed(stream[..pos], buffer, lst.ones, lst.start, lst.step, out, value);
      pos := pos + readcnt;
    }
    assert stream[..pos] == stream;
  }

  /**
   * Decoding inverts encoding: listing the 1 bits of the bitmap of `kept`
   * prints `kept` again, in order.
   */
  lemma RoundTrip(p: Progression, kept: seq<int>, bitmap: seq<bv8>)
    requires ValidProgression(p) && InInt64(p.start) && InInt64(p.step)
    requires AllRepresentable(p, kept) && Increasing(kept) && forall v :: v in kept ==> InInt64(v)
    requires Encodes(bitmap, p, kept)
    ensures Emit(PerBitHits(bitmap, true), Wrap(p.start), Wrap(p.step)) == kept
  {
    var ks := PerBitHits(bitmap, true);
    PerBitHitsExactly(bitmap, true);
    var out := Emit(ks, Wrap(p.start), Wrap(p.step));
    forall i | 0 <= i < |ks|
      ensures out[i] == ValueAt(p, ks[i]) && out[i] in kept
    {
      var k := ks[i];
      assert ks[i] in ks;
      assert ValueAt(p, 8 * (k / 8) + k % 8) in kept;
      RunningClosed(Wrap(p.start), Wrap(p.step), k);
      WrapAdd(p.start, k * p.step);
      SignedWrap(ValueAt(p, k));
    }
    forall i, j | 0 <= i < j < |out|
      ensures out[i] < out[j]
    {
      ValueAtMonotonic(p, ks[i], ks[j]);
    }
    forall v
      ensures v in out <==> v in kept
    {
      if v in kept {
        EncodesKept(p, kept, bitmap, v);
        var t := IndexOf(p, v);
        assert BitAt(bitmap, t, true);
        var i :| 0 <= i < |ks| && ks[i] == t;
        assert out[i] == v;
      }
    }
    IncreasingUnique(out, kept);
  }

  /**
   * The two programs together: the lines that the encoder keeps, encoded with
   * `start` and `step` and then listed as 1 bits with the same arguments, come
   * back in input order.
   */
  lemma EncodeThenList(start: int64, step: int64, bufs: seq<seq<char>>, maxLine: nat, conv: seq<char> -> int64, bitmap: seq<bv8>)
    requires step > 0 && LineBuffers(bufs, maxLine)
    requires var p := Progression(start, step);
      AllRepresentable(p, Kept(p, Values(bufs, maxLine, conv))) &&
      Encodes(bitmap, p, Kept(p, Values(bufs, maxLine, conv)))
    ensures ListArgs(Converted(start), Converted(step), "1") == Success(Listing(Wrap(start), step, true))
    ensures Emit(Hits(bitmap, true), Wrap(start), step) == Kept(Progression(start, step), Values(bufs, maxLine, conv))
  {
    var p := Progression(start, step);
    var vals := Values(bufs, maxLine, conv);
    KeptSound(p, vals);
    HitsOnes(bitmap);
    RoundTrip(p, Kept(p, vals), bitmap);
  }
}
