/**
 * The encoder: newline-separated integers in, a raw bitmap out. Each kept
 * value sets its own bit; every other bit is 0; the output stops at the
 * octet holding the last kept value.
 */
module Bitset {
  import opened Wrappers
  import opened Bytes
  import opened Progression
  import opened LineCheck
  import opened Filter

  /** Exit 4: `step` must be greater than 0. */
  datatype SetupError = StepNotPositive

  /**
   * The window cursor: `bottom` is the value of bit 0 of the buffer, `beyond`
   * the value just past its last bit, `span` the range of values one buffer
   * of `bufsiz` octets covers. In C these are `int64_t`; here they are exact.
   */
  datatype Cursor = Cursor(bottom: int, span: int, beyond: int, hadPrev: bool)

  /** The set-up after the arguments are converted: refuse a step that is not positive, then place the first window. */
  function Setup(start: int64, step: int64, bufsiz: nat): (r: Result<Cursor, SetupError>)
    ensures r.Failure? <==> step <= 0
    ensures r.Success? ==> r.value.bottom == start && !r.value.hadPrev
    ensures r.Success? ==> r.value.beyond - r.value.bottom == r.value.span == 8 * bufsiz * step
  {
    if step <= 0 then Failure(StepNotPositive)
    else
      var span := 8 * bufsiz * step;
      Success(Cursor(start, span, start + span, false))
  }

  /** The first window `[bottom, beyond)` holds exactly the values whose bits lie in the first `bufsiz` octets. */
  lemma FirstWindow(start: int64, step: int64, bufsiz: nat, v: int)
    requires step > 0
    requires Representable(Progression(start, step), v)
    ensures var c := Setup(start, step, bufsiz).value;
      c.bottom <= v < c.beyond <==> Split(IndexOf(Progression(start, step), v)).octet < bufsiz
  {
    var p := Progression(start, step);
    var t := IndexOf(p, v);
    var c := Setup(start, step, bufsiz).value;
    assert c.beyond == ValueAt(p, 8 * bufsiz);
    if t < 8 * bufsiz {
      ValueAtMonotonic(p, t, 8 * bufsiz);
    } else if t > 8 * bufsiz {
      ValueAtMonotonic(p, 8 * bufsiz, t);
    }
  }

  /** Where the encoder complains on standard error, by line number (the first line is 1). */
  datatype Diagnostic = MalformedLine(line: nat) | UnsortedValue(line: nat)

  /** What the encoder writes and what it reports. */
  datatype Encoded = Encoded(bitmap: seq<bv8>, diagnostics: seq<Diagnostic>)

  /** Every line buffer is `maxLine + 1` characters, as fgets is given it. */
  predicate LineBuffers(bufs: seq<seq<char>>, maxLine: nat) {
    forall i :: 0 <= i < |bufs| ==> |bufs[i]| == maxLine + 1
  }

  /** The string that the validator and strtoll see once NUL is forced into the last slot. */
  function LineText(buf: seq<char>, maxLine: nat): seq<char>
    requires |buf| == maxLine + 1
  {
    CString(buf[..maxLine])
  }

  /** A line buffer that the validator accepts. */
  predicate WellFormed(buf: seq<char>, maxLine: nat)
    requires |buf| == maxLine + 1
  {
    DecimalLine(LineText(buf, maxLine))
  }

  /** The converted values of the well-formed lines, in input order; `conv` is strtoll. */
  function Values(bufs: seq<seq<char>>, maxLine: nat, conv: seq<char> -> int64): seq<int64>
    requires LineBuffers(bufs, maxLine)
  {
    if bufs == [] then []
    else
      var init := bufs[..|bufs| - 1];
      var buf := bufs[|bufs| - 1];
      Values(init, maxLine, conv) + if WellFormed(buf, maxLine) then [conv(LineText(buf, maxLine))] else []
  }

  /**
   * The reports: a malformed line always; a value below the previous kept
   * value (unsorted); nothing for duplicates, values below start, or values
   * with no bit.
   */
  function Diagnostics(p: Progression, bufs: seq<seq<char>>, maxLine: nat, conv: seq<char> -> int64): seq<Diagnostic>
    requires ValidProgression(p) && LineBuffers(bufs, maxLine)
  {
    if bufs == [] then []
    else
      var init := bufs[..|bufs| - 1];
      var buf := bufs[|bufs| - 1];
      Diagnostics(p, init, maxLine, conv) +
        if !WellFormed(buf, maxLine) then [MalformedLine(|bufs|)]
        else if Judge(p, StateAfter(Kept(p, Values(init, maxLine, conv))), conv(LineText(buf, maxLine)) as int) == Unsorted then [UnsortedValue(|bufs|)]
        else []
  }

  predicate AllRepresentable(p: Progression, kept: seq<int>)
    requires ValidProgression(p)
  {
    forall v :: v in kept ==> Representable(p, v)
  }

  /** Whole octets up to and including the one that holds the last kept value; none when nothing is kept. */
  function OutputLength(p: Progression, kept: seq<int>): nat
    requires ValidProgression(p) && AllRepresentable(p, kept)
  {
    if kept == [] then 0 else Split(IndexOf(p, kept[|kept| - 1])).octet + 1
  }

  /**
   * The output contract: `bitmap` is the bitmap of `kept`. Octet x, bit y is 1
   * exactly when `start + step * (x*8 + y)` was kept, and the length is the
   * minimal whole number of octets.
   */
  predicate Encodes(bitmap: seq<bv8>, p: Progression, kept: seq<int>)
    requires ValidProgression(p) && AllRepresentable(p, kept)
  {
    |bitmap| == OutputLength(p, kept) &&
    forall x, y :: 0 <= x < |bitmap| && 0 <= y < 8 ==> (Bit(bitmap[x], y) <==> ValueAt(p, 8 * x + y) in kept)
  }

  /** Two octets with the same eight bits are equal. */
  lemma OctetExtensional(a: bv8, b: bv8)
    requires forall j :: 0 <= j < 8 ==> Bit(a, j) == Bit(b, j)
    ensures a == b
  {
    assert Bit(a, 0) == Bit(b, 0) && Bit(a, 1) == Bit(b, 1) && Bit(a, 2) == Bit(b, 2) && Bit(a, 3) == Bit(b, 3);
    assert Bit(a, 4) == Bit(b, 4) && Bit(a, 5) == Bit(b, 5) && Bit(a, 6) == Bit(b, 6) && Bit(a, 7) == Bit(b, 7);
  }

  /** The contract fixes the output: there is only one bitmap of a given set of kept values. */
  lemma EncodesUnique(p: Progression, kept: seq<int>, a: seq<bv8>, b: seq<bv8>)
    requires ValidProgression(p) && AllRepresentable(p, kept)
    requires Encodes(a, p, kept) && Encodes(b, p, kept)
    ensures a == b
  {
    forall x | 0 <= x < |a|
      ensures a[x] == b[x]
    {
      OctetExtensional(a[x], b[x]);
    }
  }

  /** The output ends at a non-zero octet, and it is empty when nothing was kept. */
  lemma EncodesMinimal(p: Progression, kept: seq<int>, bitmap: seq<bv8>)
    requires ValidProgression(p) && AllRepresentable(p, kept)
    requires Encodes(bitmap, p, kept)
    ensures kept == [] <==> bitmap == []
    ensures bitmap != [] ==> bitmap[|bitmap| - 1] != 0
  {
    if kept != [] {
      var last := kept[|kept| - 1];
      var pos := Split(IndexOf(p, last));
      assert ValueAt(p, 8 * pos.octet + pos.bit) == last;
      assert Bit(bitmap[pos.octet], pos.bit);
    }
  }

  /** Every kept value has its bit inside the output, set to 1. */
  lemma EncodesKept(p: Progression, kept: seq<int>, bitmap: seq<bv8>, v: int)
    requires ValidProgression(p) && AllRepresentable(p, kept) && Increasing(kept)
    requires Encodes(bitmap, p, kept) && v in kept
    ensures var pos := Split(IndexOf(p, v)); pos.octet < |bitmap| && Bit(bitmap[pos.octet], pos.bit)
  {
    var last := kept[|kept| - 1];
    IndexOfInjective(p, v, last);
    assert ValueAt(p, IndexOf(p, v)) == v;
  }

  /** Setting bit `k` of an octet leaves the other bits alone. */
  lemma SetOctetBit(a: bv8, k: nat, j: nat)
    requires k < 8 && j < 8
    ensures Bit(a | (1 << k), j) <==> Bit(a, j) || j == k
  {
  }

  /** The bitmap with bit `t` set, grown with zero octets when `t` lies past its end. */
  function WithBit(bitmap: seq<bv8>, t: nat): seq<bv8> {
    var x := t / 8;
    var grown := if x < |bitmap| then bitmap else bitmap + seq(x + 1 - |bitmap|, _ => 0);
    grown[x := grown[x] | (1 << (t % 8))]
  }

  /** Every kept value's bit index is at most that of the last kept value. */
  lemma KeptIndexBound(p: Progression, kept: seq<int>, w: int)
    requires ValidProgression(p) && AllRepresentable(p, kept) && Increasing(kept)
    requires w in kept
    ensures IndexOf(p, w) <= IndexOf(p, kept[|kept| - 1])
  {
    IndexOfInjective(p, w, kept[|kept| - 1]);
  }

  /** Keeping a value above all earlier ones and setting its bit keeps the output contract. */
  lemma WithBitEncodes(p: Progression, kept: seq<int>, bitmap: seq<bv8>, v: int)
    requires ValidProgression(p) && AllRepresentable(p, kept) && Increasing(kept)
    requires Encodes(bitmap, p, kept)
    requires Representable(p, v) && (kept == [] || v > kept[|kept| - 1])
    ensures AllRepresentable(p, kept + [v]) && Increasing(kept + [v])
    ensures Encodes(WithBit(bitmap, IndexOf(p, v)), p, kept + [v])
  {
    var t := IndexOf(p, v);
    var nb := WithBit(bitmap, t);
    var kv := kept + [v];
    assert forall w :: w in kv ==> w in kept || w == v;
    if kept != [] {
      IndexOfInjective(p, kept[|kept| - 1], v);
    }
    assert |nb| == OutputLength(p, kv);
    forall x, y | 0 <= x < |nb| && 0 <= y < 8
      ensures Bit(nb[x], y) <==> ValueAt(p, 8 * x + y) in kv
    {
      var u := 8 * x + y;
      IndexOfValueAt(p, u);
      var w := ValueAt(p, u);
      if w in kept {
        KeptIndexBound(p, kept, w);
        assert x < |bitmap|;
      }
      if w == v {
        assert u == t;
      }
      if x == t / 8 {
        var grown := if x < |bitmap| then bitmap else bitmap + seq(x + 1 - |bitmap|, _ => 0);
        SetOctetBit(grown[x], t % 8, y);
        assert u == t <==> y == t % 8;
      } else {
        assert u != t;
      }
    }
  }

  /** One more value: the filter keeps it or leaves the kept values as they were. */
  lemma KeptAppend(p: Progression, vals: seq<int>, v: int)
    requires ValidProgression(p)
    ensures Kept(p, vals + [v]) ==
      if Judge(p, StateAfter(Kept(p, vals)), v) == Keep then Kept(p, vals) + [v] else Kept(p, vals)
  {
    assert (vals + [v])[..|vals|] == vals;
  }

  /** One more line: how the values and the reports grow. */
  lemma NextLine(p: Progression, bufs: seq<seq<char>>, maxLine: nat, conv: seq<char> -> int64, n: nat)
    requires ValidProgression(p) && LineBuffers(bufs, maxLine) && 0 < n <= |bufs|
    ensures LineBuffers(bufs[..n], maxLine) && LineBuffers(bufs[..n - 1], maxLine)
    ensures var vals := Values(bufs[..n - 1], maxLine, conv);
      Values(bufs[..n], maxLine, conv) == vals + if WellFormed(bufs[n - 1], maxLine) then [conv(LineText(bufs[n - 1], maxLine))] else []
    ensures Diagnostics(p, bufs[..n], maxLine, conv) == Diagnostics(p, bufs[..n - 1], maxLine, conv) +
      if !WellFormed(bufs[n - 1], maxLine) then [MalformedLine(n)]
      else if Judge(p, StateAfter(Kept(p, Values(bufs[..n - 1], maxLine, conv))), conv(LineText(bufs[n - 1], maxLine)) as int) == Unsorted then [UnsortedValue(n)]
      else []
  {
    assert bufs[..n][..n - 1] == bufs[..n - 1];
  }

  /**
   * One converted value against the filter state: it is ignored when it is not
   * above the previous kept value (`unsorted` when it is below), when it is
   * below `start`, or when it has no bit; otherwise its bit is set and it
   * becomes the previous kept value.
   */
  method Admit(p: Progression, value: int64, hadPrev: bool, prev: int64, bitmap: seq<bv8>, ghost kept: seq<int>)
    returns (hadPrev': bool, prev': int64, bitmap': seq<bv8>, unsorted: bool)
    requires ValidProgression(p) && AllRepresentable(p, kept) && Increasing(kept)
    requires FilterState(hadPrev, prev) == StateAfter(kept) && Encodes(bitmap, p, kept)
    ensures var kept' := if Judge(p, StateAfter(kept), value) == Keep then kept + [value as int] else kept;
      AllRepresentable(p, kept') && Increasing(kept') &&
      FilterState(hadPrev', prev') == StateAfter(kept') && Encodes(bitmap', p, kept')
    ensures unsorted <==> Judge(p, StateAfter(kept), value) == Unsorted
  {
    hadPrev', prev', bitmap', unsorted := hadPrev, prev, bitmap, false;
    if hadPrev && value <= prev {
      unsorted := value < prev;
    } else if value < p.start {
    } else if (value - p.start) % p.step != 0 {
    } else {
      WithBitEncodes(p, kept, bitmap, value as int);
      bitmap' := WithBit(bitmap, IndexOf(p, value as int));
      hadPrev', prev' := true, value;
    }
  }

  /**
   * The encoder. Each line buffer is validated; a malformed line is reported
   * and skipped. A well-formed line is converted with `conv` (strtoll), then
   * ignored if it is not above the previous kept value (reported when it is
   * below it), below `start`, or between two bits; otherwise its bit is set
   * and it becomes the previous kept value.
   */
  method Bitset(start: int64, step: int64, bufsiz: nat, bufs: seq<seq<char>>, maxLine: nat, conv: seq<char> -> int64)
    returns (r: Result<Encoded, SetupError>)
    requires LineBuffers(bufs, maxLine)
    ensures r.Failure? <==> step <= 0
    ensures r.Success? ==>
      var p := Progression(start, step);
      var kept := Kept(p, Values(bufs, maxLine, conv));
      AllRepresentable(p, kept) &&
      Encodes(r.value.bitmap, p, kept) &&
      r.value.diagnostics == Diagnostics(p, bufs, maxLine, conv)
  {
    var setup := Setup(start, step, bufsiz);
    if setup.Failure? {
      return Failure(setup.error);
    }
    var p := Progression(start, step);
    var hadPrev, prev := setup.value.hadPrev, 0;
    var bitmap: seq<bv8> := [];
    var diagnostics: seq<Diagnostic> := [];
    var line := 0;
    ghost var kept: seq<int> := [];
    while line < |bufs|
      invariant 0 <= line <= |bufs|
      invariant LineBuffers(bufs[..line], maxLine)
      invariant kept == Kept(p, Values(bufs[..line], maxLine, conv))
      invariant AllRepresentable(p, kept) && Increasing(kept)
      invariant FilterState(hadPrev, prev) == StateAfter(kept)
      invariant Encodes(bitmap, p, kept)
      invariant diagnostics == Diagnostics(p, bufs[..line], maxLine, conv)
    {
      ghost var vals := Values(bufs[..line], maxLine, conv);
      var inbuf := bufs[line];
      line := line + 1;
      var ok := CheckLine(inbuf, maxLine);
      if !ok {
        assert Values(bufs[..line], maxLine, conv) == vals &&
          Diagnostics(p, bufs[..line], maxLine, conv) == diagnostics + [MalformedLine(line)] by {
          NextLine(p, bufs, maxLine, conv, line);
        }
        diagnostics := diagnostics + [MalformedLine(line)];
      } else {
        var value := conv(LineText(inbuf, maxLine));
        ghost var verdict := Judge(p, StateAfter(kept), value as int);
        assert Kept(p, Values(bufs[..line], maxLine, conv)) == (if verdict == Keep then kept + [value as int] else kept) &&
          Diagnostics(p, bufs[..line], maxLine, conv) ==
            diagnostics + if verdict == Unsorted then [UnsortedValue(line)] else [] by {
          NextLine(p, bufs, maxLine, conv, line);
          KeptAppend(p, vals, value as int);
        }
        var unsorted;
        hadPrev, prev, bitmap, unsorted := Admit(p, value, hadPrev, prev, bitmap, kept);
        if unsorted {
          diagnostics := diagnostics + [UnsortedValue(line)];
        }
        if verdict == Keep {
          kept := kept + [value as int];
        }
      }
    }
    assert bufs[..line] == bufs;
    return Success(Encoded(bitmap, diagnostics));
  }
}
