/**
 * The bit counter: the number of 0 bits, of 1 bits, or of all bits in the
 * bytes read from standard input. 1 bits and 0 bits are counted by looking
 * each byte up in a table of 256 entries.
 */
module Popcnt {
  import opened Wrappers
  import opened Bytes
  import opened Stdio

  /** `popcnt[x]`: the number of 1 bits in x. */
  const POPCNT: seq<nat> :=
    [0, 1, 1, 2, 1, 2, 2, 3, 1, 2, 2, 3, 2, 3, 3, 4] +
    [1, 2, 2, 3, 2, 3, 3, 4, 2, 3, 3, 4, 3, 4, 4, 5] +
    [1, 2, 2, 3, 2, 3, 3, 4, 2, 3, 3, 4, 3, 4, 4, 5] +
    [2, 3, 3, 4, 3, 4, 4, 5, 3, 4, 4, 5, 4, 5, 5, 6] +
    [1, 2, 2, 3, 2, 3, 3, 4, 2, 3, 3, 4, 3, 4, 4, 5] +
    [2, 3, 3, 4, 3, 4, 4, 5, 3, 4, 4, 5, 4, 5, 5, 6] +
    [2, 3, 3, 4, 3, 4, 4, 5, 3, 4, 4, 5, 4, 5, 5, 6] +
    [3, 4, 4, 5, 4, 5, 5, 6, 4, 5, 5, 6, 5, 6, 6, 7] +
    [1, 2, 2, 3, 2, 3, 3, 4, 2, 3, 3, 4, 3, 4, 4, 5] +
    [2, 3, 3, 4, 3, 4, 4, 5, 3, 4, 4, 5, 4, 5, 5, 6] +
    [2, 3, 3, 4, 3, 4, 4, 5, 3, 4, 4, 5, 4, 5, 5, 6] +
    [3, 4, 4, 5, 4, 5, 5, 6, 4, 5, 5, 6, 5, 6, 6, 7] +
    [2, 3, 3, 4, 3, 4, 4, 5, 3, 4, 4, 5, 4, 5, 5, 6] +
    [3, 4, 4, 5, 4, 5, 5, 6, 4, 5, 5, 6, 5, 6, 6, 7] +
    [3, 4, 4, 5, 4, 5, 5, 6, 4, 5, 5, 6, 5, 6, 6, 7] +
    [4, 5, 5, 6, 5, 6, 6, 7, 5, 6, 6, 7, 6, 7, 7, 8]

  /** `npopcnt[x]`: the number of 0 bits in x. */
  const NPOPCNT: seq<nat> :=
    [8, 7, 7, 6, 7, 6, 6, 5, 7, 6, 6, 5, 6, 5, 5, 4] +
    [7, 6, 6, 5, 6, 5, 5, 4, 6, 5, 5, 4, 5, 4, 4, 3] +
    [7, 6, 6, 5, 6, 5, 5, 4, 6, 5, 5, 4, 5, 4, 4, 3] +
    [6, 5, 5, 4, 5, 4, 4, 3, 5, 4, 4, 3, 4, 3, 3, 2] +
    [7, 6, 6, 5, 6, 5, 5, 4, 6, 5, 5, 4, 5, 4, 4, 3] +
    [6, 5, 5, 4, 5, 4, 4, 3, 5, 4, 4, 3, 4, 3, 3, 2] +
    [6, 5, 5, 4, 5, 4, 4, 3, 5, 4, 4, 3, 4, 3, 3, 2] +
    [5, 4, 4, 3, 4, 3, 3, 2, 4, 3, 3, 2, 3, 2, 2, 1] +
    [7, 6, 6, 5, 6, 5, 5, 4, 6, 5, 5, 4, 5, 4, 4, 3] +
    [6, 5, 5, 4, 5, 4, 4, 3, 5, 4, 4, 3, 4, 3, 3, 2] +
    [6, 5, 5, 4, 5, 4, 4, 3, 5, 4, 4, 3, 4, 3, 3, 2] +
    [5, 4, 4, 3, 4, 3, 3, 2, 4, 3, 3, 2, 3, 2, 2, 1] +
    [6, 5, 5, 4, 5, 4, 4, 3, 5, 4, 4, 3, 4, 3, 3, 2] +
    [5, 4, 4, 3, 4, 3, 3, 2, 4, 3, 3, 2, 3, 2, 2, 1] +
    [5, 4, 4, 3, 4, 3, 3, 2, 4, 3, 3, 2, 3, 2, 2, 1] +
    [4, 3, 3, 2, 3, 2, 2, 1, 3, 2, 2, 1, 2, 1, 1, 0]

  const OCTETBITS: nat := 8

  /** What to count: the command-line argument "0", "1" or "2". */
  datatype CountType = CountZero | CountOne | CountAny

  /** The argument that selects a count type. */
  function Name(t: CountType): string {
    match t
    case CountZero => "0"
    case CountOne => "1"
    case CountAny => "2"
  }

  /** The argument parser: exactly "0", "1" and "2" are accepted. */
  function ParseCountType(arg: string): (r: Option<CountType>)
    ensures r.Some? <==> |arg| == 1 && '0' <= arg[0] <= '2'
    ensures r.Some? ==> Name(r.value) == arg
  {
    if arg == "0" then Some(CountZero)
    else if arg == "1" then Some(CountOne)
    else if arg == "2" then Some(CountAny)
    else None
  }

  /** Parsing the name of a count type gives the count type back. */
  lemma ParseName(t: CountType)
    ensures ParseCountType(Name(t)) == Some(t)
  {
  }

  /** The table entry for `x` is the number of 1 bits of `x`. */
  lemma PopcntTable(x: bv8)
    ensures POPCNT[x as int] == CountBelow(x, true, 8)
  {
    CountOctet(x, true);
  }

  /** The table entry for `x` is the number of 0 bits of `x`. */
  lemma NpopcntTable(x: bv8)
    ensures NPOPCNT[x as int] == CountBelow(x, false, 8)
  {
    CountOctet(x, false);
  }

  /** The two tables are complementary: `npopcnt[x] == 8 - popcnt[x]`. */
  lemma TablesComplement(x: bv8)
    ensures NPOPCNT[x as int] == OCTETBITS - POPCNT[x as int]
  {
    PopcntTable(x);
    NpopcntTable(x);
    CountBelowComplement(x, 8);
  }

  /** The number of bits equal to `pol` in all of `bytes`, counted bit by bit. */
  function BitsMatching(bytes: seq<bv8>, pol: bool): nat {
    if bytes == [] then 0
    else BitsMatching(bytes[..|bytes| - 1], pol) + CountBelow(bytes[|bytes| - 1], pol, 8)
  }

  /** The count the program sets out to compute, before it is stored in an `unsigned long`. */
  function Expected(bytes: seq<bv8>, t: CountType): nat {
    match t
    case CountZero => BitsMatching(bytes, false)
    case CountOne => BitsMatching(bytes, true)
    case CountAny => |bytes| * OCTETBITS
  }

  /** Counting over two pieces of input adds up. */
  lemma {:induction false} BitsMatchingConcat(a: seq<bv8>, b: seq<bv8>, pol: bool)
    ensures BitsMatching(a + b, pol) == BitsMatching(a, pol) + BitsMatching(b, pol)
  {
    if b != [] {
      var ab := a + b;
      assert ab[..|ab| - 1] == a + b[..|b| - 1] && ab[|ab| - 1] == b[|b| - 1];
      BitsMatchingConcat(a, b[..|b| - 1], pol);
    } else {
      assert a + b == a;
    }
  }

  lemma ExpectedConcat(a: seq<bv8>, b: seq<bv8>, t: CountType)
    ensures Expected(a + b, t) == Expected(a, t) + Expected(b, t)
  {
    BitsMatchingConcat(a, b, false);
    BitsMatchingConcat(a, b, true);
  }

  /** Every bit is a 0 or a 1: the two counts add up to the count of all bits. */
  lemma {:induction false} ZerosPlusOnes(bytes: seq<bv8>)
    ensures Expected(bytes, CountZero) + Expected(bytes, CountOne) == Expected(bytes, CountAny)
  {
    if bytes != [] {
      ZerosPlusOnes(bytes[..|bytes| - 1]);
      CountBelowComplement(bytes[|bytes| - 1], 8);
    }
  }

  /** The printed count is the exact count whenever the input is shorter than 2^60 bytes. */
  lemma CountFits(bytes: seq<bv8>, t: CountType)
    requires |bytes| < 0x1000_0000_0000_0000
    ensures Signed(Wrap(Expected(bytes, t))) == Expected(bytes, t)
  {
    ZerosPlusOnes(bytes);
    SignedWrap(Expected(bytes, t));
  }

  /** Adding the count of one more octet `b` moves the running total on to the next prefix. */
  lemma CountStep(buffer: seq<bv8>, i: nat, pol: bool, bitcnt: nat)
    requires i < |buffer|
    ensures Wrap(Wrap(bitcnt + BitsMatching(buffer[..i], pol)) + CountBelow(buffer[i], pol, 8))
      == Wrap(bitcnt + BitsMatching(buffer[..i + 1], pol))
  {
    assert buffer[..i + 1][..i] == buffer[..i];
    WrapAdd(bitcnt + BitsMatching(buffer[..i], pol), CountBelow(buffer[i], pol, 8));
  }

  /** `case COUNT_ZERO`: add the 0 bits of each octet, looked up in `npopcnt`. */
  method CountZeros(buffer: seq<bv8>, bitcnt: nat) returns (r: nat)
    requires bitcnt < U64
    ensures r == Wrap(bitcnt + Expected(buffer, CountZero))
  {
    r := bitcnt;
    for i := 0 to |buffer|
      invariant r == Wrap(bitcnt + Expected(buffer[..i], CountZero))
    {
      NpopcntTable(buffer[i]);
      CountStep(buffer, i, false, bitcnt);
      r := Wrap(r + NPOPCNT[buffer[i] as int]);
    }
    assert buffer[..|buffer|] == buffer;
  }

  /** `case COUNT_ONE`: add the 1 bits of each octet, looked up in `popcnt`. */
  method CountOnes(buffer: seq<bv8>, bitcnt: nat) returns (r: nat)
    requires bitcnt < U64
    ensures r == Wrap(bitcnt + Expected(buffer, CountOne))
  {
    r := bitcnt;
    for i := 0 to |buffer|
      invariant r == Wrap(bitcnt + Expected(buffer[..i], CountOne))
    {
      PopcntTable(buffer[i]);
      CountStep(buffer, i, true, bitcnt);
      r := Wrap(r + POPCNT[buffer[i] as int]);
    }
    assert buffer[..|buffer|] == buffer;
  }

  /**
   * The counting switch for one buffer, added to the running `bitcnt`, an
   * `unsigned long` that wraps modulo 2^64.
   */
  method CountBuffer(buffer: seq<bv8>, t: CountType, bitcnt: nat) returns (r: nat)
    requires bitcnt < U64
    ensures r == Wrap(bitcnt + Expected(buffer, t))
  {
    match t {
      case CountZero =>
        r := CountZeros(buffer, bitcnt);
      case CountOne =>
        r := CountOnes(buffer, bitcnt);
      case CountAny =>
        r := Wrap(bitcnt + |buffer| * OCTETBITS);
    }
  }

  /**
   * The program as written: read buffers until `feof`, counting each one, and
   * print the count with `%ld`. An empty read is a read error, and it comes
   * exactly when the input length is a multiple of the buffer size.
   */
  method Popcnt(stream: seq<bv8>, bufsiz: nat, t: CountType) returns (r: Result<int, ReadError>)
    requires bufsiz > 0
    ensures r.Failure? <==> |stream| % bufsiz == 0
    ensures r.Success? ==> r.value == Signed(Wrap(Expected(stream, t)))
  {
    var bitcnt := 0;
    var pos := 0;
    ghost var done := 0;
    while true
      invariant pos == Consumed(done, bufsiz) <= |stream|
      invariant bitcnt == Wrap(Expected(stream[..pos], t))
      decreases |stream| - pos
    {
      var readcnt := ReadCount(|stream| - pos, bufsiz);
      EmptyReadAt(|stream|, bufsiz, done);
      if readcnt == 0 {
        return Failure(ReadError);
      }
      var buffer := stream[pos..pos + readcnt];
      PrefixSplit(stream, pos, pos + readcnt);
      ExpectedConcat(stream[..pos], buffer, t);
      WrapAdd(Expected(stream[..pos], t), Expected(buffer, t));
      bitcnt := CountBuffer(buffer, t, bitcnt);
      pos := pos + readcnt;
      if AtEof(readcnt, bufsiz) {
        break;
      }
      done := done + 1;
    }
    assert stream[..pos] == stream;
    return Success(Signed(bitcnt));
  }

  /** The reading loop as evidently intended: an empty read ends the input. */
  method CountStream(stream: seq<bv8>, bufsiz: nat, t: CountType) returns (r: int)
    requires bufsiz > 0
    ensures r == Signed(Wrap(Expected(stream, t)))
  {
    var bitcnt := 0;
    var pos := 0;
    while true
      invariant pos <= |stream|
      invariant bitcnt == Wrap(Expected(stream[..pos], t))
      decreases |stream| - pos
    {
      var readcnt := ReadCount(|stream| - pos, bufsiz);
      if readcnt == 0 {
        break;
      }
      var buffer := stream[pos..pos + readcnt];
      PrefixSplit(stream, pos, pos + readcnt);
      ExpectedConcat(stream[..pos], buffer, t);
      WrapAdd(Expected(stream[..pos], t), Expected(buffer, t));
      bitcnt := CountBuffer(buffer, t, bitcnt);
      pos := pos + readcnt;
    }
    assert stream[..pos] == stream;
    return Signed(bitcnt);
  }
}
