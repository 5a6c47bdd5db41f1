# bitmap: a Dafny model of the encoder, the decoder and the bit counter

The three programs of `bitmap` share one encoding. A value `v` of the
progression `start, start+step, ...` (`step > 0`) is stored as bit `y`
(least significant first) of octet `x` of a raw byte stream, where
`t = (v - start) / step`, `x = t / 8` and `y = t % 8`.

- `bitset` (the encoder) reads newline-separated decimal integers. It
  validates every line, ignores the values it cannot or need not store, and
  writes the bitmap of the rest, stopping at the last octet with a set bit.
- `listbit` (the decoder) reads a bitmap. It walks the bits with a running
  `unsigned long` cursor `value` that starts at `start` and grows by `step`
  per bit, printing the cursor for every bit of the requested polarity.
- `popcnt` counts the 0 bits, the 1 bits or all bits of its input, with
  two 256-entry tables.

The model is split into these modules:

- `Bytes`: octets, their bits and the 64-bit integer types and wrap-around.
- `Stdio`: what `fread` returns.
- `Progression`: the value/position mapping.
- `LineCheck`: the encoder's line validator.
- `Filter`: which values the encoder keeps.
- `Bitset`: the encoder.
- `Listbit`: the decoder and its argument checks.
- `Popcnt`: the tables and the counting loop.

The model's form follows the programs:
- Loops that change variables step by step are methods with loop invariants.
- Each method is proved against a specification function.
- Facts about those functions are proved as lemmas.

Input is a sequence of bytes or of line buffers, and output is a returned
sequence. `BUFSIZ` and `MAXLINE` are parameters. `strtoll` is a function
parameter `conv` for the encoder and a `Conversion` value (a number or
`ERANGE`) for the decoder's arguments. The encoder converts the C string
left in the buffer after NUL is forced into its last slot (bitset.c:152,
176).

Each line buffer stands for one `fgets` call, as the program reads them. An
input line longer than `MAXLINE` therefore arrives in several buffers:
- its first part has no newline and is reported as malformed;
- its tail is validated on its own and may be kept as a value;
- the line counter advances once per part.

Three places where the model follows the code and not its comments:
- The usage text promises "0 ==> list 0 bits" (listbit.c:68). The code
  takes the fast path for an octet equal to 0 and prints nothing for it
  (listbit.c:231-232), so the eight 0 bits of such an octet are never
  listed.
- The test `readcnt == EOF` and its comment "EOF found" (listbit.c:211-212,
  popcnt.c:227-228) show that the loop was meant to stop at end of input.
  `fread` returns 0 there, so the run takes the read-error branch instead.
- The visible `bitset.c` is corrupted. The encoder's per-value code is
  reconstructed from the program's doc comment (bitset.c:23-31 and 72-76).
  That comment does not fix the order of the tests, so the order here is a
  modelling choice: the order test comes first, then the `start` test,
  then the step test (see `Filter.Judge` under "Left out"). The window
  flush loop is not in the visible text and is not reconstructed: the
  model writes one bitmap of exactly the length the doc comment promises.

## Model

| member | source | states |
|---|---|---|
| Bytes.Add64Wrap | listbit.c:229 | `value += step` on an `unsigned long` is addition modulo 2^64 |
| Bytes.Signed | listbit.c:227 | printing an `unsigned long` with `%ld` gives a value in the signed 64-bit range that has the same bits |
| Bytes.SignedWrap | listbit.c:227 | printing a value that was wrapped into an `unsigned long` gives it back whenever it fits in 64 signed bits |
| Bytes.WrapAdd | listbit.c:229 | wrapping before an addition is the same as wrapping after it |
| Stdio.ReadCount | listbit.c:210 | `fread` returns every remaining byte or a full buffer, whichever is fewer |
| Stdio.EmptyReadAt | listbit.c:210-216 | after whole-buffer reads, the next read is empty only if the length is a multiple of the buffer size, and short only if it is not |
| Progression.IndexOf | bitset.c:41-46 | `t = (v - start) / step` is the index whose value is `v` |
| Progression.Split | bitset.c:44-45 | `x = t / 8`, `y = t % 8` with `y < 8` and `8x + y == t` |
| Progression.Locate | bitset.c:41-48 | a value has a position exactly when it is at least `start` and `(v - start) % step == 0`, and that position represents `v`; this is the wording of bitset.c:47, taken only of a non-negative difference |
| Progression.ValueAtMonotonic | bitset.c:37-39 | higher bit indices stand for strictly larger values |
| Progression.IndexOfValueAt | bitset.c:33-48 | every bit index stands for a representable value, and the index map gives the index back |
| Progression.LocateValueOf | bitset.c:33-48 | position to value to position is the identity: the two maps are mutual inverses |
| Progression.IndexOfInjective | bitset.c:41-48 | two representable values share a bit exactly when they are equal, and their bits are in the same order as the values |
| Progression.OddNumbers | bitset.c:57-62 | with `start = 1`, `step = 2`, octet x bit y stands for `16x + 2y + 1` |
| LineCheck.CString | bitset.c:151-152 | the C string in a buffer is its longest prefix without a NUL, and a NUL follows it unless the buffer ends |
| LineCheck.CheckLine | bitset.c:150-170 | after NUL is forced into the last slot, a line is accepted exactly when it is an optional '-', then digits, then '\n' ending the string |
| LineCheck.CheckLineEnd | bitset.c:156-160 | where the scan over the digits stops decides the test `*p != '\n' \|\| *(p+1) != '\0'` |
| LineCheck.DecimalLineEnd | bitset.c:154-160 | once the digits end at `p`, the line is well formed exactly when `p` holds its last character, '\n' |
| LineCheck.CStringPrefix | bitset.c:152 | forcing a NUL at position n leaves only the first n characters visible |
| Filter.StateAfter | bitset.c:97-98 | `had_prev` holds exactly when a value was kept, and `prev` is the last value kept |
| Filter.Judge | bitset.c:23-31 | a value is kept exactly when it is above the previous kept value and representable; it is unsorted exactly when it is below that value, and a duplicate exactly when it equals it |
| Filter.KeptSound | bitset.c:23-31 | the kept values strictly increase, each is representable, and each came from the input |
| Filter.KeptExactly | bitset.c:23-31 | a value is kept exactly when it is representable and some occurrence of it exceeds every representable value before that occurrence |
| Filter.KeptIsRunningMax | bitset.c:23-25 | the last kept value is the largest representable input so far; nothing is kept exactly when no input is representable |
| Filter.KeptSortedInput | bitset.c:22-25 | sorted representable input is kept whole |
| Filter.KeptIdempotent | bitset.c:23-31 | filtering the kept values again changes nothing |
| Bitset.Setup | bitset.c:113-116 | step <= 0 is refused; otherwise `bottom = start`, `span = 8*BUFSIZ*step`, `beyond = start + span` and `had_prev` is false |
| Bitset.FirstWindow | bitset.c:128-130 | the first window `[bottom, beyond)` holds exactly the values whose bits lie in the first `BUFSIZ` octets |
| Bitset.EncodesUnique | bitset.c:64-71 | one set of kept values has exactly one bitmap |
| Bitset.EncodesMinimal | bitset.c:12-13 | the output is empty exactly when nothing is kept, and its last octet is never 0 |
| Bitset.EncodesKept | bitset.c:64-65 | every kept value's bit is inside the output and set |
| Bitset.WithBitEncodes | bitset.c:41-48 | setting the bit of a value above all kept values, and growing the bitmap with zero octets as needed, gives the bitmap of the kept values plus that one |
| Bitset.Admit | bitset.c:23-31 | one converted value either updates `had_prev`, `prev` and the bitmap to those of the kept values plus it, or leaves them alone; it is reported as unsorted exactly when the filter calls it unsorted |
| Bitset.Bitset | bitset.c:22-31 | a non-positive step is refused; otherwise the output is the minimal bitmap of exactly the kept values, and the reports are exactly the malformed lines and the unsorted values, by line number |
| Popcnt.ParseCountType | popcnt.c:200-214 | the type argument is accepted exactly when it is "0", "1" or "2", and the parsed type names it |
| Popcnt.ParseName | popcnt.c:200-206 | parsing the name of each count type gives that type back |
| Popcnt.PopcntTable | popcnt.c:91-111 | `popcnt[x]` is the number of 1 bits of x, for all 256 octets |
| Popcnt.NpopcntTable | popcnt.c:113-133 | `npopcnt[x]` is the number of 0 bits of x, for all 256 octets |
| Popcnt.TablesComplement | popcnt.c:94-133 | `npopcnt[x] == 8 - popcnt[x]` |
| Popcnt.ExpectedConcat | popcnt.c:219-255 | the count over two pieces of input is the sum of their counts, for each count type |
| Popcnt.ZerosPlusOnes | popcnt.c:237-250 | count(0) + count(1) == count(2) on the same input |
| Popcnt.CountFits | popcnt.c:260 | below 2^60 bytes of input, the printed count is the exact count |
| Popcnt.CountZeros | popcnt.c:238-242 | mode 0 adds the number of 0 bits of the buffer to `bitcnt`, modulo 2^64 |
| Popcnt.CountOnes | popcnt.c:243-247 | mode 1 adds the number of 1 bits of the buffer to `bitcnt`, modulo 2^64 |
| Popcnt.CountBuffer | popcnt.c:237-255 | each mode adds its own count of the buffer to `bitcnt` (mode 2 adds `8 * readcnt`), modulo 2^64 |
| Popcnt.Popcnt | popcnt.c:219-260 | as written: the run fails with a read error exactly when the input length is a multiple of `BUFSIZ`, and otherwise prints the count of the whole input as a signed 64-bit value |
| Popcnt.CountStream | popcnt.c:219-260 | corrected: the run always prints the count of the whole input |
| Listbit.ListArgs | listbit.c:156-194 | as written: start and step must convert, the step must not be 0 as an `unsigned long`, and the type must be exactly "0" or "1"; an out-of-range start is reported as such |
| Listbit.ListArgsChecked | listbit.c:175-180 | corrected: the step is tested as the signed value strtoll returned, so only steps above 0 pass |
| Listbit.NegativeStepAccepted | listbit.c:98 | the two checks differ exactly on negative steps, with step -1 as the example |
| Listbit.OctetHitsExactly | listbit.c:225-228 | the indices listed for one octet are exactly its bits of the requested polarity, in increasing order |
| Listbit.RunningClosed | listbit.c:229-233 | after k bits the cursor is `start + k*step` modulo 2^64 |
| Listbit.RunningSkip | listbit.c:232 | the fast path's `value += OCTETBITS*step` moves the cursor exactly as eight single steps would |
| Listbit.PerBitHitsExactly | listbit.c:223-230 | listing bit by bit gives index k exactly when bit k%8 of octet k/8 has the polarity; the indices increase, and there are as many as `popcnt` counts |
| Listbit.HitsOnes | listbit.c:238-249 | for 1 bits the zero-octet fast path changes nothing: the listing is the bit-by-bit listing |
| Listbit.HitsZeros | listbit.c:222-234 | for 0 bits the listing as written drops exactly the indices that lie in an octet equal to 0 |
| Listbit.HitsIncreasing | listbit.c:223-249 | the listing as written comes out in strictly increasing bit order, within the input |
| Listbit.ZeroOctetSkipped | listbit.c:222-234 | a single zero octet listed for 0 bits prints nothing, where the bit-by-bit listing prints its eight indices |
| Listbit.ListingCount | listbit.c:223-249 | the number of lines printed is what `popcnt` counts for the same polarity (for 0 bits, only with the fast path corrected) |
| Listbit.ListOctet | listbit.c:225-230 | the inner loop prints the values of the octet's bits that have the polarity and leaves the cursor eight steps on |
| Listbit.ListByte | listbit.c:223-233 | one octet as written: the listing grows by that octet's part of the listing, and the cursor moves eight bits on either path |
| Listbit.ListBuffer | listbit.c:221-250 | one buffer as written: the listing grows by that buffer's part of the listing, and the cursor moves `8 * readcnt` bits on |
| Listbit.ListByteFixed | listbit.c:223-233 | one octet with the fast path used only for 1 bits: the listing grows by all of the octet's bits of the polarity |
| Listbit.ListBufferFixed | listbit.c:221-250 | one buffer with the corrected fast path: the listing grows by all of its bits of the polarity |
| Listbit.ListRead | listbit.c:210-250 | one `fread` and the switch over what it returned extend the listing and the cursor to the bytes read |
| Listbit.ListBits | listbit.c:199-257 | as written: every byte is listed (with zero octets skipped for 0 bits), and the run ends in a read error exactly when the input length is a multiple of `BUFSIZ` |
| Listbit.ListBitsFixed | listbit.c:199-257 | corrected: the run lists every bit of the polarity, of the whole input, in order |
| Listbit.RoundTrip | listbit.c:241-242 | listing the 1 bits of the bitmap of the kept values prints exactly those values, in order |
| Listbit.EncodeThenList | listbit.c:237-250 | encoding input lines and then listing the 1 bits with the same start and step gives back the values the encoder kept, in input order |

## Left out

- Window flushing in `bitset`: the `BUFSIZ`-octet window is written out as it fills. That loop is not in the visible text. The model builds the whole bitmap and proves it is the one the doc comment describes. `Bitset.FirstWindow` relates only the first window to the bitmap.
- Output: `fwrite`, `printf` and standard error. The model returns the bitmap, the printed values and the list of reports. The wording of messages is not modelled.
- Exit codes: the model keeps only the distinction between success and each kind of failure.
- `getopt`, `-h`, `-V` and the argument count checks: command-line plumbing.
- `strtoll` with base 0, which also reads octal and hex: a libc routine. It is a parameter. For `bitset` the model does not detect `ERANGE` on an input line. For `listbit` the range error is a value of `Conversion`.
- `ferror`, `clearerr` and `errno`: the model has no failing input device. `feof` is read as "the last read came back short".
- `bitset` line errors: "line too long" and "invalid chars" are one report, `MalformedLine`.
- Bitset.Setup: C overflow in `span` and `beyond` is undefined behaviour. `span` and `beyond` are exact integers here, so C's overflow is not modelled. No result depends on them.
- Filter.Judge: the order of the tests is a modelling choice, since the visible code does not show it. The order test comes first, so once a value has been kept, a later value below both it and `start` is reported as unsorted. bitset.c:74 says that values below `start` are ignored silently. For example, with start=100 and step=1, the lines "150" then "50" give `UnsortedValue(2)`.
- Progression.Locate: bitset.c:30 words the test as "!= start % step". With C's truncating `%` that differs from bitset.c:47 when `start` or `v` is negative. The model follows bitset.c:47, `(v - start) % step == 0`, taken after the `start` test.
- Bitset.Bitset: the bitmap is a sequence that grows as values are kept, not the fixed global array. Only the end result is compared.
- Listbit.ListArgs: `start` and `step` are the `long long` results of strtoll converted to `unsigned long`. Any other argument text is out of scope.
- Popcnt.Popcnt: `bitcnt` is an `unsigned long`, modelled as exact counting followed by a wrap modulo 2^64, which equals step-by-step wrapping.

## Findings

| source | as written | input that shows it | evidently intended | confidence | as-written member | corrected member |
|---|---|---|---|---|---|---|
| listbit.c:222-234 | when 0 bits are listed, an octet equal to 0 takes the fast path `value += OCTETBITS*step` and prints nothing, although all eight of its bits are 0 | `listbit 0 1 0` on the single byte 0x00 prints nothing instead of 0 to 7 | the fast path should only be taken when 1 bits are listed (or list all eight values when 0 bits are listed) | high, not executed | Listbit.ZeroOctetSkipped | Listbit.ListBitsFixed |
| popcnt.c:226-232 | `fread` returns 0, not `EOF`, at end of input, so `readcnt == EOF` never holds, and an empty read is reported as a read error (exit 3) | empty input, or exactly `BUFSIZ` bytes | an empty read ends the input and the count is printed | high, not executed | Popcnt.Popcnt | Popcnt.CountStream |
| listbit.c:210-216 | the same test: the empty read after a whole number of buffers is reported as a read error (exit 6), after the listing has been printed | empty input, or exactly `BUFSIZ` bytes | an empty read ends the input, with exit 0 | high, not executed | Listbit.ListBits | Listbit.ListBitsFixed |
| listbit.c:175-180 | `step` is an `unsigned long`, so `step <= 0` only catches 0, and a negative step is accepted (it wraps to a huge step) | `listbit 0 -1 1` | refuse every step that is not above 0, as the message says | high, not executed | Listbit.NegativeStepAccepted | Listbit.ListArgsChecked |
