/**
 * The part of standard input that the decoder and the counter rely on:
 * `fread(buffer, 1, BUFSIZ, stdin)` on a stream of bytes. A read hands back
 * the next `BUFSIZ` bytes, or what is left when fewer remain, and sets the
 * end-of-file indicator exactly when it came back short.
 */
module Stdio {
  import opened Bytes

  /** Why a reading loop gave up. */
  datatype ReadError = ReadError

  /** The number of bytes `fread` returns with `remaining` bytes left in the stream. */
  function ReadCount(remaining: nat, bufsiz: nat): (n: nat)
    ensures n <= remaining && n <= bufsiz
    ensures n == remaining || n == bufsiz
  {
    if remaining < bufsiz then remaining else bufsiz
  }

  /** `feof(stdin)` after a read of `readcnt` bytes. */
  predicate AtEof(readcnt: nat, bufsiz: nat) {
    readcnt < bufsiz
  }

  /** The bytes consumed by `done` full reads. */
  ghost function Consumed(done: nat, bufsiz: nat): nat {
    if done == 0 then 0 else Consumed(done - 1, bufsiz) + bufsiz
  }

  /** Full reads consume whole buffers. */
  lemma {:induction false} ConsumedBuffers(done: nat, bufsiz: nat)
    ensures Consumed(done, bufsiz) == done * bufsiz
  {
    if done > 0 {
      ConsumedBuffers(done - 1, bufsiz);
    }
  }

  /**
   * A loop that reads until `feof` and treats an empty read as an error fails
   * exactly when the stream length is a multiple of the buffer size: after
   * `done` full reads an empty read comes before a short one.
   */
  lemma EmptyReadAt(len: nat, bufsiz: nat, done: nat)
    requires bufsiz > 0 && Consumed(done, bufsiz) <= len
    ensures ReadCount(len - Consumed(done, bufsiz), bufsiz) == 0 ==> len % bufsiz == 0
    ensures 0 < ReadCount(len - Consumed(done, bufsiz), bufsiz) < bufsiz ==> len % bufsiz != 0
  {
    ConsumedBuffers(done, bufsiz);
    var n := ReadCount(len - Consumed(done, bufsiz), bufsiz);
    if n < bufsiz {
      assert len == bufsiz * done + n;
      ModUnique(len, bufsiz, done, n);
    }
  }
}
