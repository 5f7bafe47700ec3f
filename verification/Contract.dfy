/** The contract of the `BufferedReader` trait, as relations between what a reader shows before
    and after a call.  Every reader, and so every stack of readers, is proved against it. */
module Contract {
  import opened Primitives

  /** What a reader shows: the whole byte stream behind it, how much of it was consumed (`at`),
      how much of it is buffered (`filled`); all errors of its source, and how many of them it
      has returned. */
  datatype View = View(stream: seq<byte>, at: nat, filled: nat, faults: seq<int>, reported: nat)
  {
    ghost predicate Valid() {
      at <= filled <= |stream| && reported <= |faults|
    }

    /** The bytes still to be delivered. */
    ghost function Unread(): seq<byte>
      requires Valid()
    {
      stream[at..]
    }

    /** The bytes `buffer()` returns. */
    ghost function Buffer(): seq<byte>
      requires Valid()
    {
      stream[at..filled]
    }

    /** No error is left to be returned. */
    ghost predicate Clean() {
      reported == |faults|
    }
  }

  /** The stream itself never changes, and the cursors only move forward. */
  ghost predicate Follows(pre: View, post: View) {
    && pre.Valid() && post.Valid()
    && post.stream == pre.stream && post.faults == pre.faults
    && pre.at <= post.at && pre.filled <= post.filled && pre.reported <= post.reported
  }

  /** A call that failed consumed nothing, and an error of the source is returned once, in
      order. */
  ghost predicate FailedCleanly(e: IoError, pre: View, post: View) {
    && Follows(pre, post)
    && post.at == pre.at
    && match e {
         case Io(c) => post.reported == pre.reported + 1 && c == pre.faults[pre.reported]
         case UnexpectedEof => post.reported == pre.reported
       }
  }

  /** A hard request failed for want of data only if too little could be buffered, and that
      only at the end of the stream (or in front of an error of the source). */
  ghost predicate HardFailure(n: nat, e: IoError, pre: View, post: View) {
    && FailedCleanly(e, pre, post)
    && (e.UnexpectedEof? ==>
          post.filled - post.at < n && (|pre.stream| - pre.at < n || !pre.Clean()))
  }

  /** `d` is the whole buffer; a request for nothing may yield nothing. */
  ghost predicate Buffered(n: nat, d: seq<byte>, pre: View, post: View) {
    && Follows(pre, post)
    && post.at == pre.at && post.reported == pre.reported
    && (d == post.Buffer() || (n == 0 && d == []))
    && (0 < n <= pre.filled - pre.at ==> post.filled == pre.filled)
  }

  /** A request for `n` bytes got them all, unless the stream ends or an error is in the way. */
  ghost predicate Satisfied(n: nat, got: nat, pre: View) {
    got >= n || !pre.Clean() || got == |pre.stream| - pre.at
  }

  /** `data(n)` */
  ghost predicate DataContract(n: nat, pre: View, r: Result<seq<byte>>, post: View) {
    match r {
      case Ok(d) => Buffered(n, d, pre, post) && Satisfied(n, |d|, pre)
      case Err(e) => e.Io? && FailedCleanly(e, pre, post)
    }
  }

  /** `data_hard(n)` */
  ghost predicate DataHardContract(n: nat, pre: View, r: Result<seq<byte>>, post: View) {
    match r {
      case Ok(d) => Buffered(n, d, pre, post) && |d| >= n
      case Err(e) => HardFailure(n, e, pre, post)
    }
  }

  /** `consume(n)` hands out the buffer as it was, consumed bytes included. */
  ghost predicate ConsumeContract(n: nat, pre: View, d: seq<byte>, post: View) {
    && pre.Valid() && pre.at + n <= pre.filled
    && d == pre.Buffer()
    && post == pre.(at := pre.at + n)
  }

  /** `k` bytes of the returned slice `d` were consumed; the rest of it is still buffered. */
  ghost predicate Advanced(n: nat, k: nat, d: seq<byte>, pre: View, post: View) {
    && Follows(pre, post)
    && post.at == pre.at + k && post.reported == pre.reported
    && pre.at + k <= pre.at + |d| <= |pre.stream|
    && d == pre.stream[pre.at..pre.at + |d|]
    && (n > 0 ==> post.filled == pre.at + |d|)
  }

  /** `data_consume(n)` */
  ghost predicate DataConsumeContract(n: nat, pre: View, r: Result<seq<byte>>, post: View) {
    match r {
      case Ok(d) => Advanced(n, Min(n, |d|), d, pre, post) && Satisfied(n, |d|, pre)
      case Err(e) => e.Io? && FailedCleanly(e, pre, post)
    }
  }

  /** `data_consume_hard(n)` */
  ghost predicate DataConsumeHardContract(n: nat, pre: View, r: Result<seq<byte>>, post: View) {
    match r {
      case Ok(d) => Advanced(n, n, d, pre, post)
      case Err(e) => HardFailure(n, e, pre, post)
    }
  }

  /** `io::Read::read` into a buffer of `room` bytes; `d` is what was copied there. */
  ghost predicate ReadContract(room: nat, pre: View, r: Result<seq<byte>>, post: View) {
    match r {
      case Ok(d) =>
        && Follows(pre, post)
        && post.at == pre.at + |d| && post.reported == pre.reported
        && d == pre.stream[pre.at..post.at]
        && |d| <= room && Satisfied(room, |d|, pre)
      case Err(e) => e.Io? && FailedCleanly(e, pre, post)
    }
  }
}
