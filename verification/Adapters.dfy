/** What an adapter shows of the reader it owns, and why it meets the contract if its inner
    reader does. */
module Adapters {
  import opened Primitives
  import opened Contract

  /** The first `limit` bytes of what `v` still delivers. */
  ghost function Limited(v: View, limit: nat): (w: View)
    requires v.Valid()
    ensures w.Valid()
  {
    v.(stream := v.stream[..Min(|v.stream|, v.at + limit)], filled := Min(v.filled, v.at + limit))
  }

  /** All but the last `reserve` bytes of what `v` still delivers. */
  ghost function Reserved(v: View, reserve: nat): (w: View)
    requires v.Valid()
    ensures w.Valid()
  {
    v.(stream := v.stream[..Max(v.at, |v.stream| - reserve)],
       filled := Max(v.at, v.filled - reserve))
  }

  /** What `v` delivers from `cursor` bytes further on. */
  ghost function Ahead(v: View, cursor: nat): (w: View)
    requires v.Valid() && v.at + cursor <= v.filled
    ensures w.Valid()
  {
    v.(at := v.at + cursor)
  }

  lemma SliceOfPrefix(s: seq<byte>, n: nat, from: nat, to: nat)
    requires from <= to <= n <= |s|
    ensures s[..n][from..to] == s[from..to]
  {
  }

  lemma PrefixOfSlice(s: seq<byte>, from: nat, to: nat, k: nat)
    requires from <= from + k <= to <= |s|
    ensures s[from..to][..k] == s[from..from + k]
  {
  }

  /** `Limited` is exact: it shows the first `limit` unread and buffered bytes, and no others. */
  lemma LimitedIsExact(v: View, limit: nat)
    requires v.Valid()
    ensures Limited(v, limit).Unread() == v.Unread()[..Min(limit, |v.Unread()|)]
    ensures Limited(v, limit).Buffer() == v.Buffer()[..Min(limit, |v.Buffer()|)]
  {
    var n, m := Min(|v.stream|, v.at + limit), Min(v.filled, v.at + limit);
    SliceOfPrefix(v.stream, n, v.at, n);
    PrefixOfSlice(v.stream, v.at, |v.stream|, n - v.at);
    SliceOfPrefix(v.stream, n, v.at, m);
    PrefixOfSlice(v.stream, v.at, v.filled, m - v.at);
  }

  /** `Reserved` is exact: it shows all unread and all buffered bytes but the last `reserve`. */
  lemma ReservedIsExact(v: View, reserve: nat)
    requires v.Valid()
    ensures Reserved(v, reserve).Unread() == v.Unread()[..Max(0, |v.Unread()| - reserve)]
    ensures Reserved(v, reserve).Buffer() == v.Buffer()[..Max(0, |v.Buffer()| - reserve)]
  {
    var n, m := Max(v.at, |v.stream| - reserve), Max(v.at, v.filled - reserve);
    SliceOfPrefix(v.stream, n, v.at, n);
    PrefixOfSlice(v.stream, v.at, |v.stream|, n - v.at);
    SliceOfPrefix(v.stream, n, v.at, m);
    PrefixOfSlice(v.stream, v.at, v.filled, m - v.at);
  }

  /** `buffered_reader_generic_read_impl`: `read` in terms of `data_consume`. */
  lemma ReadByDataConsume(room: nat, pre: View, r: Result<seq<byte>>, post: View)
    requires DataConsumeContract(room, pre, r, post)
    ensures ReadContract(room, pre,
      (if r.Ok? then Ok(r.value[..Min(room, |r.value|)]) else r), post)
  {
    if r.Ok? {
      PrefixOfSlice(pre.stream, pre.at, pre.at + |r.value|, Min(room, |r.value|));
    }
  }

  /** A result, cut off after `limit` bytes. */
  ghost function Cut(r: Result<seq<byte>>, limit: nat): Result<seq<byte>> {
    if r.Ok? then Ok(r.value[..Min(limit, |r.value|)]) else r
  }

  lemma LimitedData(n: nat, limit: nat, pre: View, r: Result<seq<byte>>, post: View)
    requires DataContract(Min(n, limit), pre, r, post)
    ensures pre.Valid() && post.Valid() && post.at == pre.at
    ensures DataContract(n, Limited(pre, limit), Cut(r, limit), Limited(post, limit))
  {
    if r.Ok? {
      LimitedIsExact(post, limit);
    }
  }

  lemma LimitedConsume(n: nat, limit: nat, pre: View, d: seq<byte>, post: View)
    requires n <= limit && ConsumeContract(n, pre, d, post)
    ensures pre.Valid() && post.Valid() && post.at == pre.at + n
    ensures ConsumeContract(n, Limited(pre, limit), d[..Min(limit, |d|)], Limited(post, limit - n))
  {
    LimitedIsExact(pre, limit);
  }

  lemma CutIsLimited(v: View, limit: nat, d: seq<byte>)
    requires v.Valid() && v.at + |d| <= |v.stream| && d == v.stream[v.at..v.at + |d|]
    ensures
      var c, w := d[..Min(limit, |d|)], Limited(v, limit).stream;
      v.at + |c| <= |w| && c == w[v.at..v.at + |c|]
  {
    var k, end := Min(limit, |d|), Min(|v.stream|, v.at + limit);
    PrefixOfSlice(v.stream, v.at, v.at + |d|, k);
    SliceOfPrefix(v.stream, end, v.at, v.at + k);
  }

  lemma LimitedDataConsume(n: nat, limit: nat, pre: View, r: Result<seq<byte>>, post: View)
    requires DataConsumeContract(Min(n, limit), pre, r, post)
    ensures pre.Valid() && post.Valid()
    ensures post.at == pre.at + if r.Ok? then Min(Min(n, limit), |r.value|) else 0
    ensures DataConsumeContract(n, Limited(pre, limit), Cut(r, limit),
      Limited(post, limit - (post.at - pre.at)))
  {
    if r.Ok? {
      CutIsLimited(pre, limit, r.value);
    }
  }

  lemma LimitedDataConsumeHard(n: nat, limit: nat, pre: View, r: Result<seq<byte>>, post: View)
    requires n <= limit && DataConsumeHardContract(n, pre, r, post)
    ensures pre.Valid() && post.Valid()
    ensures post.at == pre.at + if r.Ok? then Min(n, |r.value|) else 0
    ensures DataConsumeHardContract(n, Limited(pre, limit), Cut(r, limit),
      Limited(post, limit - (post.at - pre.at)))
  {
    if r.Ok? {
      CutIsLimited(pre, limit, r.value);
    }
  }

  /** A hard request beyond the limit fails without touching the inner reader. */
  lemma LimitedTooHard(n: nat, limit: nat, v: View)
    requires v.Valid() && n > limit
    ensures DataConsumeHardContract(n, Limited(v, limit), Err(UnexpectedEof), Limited(v, limit))
  {
  }

  lemma LimitedRead(room: nat, limit: nat, pre: View, r: Result<seq<byte>>, post: View)
    requires ReadContract(Min(limit, room), pre, r, post)
    ensures pre.Valid() && post.Valid()
    ensures post.at == pre.at + (if r.Ok? then |r.value| else 0) <= pre.at + limit
    ensures ReadContract(room, Limited(pre, limit), r, Limited(post, limit - (post.at - pre.at)))
  {
    if r.Ok? {
      var end := Min(|pre.stream|, pre.at + limit);
      SliceOfPrefix(pre.stream, end, pre.at, post.at);
    }
  }

  lemma ReservedData(n: nat, reserve: nat, pre: View, r: Result<seq<byte>>, post: View)
    requires DataContract(n + reserve, pre, r, post)
    ensures pre.Valid() && post.Valid()
    ensures DataContract(n, Reserved(pre, reserve),
      (if r.Ok? then Ok(r.value[..Max(0, |r.value| - reserve)]) else r), Reserved(post, reserve))
  {
    if r.Ok? {
      ReservedIsExact(post, reserve);
    }
  }

  lemma ReservedConsume(n: nat, reserve: nat, pre: View, d: seq<byte>, post: View)
    requires ConsumeContract(n, pre, d, post) && n <= Max(0, |d| - reserve)
    ensures pre.Valid() && post.Valid()
    ensures ConsumeContract(n, Reserved(pre, reserve), d[..Max(0, |d| - reserve)],
      Reserved(post, reserve))
  {
    ReservedIsExact(pre, reserve);
  }

  /** `read` of a `Reserve` first buffers what it is about to read, and the reserve. */
  lemma ReservedRead(room: nat, reserve: nat, pre: View, data: Result<seq<byte>>, between: View,
                     r: Result<seq<byte>>, post: View)
    requires DataContract(room + reserve, pre, data, between)
    requires data.Ok? && |data.value| > reserve
    requires ReadContract(Min(room, |data.value| - reserve), between, r, post)
    ensures pre.Valid() && post.Valid()
    ensures ReadContract(room, Reserved(pre, reserve), r, Reserved(post, reserve))
  {
    if r.Ok? {
      var end := Max(pre.at, |pre.stream| - reserve);
      SliceOfPrefix(pre.stream, end, pre.at, post.at);
    }
  }

  /** Nothing is read if only the reserve, or nothing at all, could be buffered. */
  lemma ReservedReadNothing(room: nat, reserve: nat, pre: View, data: Result<seq<byte>>, post: View)
    requires DataContract(room + reserve, pre, data, post)
    requires data.Ok? ==> |data.value| <= reserve
    ensures pre.Valid() && post.Valid()
    ensures ReadContract(room, Reserved(pre, reserve), (if data.Ok? then Ok([]) else data),
      Reserved(post, reserve))
  {
  }

  /** What a `Dup` makes of the buffer of its inner reader. */
  ghost function Dropped(r: Result<seq<byte>>, cursor: nat): Result<seq<byte>> {
    if r.Ok? && |r.value| >= cursor then Ok(r.value[cursor..]) else r
  }

  lemma AheadData(n: nat, cursor: nat, pre: View, r: Result<seq<byte>>, post: View)
    requires DataContract(cursor + n, pre, r, post)
    requires pre.at + cursor <= pre.filled
    ensures pre.Valid() && post.Valid() && post.at == pre.at && post.at + cursor <= post.filled
    ensures r.Ok? ==> |r.value| >= cursor
    ensures DataContract(n, Ahead(pre, cursor), Dropped(r, cursor), Ahead(post, cursor))
  {
  }

  lemma AheadConsume(n: nat, cursor: nat, v: View)
    requires v.Valid() && v.at + cursor + n <= v.filled
    ensures ConsumeContract(n, Ahead(v, cursor), v.Buffer()[cursor..], Ahead(v, cursor + n))
  {
  }

  lemma AheadDataConsume(n: nat, cursor: nat, pre: View, r: Result<seq<byte>>, post: View)
    requires DataContract(cursor + n, pre, r, post)
    requires pre.at + cursor <= pre.filled
    ensures pre.Valid() && post.Valid() && post.at == pre.at
    ensures r.Ok? ==> |r.value| >= cursor
    ensures var next := if r.Ok? then Min(|r.value|, cursor + n) else cursor;
      && post.at + next <= post.filled
      && DataConsumeContract(n, Ahead(pre, cursor), Dropped(r, cursor), Ahead(post, next))
  {
  }

  lemma AheadDataConsumeHard(n: nat, cursor: nat, pre: View, r: Result<seq<byte>>, post: View)
    requires DataHardContract(cursor + n, pre, r, post)
    requires pre.at + cursor <= pre.filled
    ensures pre.Valid() && post.Valid() && post.at == pre.at
    ensures r.Ok? ==> |r.value| >= cursor + n
    ensures var next := if r.Ok? then cursor + n else cursor;
      && post.at + next <= post.filled
      && DataConsumeHardContract(n, Ahead(pre, cursor), Dropped(r, cursor), Ahead(post, next))
  {
  }

  lemma AheadRead(room: nat, cursor: nat, pre: View, r: Result<seq<byte>>, post: View)
    requires DataContract(cursor + room, pre, r, post)
    requires pre.at + cursor <= pre.filled
    ensures pre.Valid() && post.Valid() && post.at == pre.at
    ensures r.Ok? ==> |r.value| >= cursor
    ensures var next := if r.Ok? then Min(|r.value|, cursor + room) else cursor;
      && post.at + next <= post.filled
      && ReadContract(room, Ahead(pre, cursor), (if r.Ok? then Ok(r.value[cursor..next]) else r),
           Ahead(post, next))
  {
    if r.Ok? {
      assert r.value == post.stream[post.at..post.at + |r.value|];
      InnerSlice(post.stream, post.at, |r.value|, cursor, Min(|r.value|, cursor + room));
    }
  }

  lemma InnerSlice(s: seq<byte>, at: nat, n: nat, from: nat, to: nat)
    requires from <= to <= n && at + n <= |s|
    ensures s[at..at + n][from..to] == s[at + from..at + to]
  {
    var outer := s[at..at + n];
    assert forall k | from <= k < to :: outer[k] == s[at + k];
    assert outer[from..to] == s[at + from..at + to];
  }
}
