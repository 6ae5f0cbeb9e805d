/**
 proto_tcp_threads/src/tcp_logic/proto_logic.cpp: the receive path of all connections of a
 thread, with the manager of connections that hold an incomplete message.  A connection is
 named by its id; `delivered` records the calls of the message handlers, which are assumed not
 to close the connection they are called for.
 */
module ProtoLogic {
  import opened Prelude
  import opened MsgCodec
  import opened Framing
  import opened RecordTimeout

  datatype Delivery = Delivery(conn: int, msg: Msg)

  ghost function Tagged(conn: int, msgs: seq<Msg>): (r: seq<Delivery>)
    ensures |r| == |msgs|
  {
    seq(|msgs|, i requires 0 <= i < |msgs| => Delivery(conn, msgs[i]))
  }

  lemma TaggedConcat(conn: int, a: seq<Msg>, b: seq<Msg>)
    ensures Tagged(conn, a + b) == Tagged(conn, a) + Tagged(conn, b)
  {
  }

  /** The buffer is non-empty and starts with an incomplete frame, or with part of a length field. */
  predicate Incomplete(ctx: CodecCtx, buf: seq<bv8>) {
    buf != [] && (|buf| < LEN_FIELD || IsWholeMsg(ctx, buf) == NotAWholeMsg)
  }

  ghost function IncompleteConns(ctx: CodecCtx, buffers: map<int, seq<bv8>>): set<int> {
    set c | c in buffers && Incomplete(ctx, buffers[c])
  }

  /** After the loop the buffer starts with an incomplete frame exactly when the loop is waiting or
      has looked at too few bytes. */
  lemma {:induction false} LoopRest(ctx: CodecCtx, buf: seq<bv8>)
    requires buf != []
    ensures var o := Loop(ctx, buf); o.stop in {Waiting, ShortRead} <==> Incomplete(ctx, o.rest)
    decreases |buf|
  {
    hide GetLen, DecodeMsg;
    if |buf| >= LEN_FIELD && IsWholeMsg(ctx, buf).WholeMsg? {
      var total := IsWholeMsg(ctx, buf).total;
      if DecodeMsg(ctx.doChecksum, buf[LEN_FIELD..LEN_FIELD + total]).Decoded? && buf[LEN_FIELD + total..] != [] {
        LoopRest(ctx, buf[LEN_FIELD + total..]);
      }
    }
  }

  lemma ConnsUpdated(ctx: CodecCtx, buffers: map<int, seq<bv8>>, c: int, buf: seq<bv8>)
    ensures IncompleteConns(ctx, buffers[c := buf]) ==
            IncompleteConns(ctx, buffers) - {c} + (if Incomplete(ctx, buf) then {c} else {})
    ensures IncompleteConns(ctx, buffers - {c}) == IncompleteConns(ctx, buffers) - {c}
  {
    hide Incomplete;
  }

  /** Whatever lies behind a short buffer, the loop then ends waiting or closes the connection. */
  lemma SettledRest(ctx: CodecCtx, buf: seq<bv8>, beyond: seq<bv8>)
    requires buf != [] && |beyond| >= LEN_FIELD
    ensures var o := Settled(ctx, Loop(ctx, buf), beyond);
            && o.stop != ShortRead && (o.stop == Waiting <==> Incomplete(ctx, o.rest))
            && (o.stop == BadLength <==> Loop(ctx, buf).stop == BadLength || RefusedLook(ctx, Loop(ctx, buf), beyond))
  {
    hide Loop, IsWholeMsg;
    LoopRest(ctx, buf);
  }

  lemma MoreDelivered(conn: int, before: seq<Delivery>, a: seq<Msg>, m: Msg)
    ensures before + Tagged(conn, a) + [Delivery(conn, m)] == before + Tagged(conn, a + [m])
  {
  }

  /** What an observer sees of the receive path. */
  datatype View = ProtoView(buffers: map<int, seq<bv8>>, delivered: seq<Delivery>, replies: seq<Stop>,
                            records: map<int, ValueCtx<int>>)

  /** From `v` to `w` one message at the front of `d` was delivered and `left` remains. */
  ghost predicate OneDelivered(ctx: CodecCtx, c: int, d: seq<bv8>, left: seq<bv8>, v: View, w: View) {
    && |left| < |d| && w.buffers == v.buffers[c := left] && w.replies == v.replies && w.records == v.records - {c}
    && |w.delivered| == |v.delivered| + 1
    && var m := w.delivered[|v.delivered|].msg;
       && w.delivered == v.delivered + [Delivery(c, m)]
       && var o := Loop(ctx, left);
          Loop(ctx, d) == Outcome([m] + o.msgs, o.rest, o.stop)
  }

  /** From `v` to `w` the framing loop ran to its end with outcome `o`: its messages were delivered
      in order, an invalid length closed the connection, and a record exists exactly if it waits. */
  ghost predicate AllDone(c: int, o: Outcome, now: int, life: int, v: View, w: View) {
    && w.delivered == v.delivered + Tagged(c, o.msgs)
    && w.buffers == (if o.stop == BadLength then v.buffers - {c} else v.buffers[c := o.rest])
    && w.replies == (if o.stop in {BadLength, BadChecksum} then v.replies + [o.stop] else v.replies)
    && w.records == (if o.stop == Waiting then v.records[c := ValueCtx(c, now, life)] else v.records - {c})
  }

  lemma AllDoneMeans(c: int, o: Outcome, now: int, life: int, v: View, w: View)
    requires AllDone(c, o, now, life, v, w)
    ensures w.delivered == v.delivered + Tagged(c, o.msgs)
    ensures w.buffers == if o.stop == BadLength then v.buffers - {c} else v.buffers[c := o.rest]
    ensures w.replies == if o.stop == BadLength || o.stop == BadChecksum then v.replies + [o.stop] else v.replies
    ensures w.records == if o.stop == Waiting then v.records[c := ValueCtx(c, now, life)] else v.records - {c}
  {
  }

  /** Part of the messages of `whole` have been delivered; the rest of the loop is the loop on `d`. */
  ghost predicate InLoop(ctx: CodecCtx, c: int, start: View, whole: Outcome, d: seq<bv8>, sofar: seq<Msg>, v: View) {
    && v.delivered == start.delivered + Tagged(c, sofar)
    && v.buffers == start.buffers[c := d] && v.replies == start.replies
    && v.records - {c} == start.records - {c}
    && var o := Loop(ctx, d);
       whole == Outcome(sofar + o.msgs, o.rest, o.stop)
  }

  lemma LoopEntered(ctx: CodecCtx, c: int, start: View, d: seq<bv8>)
    ensures InLoop(ctx, c, start, Loop(ctx, d), d, [], start.(buffers := start.buffers[c := d]))
  {
    hide Loop;
  }

  lemma LoopAdvanced(ctx: CodecCtx, c: int, start: View, whole: Outcome, d: seq<bv8>, sofar: seq<Msg>, v: View,
                     left: seq<bv8>, w: View)
    requires InLoop(ctx, c, start, whole, d, sofar, v) && OneDelivered(ctx, c, d, left, v, w)
    ensures |left| < |d| && |w.delivered| > 0
    ensures InLoop(ctx, c, start, whole, left, sofar + [w.delivered[|w.delivered| - 1].msg], w)
  {
    hide Loop, Tagged;
    var m := w.delivered[|v.delivered|].msg;
    MoreDelivered(c, start.delivered, sofar, m);
    assert sofar + ([m] + Loop(ctx, left).msgs) == sofar + [m] + Loop(ctx, left).msgs;
  }

  lemma LoopFinished(ctx: CodecCtx, c: int, start: View, whole: Outcome, d: seq<bv8>, sofar: seq<Msg>, v: View,
                     beyond: seq<bv8>, now: int, life: int, w: View)
    requires |beyond| >= LEN_FIELD && InLoop(ctx, c, start, whole, d, sofar, v)
    requires AllDone(c, Settled(ctx, Loop(ctx, d), beyond), now, life, v, w)
    ensures AllDone(c, Settled(ctx, whole, beyond), now, life, start, w)
  {
    hide Loop, Tagged, IsWholeMsg;
    var o := Settled(ctx, Loop(ctx, d), beyond);
    assert Settled(ctx, whole, beyond) == Outcome(sofar + o.msgs, o.rest, o.stop);
    hide Settled;
    TaggedConcat(c, sofar, o.msgs);
    SameBesides(v.records, start.records, c, ValueCtx(c, now, life));
    assert start.buffers[c := d] - {c} == start.buffers - {c};
    assert start.buffers[c := d][c := o.rest] == start.buffers[c := o.rest];
    assert start.delivered + Tagged(c, sofar) + Tagged(c, o.msgs) == start.delivered + Tagged(c, sofar + o.msgs);
  }

  lemma SameBesides<V>(a: map<int, V>, b: map<int, V>, c: int, x: V)
    requires a - {c} == b - {c}
    ensures a[c := x] == b[c := x]
  {
    assert a[c := x] == (a - {c})[c := x] && b[c := x] == (b - {c})[c := x];
  }

  /** Afterwards records and incomplete buffers correspond again. */
  lemma DoneIsConsistent(ctx: CodecCtx, c: int, v: View, d: seq<bv8>, beyond: seq<bv8>, now: int, life: int, w: View)
    requires d != [] && |beyond| >= LEN_FIELD
    requires AllDone(c, Settled(ctx, Loop(ctx, d), beyond), now, life, v, w)
    requires v.records.Keys == IncompleteConns(ctx, v.buffers)
    ensures w.records.Keys == IncompleteConns(ctx, w.buffers)
  {
    hide Loop, Incomplete, IncompleteConns, Settled;
    SettledRest(ctx, d, beyond);
    ConnsUpdated(ctx, v.buffers, c, Settled(ctx, Loop(ctx, d), beyond).rest);
  }

  class ProtoLogic {
    const ctx: CodecCtx
    const partMsgs: RecordTimeoutMgr<int, int>
    var buffers: map<int, seq<bv8>>
    ghost var delivered: seq<Delivery>
    ghost var replies: seq<Stop>

    /** Outside an expiry batch `expiring` is empty; inside one it names the connections whose
        records are gone but which are not closed yet. */
    ghost predicate Consistent(expiring: set<int>)
      reads this, partMsgs
    {
      && partMsgs.Valid()
      && partMsgs.records.Keys == IncompleteConns(ctx, buffers) - expiring
      && forall c :: c in partMsgs.records ==> partMsgs.records[c].v == c
    }

    /** A connection has a partial-message record exactly when its buffer starts with an incomplete frame. */
    ghost predicate Valid()
      reads this, partMsgs
    {
      Consistent({})
    }

    constructor (ctx: CodecCtx)
      ensures Valid() && buffers == map[] && delivered == [] && this.ctx == ctx && fresh(partMsgs)
    {
      this.ctx := ctx;
      partMsgs := new RecordTimeoutMgr();
      buffers, delivered, replies := map[], [], [];
    }

    method OnClientConnected(c: int)
      requires Valid() && c !in buffers
      modifies this`buffers
      ensures Valid() && buffers == old(buffers)[c := []]
    {
      buffers := buffers[c := []];
      assert IncompleteConns(ctx, buffers) == IncompleteConns(ctx, old(buffers));
    }

    /** Clears the buffer and forgets the record; the connection object goes right after. */
    method OnClientClosed(c: int, ghost expiring: set<int>)
      requires Consistent(expiring)
      modifies this`buffers, partMsgs
      ensures Consistent(expiring - {c})
      ensures buffers == if c in old(buffers) then old(buffers)[c := []] else old(buffers)
      ensures partMsgs.records == if c in old(buffers) then old(partMsgs.records) - {c} else old(partMsgs.records)
    {
      if c !in buffers {
        return;
      }
      buffers := buffers[c := []];
      partMsgs.RemoveRecord(c);
      assert IncompleteConns(ctx, buffers) == IncompleteConns(ctx, old(buffers)) - {c};
    }

    method CloseClient(c: int, ghost expiring: set<int>)
      requires Consistent(expiring)
      modifies this`buffers, partMsgs
      ensures Consistent(expiring - {c})
      ensures buffers == old(buffers) - {c}
      ensures partMsgs.records == if c in old(buffers) then old(partMsgs.records) - {c} else old(partMsgs.records)
    {
      OnClientClosed(c, expiring);
      buffers := buffers - {c};
      assert IncompleteConns(ctx, buffers) == IncompleteConns(ctx, old(buffers)) - {c};
    }

    ghost function View(): View
      reads this, partMsgs
    {
      ProtoView(buffers, delivered, replies, partMsgs.records)
    }

    ghost predicate RecordsOk()
      reads partMsgs
    {
      partMsgs.Valid() && forall k :: k in partMsgs.records ==> partMsgs.records[k].v == k
    }

    /** One iteration of the receive loop on connection `c`, whose buffer is `d`; `beyond` is what
        happens to lie behind the buffer in memory. */
    method ReceiveStep(c: int, d: seq<bv8>, beyond: seq<bv8>, now: int, partMsgLife: int)
      returns (left: seq<bv8>, again: bool)
      requires |beyond| >= LEN_FIELD && c in buffers && buffers[c] == d && RecordsOk()
      modifies this, partMsgs
      ensures RecordsOk()
      ensures again ==> OneDelivered(ctx, c, d, left, old(View()), View())
      ensures !again ==> AllDone(c, Settled(ctx, Loop(ctx, d), beyond), now, partMsgLife, old(View()), View())
    {
      hide DecodeMsg, IsWholeMsg, Loop, Incomplete, Agree;
      left, again := d, false;
      if |d| < LEN_FIELD {
        ShortLoopIs(ctx, d);
        var length := IsWholeMsg(ctx, d + beyond);
        if length.InvalidMsgLen? {
          Refuse(c);
        } else {
          partMsgs.UpsertRecord(c, c, partMsgLife, now);
        }
        return;
      }
      LoopUnfolded(ctx, d);
      var w := IsWholeMsg(ctx, d);
      if w.InvalidMsgLen? {
        Refuse(c);
        return;
      } else if w.NotAWholeMsg? {
        partMsgs.UpsertRecord(c, c, partMsgLife, now);
        return;
      }
      partMsgs.RemoveRecord(c);
      var decoded := DecodeMsg(ctx.doChecksum, d[LEN_FIELD..LEN_FIELD + w.total]);
      if decoded.ChecksumMismatch? {
        replies := replies + [BadChecksum];
        return;
      }
      delivered := delivered + [Delivery(c, decoded.msg)];
      left := d[LEN_FIELD + w.total..];
      buffers := buffers[c := left];
      again := left != [];
    }

    /** An invalid length is answered and the connection closed. */
    method Refuse(c: int)
      requires RecordsOk()
      modifies this`buffers, this`replies, partMsgs
      ensures RecordsOk()
      ensures buffers == old(buffers) - {c} && replies == old(replies) + [BadLength] &&
              partMsgs.records == old(partMsgs.records) - {c}
    {
      replies := replies + [BadLength];
      partMsgs.RemoveRecord(c);
      buffers := buffers - {c};
    }

    /** The connection's state afterwards is what the framing loop makes of its buffer.  A read brings
        at least one byte. */
    method OnRecvClientData(c: int, data: seq<bv8>, beyond: seq<bv8>, now: int, partMsgLife: int)
      requires Valid() && data != [] && |beyond| >= LEN_FIELD
      modifies this, partMsgs
      ensures Valid()
      ensures c !in old(buffers) ==> View() == old(View())
      ensures c in old(buffers) ==>
                var o := Settled(ctx, Loop(ctx, old(buffers)[c] + data), beyond);
                && delivered == old(delivered) + Tagged(c, o.msgs)
                && buffers == (if o.stop == BadLength then old(buffers) - {c} else old(buffers)[c := o.rest])
                && replies == (if o.stop == BadLength || o.stop == BadChecksum then old(replies) + [o.stop]
                               else old(replies))
                && partMsgs.records == (if o.stop == Waiting
                                        then old(partMsgs.records)[c := ValueCtx(c, now, partMsgLife)]
                                        else old(partMsgs.records) - {c})
    {
      if c !in buffers {
        return;
      }
      hide Loop, Incomplete, IncompleteConns, Agree, AllDone, OneDelivered, InLoop, Settled;
      ghost var start := View();
      var d, again := buffers[c] + data, true;
      ghost var whole := Loop(ctx, d);
      buffers := buffers[c := d];
      ghost var sofar: seq<Msg> := [];
      LoopEntered(ctx, c, start, d);
      while again
        invariant RecordsOk()
        invariant again ==> InLoop(ctx, c, start, whole, d, sofar, View()) && c in buffers && buffers[c] == d
        invariant !again ==> AllDone(c, Settled(ctx, whole, beyond), now, partMsgLife, start, View())
        decreases again, |d|
      {
        ghost var v := View();
        var left;
        left, again := ReceiveStep(c, d, beyond, now, partMsgLife);
        if again {
          LoopAdvanced(ctx, c, start, whole, d, sofar, v, left, View());
          sofar, d := sofar + [delivered[|delivered| - 1].msg], left;
        } else {
          LoopFinished(ctx, c, start, whole, d, sofar, v, beyond, now, partMsgLife, View());
        }
      }
      DoneIsConsistent(ctx, c, start, old(buffers)[c] + data, beyond, now, partMsgLife, View());
      AllDoneMeans(c, Settled(ctx, whole, beyond), now, partMsgLife, start, View());
    }

    /** Successive reads, with whatever lies behind the buffer at each: what is delivered and what is
        kept is what the framing loop makes of them, and a refused read closes the connection. */
    method ReceiveAll(c: int, chunks: seq<seq<bv8>>, beyonds: seq<seq<bv8>>, now: int, partMsgLife: int)
      requires Valid() && c in buffers && Reads(chunks, beyonds)
      modifies this, partMsgs
      ensures Valid()
      ensures var o := Receive(ctx, old(buffers)[c], chunks, beyonds);
              && delivered == old(delivered) + Tagged(c, o.msgs)
              && buffers == if o.stop == BadLength then old(buffers) - {c} else old(buffers)[c := o.rest]
    {
      hide Loop, Receive, Settled, Tagged, Incomplete, IncompleteConns, Agree, Consistent;
      ghost var all := Receive(ctx, buffers[c], chunks, beyonds);
      ghost var sofar: seq<Msg> := [];
      assert old(delivered) + Tagged(c, []) == delivered;
      for i := 0 to |chunks|
        invariant Valid() && delivered == old(delivered) + Tagged(c, sofar)
        invariant c in buffers ==>
                    && buffers == old(buffers)[c := buffers[c]]
                    && FedUpTo(ctx, all, sofar, buffers[c], chunks[i..], beyonds[i..])
        invariant c !in buffers ==> buffers == old(buffers) - {c} && all.stop == BadLength && all.msgs == sofar
      {
        if c in buffers {
          FeedUnfolded(ctx, all, sofar, buffers[c], chunks[i..], beyonds[i..]);
          ghost var o := Settled(ctx, Loop(ctx, buffers[c] + chunks[i]), beyonds[i]);
          TaggedConcat(c, sofar, o.msgs);
          sofar := sofar + o.msgs;
          assert chunks[i..][1..] == chunks[i + 1..] && beyonds[i..][1..] == beyonds[i + 1..];
        }
        OnRecvClientData(c, chunks[i], beyonds[i], now, partMsgLife);
      }
      if c in buffers { FeedEnds(ctx, all, sofar, buffers[c]); }
    }

    /** A new connection that receives a stream of frames, cut in any way: if no read is refused, exactly
        the messages before the first wrong checksum reach the handlers and the rest is kept; otherwise
        the messages up to the refused read do, and the connection is gone. */
    method ReceiveStream(c: int, ms: seq<Msg>, sums: seq<bv32>, chunks: seq<seq<bv8>>, beyonds: seq<seq<bv8>>, n: nat,
                         now: int, partMsgLife: int)
      requires Valid() && c !in buffers && |ms| == |sums| && AllInLimit(ctx, ms)
      requires Reads(chunks, beyonds) && Carries(ms, sums, chunks, n)
      modifies this, partMsgs
      ensures Valid()
      ensures NoneRefused(ctx, ms, sums, chunks, beyonds, n) ==>
                var e := Expected(ctx, ms, sums, n);
                delivered == old(delivered) + Tagged(c, e.msgs) && buffers == old(buffers)[c := e.rest]
      ensures !NoneRefused(ctx, ms, sums, chunks, beyonds, n) ==>
                && buffers == old(buffers)
                && exists i :: 0 <= i < |chunks| && CutAt(chunks, i) <= n
                               && Refused(ctx, ms, sums, CutAt(chunks, i), beyonds[i])
                               && delivered == old(delivered) + Tagged(c, ms[..Complete(ms, CutAt(chunks, i))])
    {
      hide Loop, Receive, Stream, Expected, Refused, NoneRefused, ClosedAt, Complete, CutAt, AllInLimit, Tagged,
          Reads, Flatten, Agree;
      ghost var o := Receive(ctx, [], chunks, beyonds);
      FramingAnyCut(ctx, ms, sums, chunks, beyonds, n);
      ExpectedIs(ctx, ms, sums, n);
      OnClientConnected(c);
      ReceiveAll(c, chunks, beyonds, now, partMsgLife);
      assert old(buffers)[c := []][c := o.rest] == old(buffers)[c := o.rest];
      assert old(buffers)[c := []] - {c} == old(buffers);
      if o != Expected(ctx, ms, sums, n) {
        ghost var i := ClosedWhere(ctx, ms, sums, chunks, beyonds, n, o);
      }
    }

    /** Expiry of partial messages: the connections concerned are closed, the others are untouched. */
    method OnPartMsgTimer(now: int)
      requires Valid()
      modifies this`buffers, partMsgs
      ensures Valid()
      ensures buffers == old(buffers) - DueRecords(old(partMsgs.records), now).Keys
      ensures partMsgs.records == LiveRecords(old(partMsgs.records), now)
      ensures forall c :: c in old(buffers) ==>
                (c !in buffers <==> c in old(partMsgs.records)
                                    && now >= old(partMsgs.records)[c].upsertTime + old(partMsgs.records)[c].timeoutSec)
    {
      hide Agree, IncompleteConns, DueRecords, LiveRecords;
      ghost var records := partMsgs.records;
      var due := partMsgs.OnTimer(now);
      SplitByTime(records, now);
      var left := due.Keys;
      assert Consistent(left);
      hide Consistent;
      while left != {}
        invariant left <= due.Keys
        invariant Consistent(left)
        invariant buffers == old(buffers) - (due.Keys - left)
        invariant partMsgs.records == LiveRecords(records, now)
        decreases left
      {
        ghost var some := Member(left);
        var k :| k in left;
        CloseClient(k, left);
        DueIsNotLive(records, now, k);
        BatchShrinks(old(buffers), due.Keys, left, k);
        left := left - {k};
      }
    }

    /** A read, and later a tick of the timer: a connection that the read left waiting is closed if and
        only if its time, counted from that read, is over; any other outcome leaves no record to expire. */
    method ReceiveThenTimer(c: int, data: seq<bv8>, beyond: seq<bv8>, now: int, partMsgLife: int, later: int)
      requires Valid() && c in buffers && data != [] && |beyond| >= LEN_FIELD
      modifies this, partMsgs
      ensures Valid()
      ensures var o := Settled(ctx, Loop(ctx, old(buffers)[c] + data), beyond);
              if o.stop == Waiting then c !in buffers <==> later >= now + partMsgLife
              else c !in buffers <==> o.stop == BadLength
    {
      hide Loop, Settled, Tagged, Incomplete, IncompleteConns, Agree, Consistent, DueRecords, LiveRecords;
      OnRecvClientData(c, data, beyond, now, partMsgLife);
      OnPartMsgTimer(later);
    }
  }

  lemma ClosedWhere(ctx: CodecCtx, ms: seq<Msg>, sums: seq<bv32>, chunks: seq<seq<bv8>>, beyonds: seq<seq<bv8>>, n: nat,
                    o: Outcome) returns (i: nat)
    requires |ms| == |sums| && Reads(chunks, beyonds) && Carries(ms, sums, chunks, n)
    requires ClosedAt(ctx, ms, sums, chunks, beyonds, n, o)
    ensures i < |chunks| && CutAt(chunks, i) <= n && Refused(ctx, ms, sums, CutAt(chunks, i), beyonds[i])
    ensures o == Outcome(ms[..Complete(ms, CutAt(chunks, i))], [], BadLength)
  {
    hide Refused, Complete, CutAt, Stream;
    i :| 0 <= i < |chunks| && CutAt(chunks, i) <= n && Refused(ctx, ms, sums, CutAt(chunks, i), beyonds[i])
         && o == Outcome(ms[..Complete(ms, CutAt(chunks, i))], [], BadLength);
  }

  /** What the reads of `rest` still add to the messages delivered so far makes up `all`. */
  ghost predicate FedUpTo(ctx: CodecCtx, all: Outcome, sofar: seq<Msg>, buf: seq<bv8>, rest: seq<seq<bv8>>,
                          beyonds: seq<seq<bv8>>) {
    && Reads(rest, beyonds)
    && var o := Receive(ctx, buf, rest, beyonds);
       all.msgs == sofar + o.msgs && all.rest == o.rest && (all.stop == BadLength <==> o.stop == BadLength)
  }

  lemma FeedUnfolded(ctx: CodecCtx, all: Outcome, sofar: seq<Msg>, buf: seq<bv8>, rest: seq<seq<bv8>>,
                     beyonds: seq<seq<bv8>>)
    requires rest != [] && FedUpTo(ctx, all, sofar, buf, rest, beyonds)
    ensures var o := Settled(ctx, Loop(ctx, buf + rest[0]), beyonds[0]);
            && (o.stop == BadLength ==> all.stop == BadLength && all.msgs == sofar + o.msgs)
            && (o.stop != BadLength ==> FedUpTo(ctx, all, sofar + o.msgs, o.rest, rest[1..], beyonds[1..]))
  {
    hide Loop, Settled;
    var o := Settled(ctx, Loop(ctx, buf + rest[0]), beyonds[0]);
    var p := Receive(ctx, o.rest, rest[1..], beyonds[1..]);
    assert sofar + (o.msgs + p.msgs) == sofar + o.msgs + p.msgs && o.msgs + [] == o.msgs;
  }

  lemma FeedEnds(ctx: CodecCtx, all: Outcome, sofar: seq<Msg>, buf: seq<bv8>)
    requires FedUpTo(ctx, all, sofar, buf, [], [])
    ensures all.msgs == sofar && all.rest == buf && all.stop != BadLength
  {
  }

  lemma SplitByTime(records: map<int, ValueCtx<int>>, now: int)
    ensures LiveRecords(records, now).Keys == records.Keys - DueRecords(records, now).Keys
    ensures forall k :: k in LiveRecords(records, now) ==> k in records && LiveRecords(records, now)[k] == records[k]
  {
  }

  lemma DueIsNotLive(records: map<int, ValueCtx<int>>, now: int, k: int)
    requires k in DueRecords(records, now)
    ensures LiveRecords(records, now) - {k} == LiveRecords(records, now)
  {
  }
}
