/**
 trans_center/src/trans_center.cpp: transactions waiting for a response.  Four indexes must
 agree: the transaction map, the allocator's in-use set, the per-peer id sets and the timeout
 records.  `log` records the life of every transaction id and the terminal callbacks made to the
 transaction's sink; sinks are assumed not to call back into the centre.
 */
module TransCenter {
  import opened Prelude
  import opened SeqNums
  import opened RecordTimeout

  datatype Peer = Peer(kind: int, addr: string, port: int)

  datatype TransCtx = TransCtx(peer: Peer, timeoutSec: int, passback: int, sink: Option<int>)

  datatype LogEvent = Recorded(id: int) | Response(id: int) | TimedOut(id: int) | Freed(id: int)

  // ---------------------------------------------------------------------------
  // Lives of transaction ids
  // ---------------------------------------------------------------------------

  /** Ids issued and not freed, and those among them that have had their terminal callback. */
  datatype Lives = Lives(live: set<int>, answered: set<int>)

  function LogStep(s: Lives, e: LogEvent): Option<Lives> {
    match e
    case Recorded(id) => if id in s.live then None else Some(s.(live := s.live + {id}))
    case Response(id) => if id in s.live && id !in s.answered then Some(s.(answered := s.answered + {id})) else None
    case TimedOut(id) => if id in s.live && id !in s.answered then Some(s.(answered := s.answered + {id})) else None
    case Freed(id) => if id in s.live then Some(Lives(s.live - {id}, s.answered - {id})) else None
  }

  /** None when an id is issued while live, or called back when not live or for the second time. */
  function LogRun(log: seq<LogEvent>): Option<Lives> {
    if log == [] then Some(Lives({}, {}))
    else match LogRun(log[..|log| - 1])
      case None => None
      case Some(s) => LogStep(s, log[|log| - 1])
  }

  lemma LogAppend(log: seq<LogEvent>, e: LogEvent)
    ensures LogRun(log + [e]) == if LogRun(log).None? then None else LogStep(LogRun(log).value, e)
  {
    assert (log + [e])[..|log|] == log;
  }

  predicate Terminal(e: LogEvent, id: int) {
    e == Response(id) || e == TimedOut(id)
  }

  lemma {:induction false} LogPrefix(log: seq<LogEvent>, n: nat)
    requires n <= |log| && LogRun(log).Some?
    ensures LogRun(log[..n]).Some?
    ensures n < |log| ==> LogStep(LogRun(log[..n]).value, log[n]) == LogRun(log[..n + 1])
    decreases |log|
  {
    if n < |log| {
      var init := log[..|log| - 1];
      LogPrefix(init, n);
      assert init[..n] == log[..n];
      if n + 1 < |log| {
        assert init[..n + 1] == log[..n + 1];
      } else {
        assert log[..n + 1] == log && log[..n] == init;
      }
    } else {
      assert log[..n] == log;
    }
  }

  /** An answered id stays answered until it is freed. */
  lemma {:induction false} AnsweredUntilFreed(log: seq<LogEvent>, i: nat, j: nat, id: int)
    requires i < j <= |log| && LogRun(log).Some? && Terminal(log[i], id)
    requires forall k :: i < k < j ==> log[k] != Freed(id)
    ensures LogRun(log[..j]).Some? && id in LogRun(log[..j]).value.answered
    decreases j
  {
    LogPrefix(log, j - 1);
    LogPrefix(log, j);
    if j - 1 > i {
      AnsweredUntilFreed(log, i, j - 1, id);
    }
  }

  /** Each life of a transaction id sees at most one terminal callback: between two of them the id
      was freed and issued again. */
  lemma AtMostOneTerminal(log: seq<LogEvent>, i: nat, j: nat, id: int)
    requires i < j < |log| && LogRun(log).Some?
    requires Terminal(log[i], id) && Terminal(log[j], id)
    ensures exists k :: i < k < j && log[k] == Freed(id)
    ensures exists k :: i < k < j && log[k] == Recorded(id)
  {
    if forall k :: i < k < j ==> log[k] != Freed(id) {
      AnsweredUntilFreed(log, i, j, id);
      LogPrefix(log, j);
    }
    var k :| i < k < j && log[k] == Freed(id);
    LogPrefix(log, k);
    LogPrefix(log, j);
    if forall t :: k < t < j ==> log[t] != Recorded(id) {
      DeadUntilRecorded(log, k, j, id);
    }
  }

  lemma {:induction false} DeadUntilRecorded(log: seq<LogEvent>, i: nat, j: nat, id: int)
    requires i < j <= |log| && LogRun(log).Some? && log[i] == Freed(id)
    requires forall k :: i < k < j ==> log[k] != Recorded(id)
    ensures LogRun(log[..j]).Some? && id !in LogRun(log[..j]).value.live
    decreases j
  {
    LogPrefix(log, j - 1);
    LogPrefix(log, j);
    if j - 1 > i {
      DeadUntilRecorded(log, i, j - 1, id);
    }
  }

  // ---------------------------------------------------------------------------
  // Agreement of the four indexes
  // ---------------------------------------------------------------------------

  datatype View = TransView(trans: map<int, TransCtx>, peers: map<Peer, set<int>>, inuse: set<int>,
                            records: map<int, ValueCtx<TransCtx>>, log: seq<LogEvent>)

  predicate Timed(t: TransCtx) { t.sink.Some? && t.timeoutSec > 0 }

  ghost predicate PeersAgree(trans: map<int, TransCtx>, peers: map<Peer, set<int>>) {
    && (forall id :: id in trans ==> trans[id].peer in peers && id in peers[trans[id].peer])
    && (forall p, id :: p in peers && id in peers[p] ==> id in trans && trans[id].peer == p)
  }

  /** `expiring` names the transactions of an expiry batch whose records are already gone. */
  ghost predicate RecordsAgree(trans: map<int, TransCtx>, records: map<int, ValueCtx<TransCtx>>, expiring: set<int>) {
    && (forall id :: id in records <==> id in trans && Timed(trans[id]) && id !in expiring)
    && (forall id :: id in records ==> records[id].v == trans[id] && records[id].timeoutSec == trans[id].timeoutSec)
  }

  /** `answered` is the id whose terminal callback has been made but which is not freed yet. */
  ghost predicate Agreement(v: View, expiring: set<int>, answered: set<int>) {
    && v.trans.Keys == v.inuse
    && PeersAgree(v.trans, v.peers)
    && RecordsAgree(v.trans, v.records, expiring)
    && LogRun(v.log) == Some(Lives(v.trans.Keys, answered))
  }

  /** Every transaction but those of `except` waits for a response. */
  ghost predicate AllAwaited(trans: map<int, TransCtx>, except: set<int>) {
    forall id :: id in trans && id !in except ==> trans[id].sink.Some?
  }

  function WithPeer(peers: map<Peer, set<int>>, p: Peer): map<Peer, set<int>> {
    if p in peers then peers else peers[p := {}]
  }

  /** RemoveTrans as a function: operator[] creates the peer's set if it is missing. */
  function Removed(v: View, id: int): View
    requires id in v.trans
  {
    var p := v.trans[id].peer;
    var peers := WithPeer(v.peers, p);
    v.(trans := v.trans - {id}, peers := peers[p := peers[p] - {id}], inuse := v.inuse - {id},
        log := v.log + [Freed(id)])
  }

  lemma RemovedAgrees(v: View, id: int, expiring: set<int>, answered: set<int>)
    requires id in v.trans && id !in v.records && answered <= {id}
    requires Agreement(v, expiring, answered)
    ensures Agreement(Removed(v, id), expiring - {id}, {})
  {
    LogAppend(v.log, Freed(id));
    assert v.trans.Keys - {id} == (v.trans - {id}).Keys;
    assert answered - {id} == {};
  }

  lemma AnsweredAgrees(v: View, e: LogEvent, id: int, expiring: set<int>)
    requires id in v.trans && Terminal(e, id) && Agreement(v, expiring, {})
    ensures Agreement(v.(log := v.log + [e]), expiring, {id})
  {
    LogAppend(v.log, e);
    assert {} + {id} == {id};
  }

  /** A new transaction with a sink. */
  function Added(v: View, id: int, ctx: TransCtx, now: int): View {
    var peers := WithPeer(v.peers, ctx.peer);
    v.(trans := v.trans[id := ctx],
       peers := peers[ctx.peer := peers[ctx.peer] + {id}],
       inuse := v.inuse + {id},
       records := if Timed(ctx) then v.records[id := ValueCtx(ctx, now, ctx.timeoutSec)] else v.records,
       log := v.log + [Recorded(id)])
  }

  lemma AddedAgrees(v: View, id: int, ctx: TransCtx, now: int)
    requires id !in v.inuse && Agreement(v, {}, {})
    ensures Agreement(Added(v, id, ctx, now), {}, {})
  {
    LogAppend(v.log, Recorded(id));
    AddedToPeers(v.trans, v.peers, id, ctx);
    AddedToRecords(v, id, ctx, now);
    hide PeersAgree, RecordsAgree, LogRun;
    assert v.trans[id := ctx].Keys == v.trans.Keys + {id};
  }

  lemma AddedToPeers(trans: map<int, TransCtx>, peers: map<Peer, set<int>>, id: int, ctx: TransCtx)
    requires PeersAgree(trans, peers) && id !in trans
    ensures var with := WithPeer(peers, ctx.peer);
            PeersAgree(trans[id := ctx], with[ctx.peer := with[ctx.peer] + {id}])
  {
  }

  lemma AddedToRecords(v: View, id: int, ctx: TransCtx, now: int)
    requires RecordsAgree(v.trans, v.records, {}) && id !in v.trans
    ensures RecordsAgree(v.trans[id := ctx], Added(v, id, ctx, now).records, {})
  {
  }

  /** A transaction that wants no response is recorded and cancelled at once; only the log, the
      cursor and possibly an empty peer set remember it. */
  lemma AddedAndRemoved(v: View, id: int, ctx: TransCtx, now: int)
    requires id !in v.inuse && ctx.sink.None? && Agreement(v, {}, {})
    ensures var a := Added(v, id, ctx, now);
            a.records - {id} == a.records == v.records
            && Removed(a, id).trans == v.trans && Removed(a, id).inuse == v.inuse
  {
    var a := Added(v, id, ctx, now);
    assert Removed(a, id).trans == v.trans && Removed(a, id).inuse == v.inuse;
  }

  /** A centre-wide sink learns that transaction `id` has timed out. */
  datatype Told = Told(sink: int, id: int)

  /** From `before` to `after` every sink of `sinks` was told of every id of `ids`, once, and nothing else was said. */
  ghost predicate ToldOnce(before: multiset<Told>, after: multiset<Told>, sinks: set<int>, ids: set<int>) {
    forall t: Told :: after[t] == before[t] + if t.sink in sinks && t.id in ids then 1 else 0
  }

  lemma ToldMore(a: multiset<Told>, b: multiset<Told>, c: multiset<Told>, sinks: set<int>, ids: set<int>, id: int)
    requires ToldOnce(a, b, sinks, ids) && ToldOnce(b, c, sinks, {id}) && id !in ids
    ensures ToldOnce(a, c, sinks, ids + {id})
  {
  }

  lemma ToldNothing(told: multiset<Told>, sinks: set<int>)
    ensures ToldOnce(told, told, sinks, {})
  {
  }

  class TransCenter {
    const seqNum: SeqNum
    const rspMsgs: RecordTimeoutMgr<int, TransCtx>
    var trans: map<int, TransCtx>
    var peers: map<Peer, set<int>>
    var sinks: set<int>
    ghost var log: seq<LogEvent>
    ghost var told: multiset<Told>      // what the centre-wide sinks have been told of timeouts

    ghost function View(): View
      reads this, seqNum, rspMsgs
    {
      TransView(trans, peers, seqNum.inuse, rspMsgs.records, log)
    }

    ghost predicate Consistent(expiring: set<int>, answered: set<int>)
      reads this, seqNum, rspMsgs
    {
      seqNum.Valid() && rspMsgs.Valid() && Agreement(View(), expiring, answered)
    }

    ghost predicate Valid()
      reads this, seqNum, rspMsgs
    {
      Consistent({}, {}) && AllAwaited(trans, {})
    }

    constructor (min: int, max: int)
      requires ValidRange(min, max)
      ensures Valid() && trans == map[] && log == [] && sinks == {} && told == multiset{} && fresh(seqNum) &&
              fresh(rspMsgs)
    {
      seqNum := new SeqNum(min, max);
      rspMsgs := new RecordTimeoutMgr();
      trans, peers, sinks, log, told := map[], map[], {}, [], multiset{};
    }

    method AddSink(sink: int) returns (r: int)
      modifies this`sinks
      ensures sinks == old(sinks) + {sink} && r == if sink in old(sinks) then -1 else 0
    {
      r := if sink in sinks then -1 else 0;
      sinks := sinks + {sink};
    }

    method RemoveSink(sink: int)
      modifies this`sinks
      ensures sinks == old(sinks) - {sink}
    {
      sinks := sinks - {sink};
    }

    /** Frees the id and forgets the transaction in the map and in its peer's set. */
    method RemoveTrans(id: int, ghost expiring: set<int>, ghost answered: set<int>)
      requires Consistent(expiring, answered) && answered <= {id} && id !in rspMsgs.records
      requires answered == {} || id in trans
      modifies this`trans, this`peers, this`log, seqNum
      ensures Consistent(expiring - {id}, {})
      ensures View() == if id in old(trans) then Removed(old(View()), id) else old(View())
      ensures trans == old(trans) - {id} && seqNum.cursor == old(seqNum.cursor)
      ensures id in old(trans) ==> seqNum.inuse == old(seqNum.inuse) - {id} && log == old(log) + [Freed(id)]
    {
      hide Agreement, Agree, LogRun;
      ghost var v := View();
      if id !in trans {
        AbsentAgrees(v, id, expiring);
        return;
      }
      RemovedAgrees(v, id, expiring, answered);
      var p := trans[id].peer;
      if p !in peers {
        peers := peers[p := {}];
      }
      peers := peers[p := peers[p] - {id}];
      seqNum.Free(id);
      log := log + [Freed(id)];
      trans := trans - {id};
    }

    /** Forget a transaction, its record first. */
    method CancelTrans(id: int, ghost answered: set<int>)
      requires Consistent({}, answered) && answered <= {id}
      requires answered == {} || id in trans
      requires AllAwaited(trans, {id})
      modifies this`trans, this`peers, this`log, seqNum, rspMsgs
      ensures Consistent({}, {}) && (id in old(trans) || AllAwaited(old(trans), {}) ==> Valid())
      ensures View() == if id in old(trans) then Removed(old(View()).(records := old(rspMsgs.records) - {id}), id)
              else old(View())
      ensures seqNum.cursor == old(seqNum.cursor)
    {
      hide Agreement, Agree, LogRun;
      if id !in trans {
        AbsentAgrees(View(), id, {});
        return;
      }
      ghost var v := View();
      var found := rspMsgs.RecordExist(id);
      if found {
        rspMsgs.RemoveRecord(id);
      } else {
        assert rspMsgs.records == rspMsgs.records - {id};
      }
      UnrecordedAgrees(v, id, answered);
      RemoveTrans(id, {id}, answered);
      assert {id} - {id} == {};
    }

    /** The id is the next free one; the map insert cannot fail because the id was not in use. */
    method RecordTransCtx(ctx: Option<TransCtx>, created: bool, now: int) returns (id: int)
      requires Valid()
      modifies this`trans, this`peers, this`log, seqNum, rspMsgs
      ensures Valid()
      ensures id == INVALID_SEQ_NUM <==> ctx.None? || !created || old(trans).Keys == Range(seqNum.min, seqNum.max)
      ensures id == INVALID_SEQ_NUM ==> View() == old(View())
      ensures id != INVALID_SEQ_NUM ==>
                id !in old(trans) && NextFree(seqNum.min, seqNum.max, old(seqNum.cursor), old(trans).Keys, id)
      ensures id != INVALID_SEQ_NUM && ctx.value.sink.Some? ==> View() == Added(old(View()), id, ctx.value, now)
      ensures id != INVALID_SEQ_NUM && ctx.value.sink.None? ==>
              View() == Removed(Added(old(View()), id, ctx.value, now), id)
      ensures id != INVALID_SEQ_NUM && ctx.value.sink.Some? ==>
                && trans == old(trans)[id := ctx.value] && seqNum.inuse == old(seqNum.inuse) + {id}
                && log == old(log) + [Recorded(id)]
                && ctx.value.peer in peers && id in peers[ctx.value.peer]
                && rspMsgs.records == (if ctx.value.timeoutSec > 0
                                       then old(rspMsgs.records)[id := ValueCtx(ctx.value, now, ctx.value.timeoutSec)]
                                       else old(rspMsgs.records))
      ensures id != INVALID_SEQ_NUM && ctx.value.sink.None? ==>
                && trans == old(trans) && seqNum.inuse == old(seqNum.inuse) && rspMsgs.records == old(rspMsgs.records)
                && log == old(log) + [Recorded(id), Freed(id)]
    {
      hide Agreement, Agree, LogRun, NextFree, Range;
      id := INVALID_SEQ_NUM;
      if ctx.None? || !created {
        return;
      }
      ghost var v := View();
      KeysAreInUse(v, {}, {});
      id := seqNum.Alloc();
      if id == INVALID_SEQ_NUM {
        return;
      }
      FreeIsNotInUse(seqNum.min, seqNum.max, old(seqNum.cursor), v.inuse, id);
      var t := ctx.value;
      trans := trans[id := t];
      log := log + [Recorded(id)];
      if Timed(t) {
        rspMsgs.UpsertRecord(id, t, t.timeoutSec, now);
      }
      if t.peer !in peers {
        peers := peers[t.peer := {}];
      }
      peers := peers[t.peer := peers[t.peer] + {id}];
      AddedAgrees(v, id, t, now);
      if t.sink.None? {
        AddedAndRemoved(v, id, t, now);
        CancelTrans(id, {});
      }
    }

    /** The response reaches the sink once, and the transaction is over. */
    method OnRecvRsp(id: int)
      requires Valid()
      modifies this`trans, this`peers, this`log, seqNum, rspMsgs
      ensures Valid()
      ensures trans == old(trans) - {id} && seqNum.inuse == old(seqNum.inuse) - {id} &&
              rspMsgs.records == old(rspMsgs.records) - {id}
      ensures log == if id in old(trans) then old(log) + [Response(id), Freed(id)] else old(log)
    {
      hide Agreement, Agree, LogRun;
      ghost var v := View();
      ghost var answered: set<int> := {};
      if id in trans && trans[id].sink.Some? {
        AnsweredAgrees(v, Response(id), id, {});
        log := log + [Response(id)];
        answered := {id};
      }
      AbsentEverywhere(v, id);
      CancelTrans(id, answered);
      assert id in v.trans ==> v.log + [Response(id)] + [Freed(id)] == v.log + [Response(id), Freed(id)];
    }

    /** The centre-wide sinks hear of every timeout, also of one for an id that is not live. */
    method TellSinks(id: int)
      modifies this`told
      ensures ToldOnce(old(told), told, sinks, {id})
      ensures forall t: Told :: told[t] == old(told)[t] + if t.sink in sinks && t.id == id then 1 else 0
    {
      var left := sinks;
      while left != {}
        invariant left <= sinks && ToldOnce(old(told), told, sinks - left, {id})
        decreases left
      {
        ghost var some := Member(left);
        var s :| s in left;
        told := told + multiset{Told(s, id)};
        left := left - {s};
      }
      assert sinks - {} == sinks;
    }

    /** The timeout callback of one record of an expiry batch. */
    method OnTimeout(id: int, ghost expiring: set<int>)
      requires Consistent(expiring, {}) && AllAwaited(trans, {}) && id !in rspMsgs.records
      modifies this`trans, this`peers, this`log, this`told, seqNum
      ensures Consistent(expiring - {id}, {})
      ensures trans == old(trans) - {id} && seqNum.inuse == old(seqNum.inuse) - {id}
      ensures log == if id in old(trans) then old(log) + [TimedOut(id), Freed(id)] else old(log)
      ensures ToldOnce(old(told), told, sinks, {id})
      ensures forall t: Told :: told[t] == old(told)[t] + if t.sink in sinks && t.id == id then 1 else 0
    {
      hide Agreement, Agree, LogRun;
      ghost var v := View();
      ghost var answered: set<int> := {};
      KeysAreInUse(v, expiring, {});
      if id in trans && trans[id].sink.Some? {
        AnsweredAgrees(v, TimedOut(id), id, expiring);
        log := log + [TimedOut(id)];
        answered := {id};
      }
      TellSinks(id);
      RemoveTrans(id, expiring, answered);
      assert id !in v.trans ==> v.trans - {id} == v.trans && v.inuse - {id} == v.inuse;
      assert v.log + [TimedOut(id)] + [Freed(id)] == v.log + [TimedOut(id), Freed(id)];
    }

    /** An expiry batch: exactly the transactions whose time has come end, each with one callback. */
    method OnTimer(now: int)
      requires Valid()
      modifies this`trans, this`peers, this`log, this`told, seqNum, rspMsgs
      ensures Valid()
      ensures trans == old(trans) - DueRecords(old(rspMsgs.records), now).Keys
      ensures rspMsgs.records == LiveRecords(old(rspMsgs.records), now)
      ensures old(log) <= log
      ensures forall id :: id in DueRecords(old(rspMsgs.records), now) ==> TimedOut(id) in log[|old(log)|..]
      ensures forall e :: e in log[|old(log)|..] ==>
                e.id in DueRecords(old(rspMsgs.records), now) && (e.TimedOut? || e.Freed?)
      ensures ToldOnce(old(told), told, sinks, DueRecords(old(rspMsgs.records), now).Keys)
    {
      hide Agreement, Agree, LogRun, DueRecords, LiveRecords, BatchLog, ToldOnce;
      ghost var v := View();
      var due := rspMsgs.OnTimer(now);
      BatchStarts(v, now);
      BatchLogStart(v.log);
      var left := due.Keys;
      assert due.Keys - left == {} && v.trans - {} == v.trans;
      ToldNothing(told, sinks);
      while left != {}
        invariant left <= due.Keys && left <= trans.Keys
        invariant Consistent(left, {}) && AllAwaited(trans, {})
        invariant trans == v.trans - (due.Keys - left)
        invariant rspMsgs.records == LiveRecords(v.records, now)
        invariant BatchLog(v.log, log, due.Keys - left)
        invariant ToldOnce(old(told), told, sinks, due.Keys - left)
        decreases left
      {
        ghost var some := Member(left);
        var id :| id in left;
        NotRecorded(v.records, now, id);
        ghost var before, toldBefore := log, told;
        OnTimeout(id, left);
        BatchLogStep(v.log, before, due.Keys - left, id);
        ToldMore(old(told), toldBefore, told, sinks, due.Keys - left, id);
        BatchShrinks(v.trans, due.Keys, left, id);
        left := left - {id};
      }
      assert due.Keys - {} == due.Keys;
      BatchLogDone(v.log, log, due.Keys);
    }

    /** Shutdown: every transaction is cancelled, without any callback. */
    method Release()
      requires Valid()
      modifies this`trans, this`peers, this`log, this`sinks, seqNum, rspMsgs
      ensures Valid() && trans == map[] && peers == map[] && sinks == {} && seqNum.inuse == {} &&
              rspMsgs.records == map[]
      ensures old(log) <= log && forall e :: e in log[|old(log)|..] ==> e.Freed?
    {
      hide Agreement, Agree, LogRun;
      var left := trans.Keys;
      while left != {}
        invariant Valid() && left == trans.Keys
        invariant old(log) <= log && forall e :: e in log[|old(log)|..] ==> e.Freed?
        decreases left
      {
        ghost var some := Member(left);
        var id :| id in left;
        ghost var before := log;
        CancelTrans(id, {});
        assert log[|old(log)|..] == before[|old(log)|..] + [Freed(id)];
        left := left - {id};
      }
      NothingLeft(View());
      sinks := {};
      peers := map[];
    }
  }

  // ---------------------------------------------------------------------------
  // Small consequences of agreement used above
  // ---------------------------------------------------------------------------

  lemma AbsentAgrees(v: View, id: int, expiring: set<int>)
    requires id !in v.trans && Agreement(v, expiring, {})
    ensures Agreement(v, expiring - {id}, {})
  {
  }

  lemma UnrecordedAgrees(v: View, id: int, answered: set<int>)
    requires Agreement(v, {}, answered)
    ensures Agreement(v.(records := v.records - {id}), {id}, answered)
  {
  }

  lemma KeysAreInUse(v: View, expiring: set<int>, answered: set<int>)
    requires Agreement(v, expiring, answered)
    ensures v.trans.Keys == v.inuse && v.records.Keys <= v.inuse
  {
    assert forall id :: id in v.records ==> id in v.trans;
  }

  lemma AbsentEverywhere(v: View, id: int)
    requires Agreement(v, {}, {})
    ensures id !in v.trans ==> v.trans == v.trans - {id} && v.inuse == v.inuse - {id} && v.records == v.records - {id}
  {
  }

  lemma BatchStarts(v: View, now: int)
    requires Agreement(v, {}, {})
    ensures Agreement(v.(records := LiveRecords(v.records, now)), DueRecords(v.records, now).Keys, {})
    ensures DueRecords(v.records, now).Keys <= v.trans.Keys
  {
    forall id | id in DueRecords(v.records, now) ensures id in v.trans { assert id in v.records; }
  }

  lemma NotRecorded(records: map<int, ValueCtx<TransCtx>>, now: int, id: int)
    requires id in DueRecords(records, now)
    ensures id !in LiveRecords(records, now)
  {
  }

  ghost predicate BatchLog(before: seq<LogEvent>, log: seq<LogEvent>, done: set<int>) {
    && before <= log
    && (forall id :: id in done ==> TimedOut(id) in log[|before|..])
    && (forall e :: e in log[|before|..] ==> e.id in done && (e.TimedOut? || e.Freed?))
  }

  lemma BatchLogDone(before: seq<LogEvent>, log: seq<LogEvent>, done: set<int>)
    requires BatchLog(before, log, done)
    ensures before <= log
    ensures forall id :: id in done ==> TimedOut(id) in log[|before|..]
    ensures forall e :: e in log[|before|..] ==> e.id in done && (e.TimedOut? || e.Freed?)
  {
  }

  lemma BatchLogStart(log: seq<LogEvent>)
    ensures BatchLog(log, log, {})
  {
  }

  lemma BatchLogStep(start: seq<LogEvent>, log: seq<LogEvent>, done: set<int>, id: int)
    requires BatchLog(start, log, done)
    ensures BatchLog(start, log + [TimedOut(id), Freed(id)], done + {id})
  {
    var more := log + [TimedOut(id), Freed(id)];
    assert more[|start|..] == log[|start|..] + [TimedOut(id), Freed(id)];
    assert [TimedOut(id), Freed(id)][0] == TimedOut(id);
  }

  lemma NothingLeft(v: View)
    requires Agreement(v, {}, {}) && v.trans.Keys == {}
    ensures v.trans == map[] && v.inuse == {} && v.records == map[] && Agreement(v.(peers := map[]), {}, {})
  {
    assert forall id :: id in v.records ==> id in v.trans;
  }
}
