/**
 tcp_threads/src/conn_center.cpp and the connection counters of tcp_threads/src/thread_sink.cpp.
 A connection is in four indexes: by socket, by id, in the allocator and in the idle-timeout
 records.  Socket and event creation are outcomes passed in as parameters, and the clock is `now`.
 */
module ConnCenter {
  import opened Prelude
  import opened SeqNums
  import opened RecordTimeout

  datatype Conn = Conn(id: int, fd: int)
  datatype ClientCtx = ClientCtx(conn: Conn, startTime: int, recvCount: int)
  datatype ConnConf = ConnConf(inactiveConnLife: int, stormInterval: int, stormThreshold: int)

  datatype View = ConnView(fds: map<int, ClientCtx>, ids: map<int, Conn>, inuse: set<int>,
                           records: map<int, ValueCtx<Conn>>)

  // ---------------------------------------------------------------------------
  // One-to-one correspondence of the indexes
  // ---------------------------------------------------------------------------

  ghost predicate SocketsMatch(fds: map<int, ClientCtx>, ids: map<int, Conn>) {
    && (forall id :: id in ids ==> ids[id].id == id && ids[id].fd in fds && fds[ids[id].fd].conn == ids[id])
    && (forall fd :: fd in fds ==>
         fds[fd].conn.fd == fd && fds[fd].conn.id in ids && ids[fds[fd].conn.id] == fds[fd].conn)
  }

  /** `expiring` names the connections of an expiry batch whose records are gone but which are still open. */
  ghost predicate Corresponds(v: View, expiring: set<int>) {
    && v.ids.Keys == v.inuse
    && SocketsMatch(v.fds, v.ids)
    && v.records.Keys == v.ids.Keys - expiring
    && forall id :: id in v.records ==> v.records[id].v == v.ids[id]
  }

  /** As many sockets as ids. */
  lemma {:induction false} SameCount(fds: map<int, ClientCtx>, ids: map<int, Conn>)
    requires SocketsMatch(fds, ids)
    ensures |fds| == |ids|
    decreases |fds.Keys|
  {
    hide SocketsMatch;
    if fds.Keys == {} {
      NoSocketNoId(fds, ids);
    } else {
      var fd := Member(fds.Keys);
      var id := fds[fd].conn.id;
      MatchedSocket(fds, ids, fd);
      MatchWithout(fds, ids, id);
      CountWithout(fds, fd);
      CountWithout(ids, id);
      SameCount(fds - {fd}, ids - {id});
    }
  }

  lemma NoSocketNoId(fds: map<int, ClientCtx>, ids: map<int, Conn>)
    requires SocketsMatch(fds, ids) && fds.Keys == {}
    ensures |fds| == 0 && |ids| == 0
  {
    assert fds == map[];
    assert forall id :: id in ids ==> ids[id].fd in fds;
    assert ids == map[];
  }

  lemma MatchedSocket(fds: map<int, ClientCtx>, ids: map<int, Conn>, fd: int)
    requires SocketsMatch(fds, ids) && fd in fds
    ensures fds[fd].conn.id in ids && ids[fds[fd].conn.id].fd == fd
  {
  }

  lemma MatchWithout(fds: map<int, ClientCtx>, ids: map<int, Conn>, id: int)
    requires SocketsMatch(fds, ids) && id in ids
    ensures SocketsMatch(fds - {ids[id].fd}, ids - {id})
  {
  }

  /** A new connection, present everywhere. */
  function Opened(v: View, c: Conn, life: int, now: int): View {
    v.(fds := v.fds[c.fd := ClientCtx(c, now, 0)], ids := v.ids[c.id := c], inuse := v.inuse + {c.id},
       records := v.records[c.id := ValueCtx(c, now, life)])
  }

  /** Opening under a fresh id keeps the correspondence if and only if the socket is not in the table. */
  lemma OpenedCorresponds(v: View, c: Conn, life: int, now: int)
    requires Corresponds(v, {}) && c.id !in v.inuse
    ensures Corresponds(Opened(v, c, life, now), {}) <==> c.fd !in v.fds
  {
    var w := Opened(v, c, life, now);
    assert v.ids[c.id := c].Keys == v.ids.Keys + {c.id};
    if c.fd in v.fds {
      var lost := v.fds[c.fd].conn;
      assert lost.id in w.ids && w.ids[lost.id] == lost && w.fds[lost.fd].conn == c;
    }
  }

  /** What a set-up that fails after an id was allocated leaves behind: the socket's entry is erased,
      whoever it belonged to. */
  function WithoutSocket(v: View, fd: int): View {
    v.(fds := v.fds - {fd})
  }

  lemma WithoutSocketCorresponds(v: View, fd: int)
    requires Corresponds(v, {})
    ensures Corresponds(WithoutSocket(v, fd), {}) <==> fd !in v.fds
  {
    if fd in v.fds {
      var lost := v.fds[fd].conn;
      assert lost.id in v.ids && v.ids[lost.id].fd == fd;
      assert fd !in WithoutSocket(v, fd).fds;
    } else {
      assert v.fds - {fd} == v.fds;
    }
  }

  /** A connection gone from everywhere. */
  function Closed(v: View, c: Conn): View {
    v.(fds := v.fds - {c.fd}, ids := v.ids - {c.id}, inuse := v.inuse - {c.id}, records := v.records - {c.id})
  }

  /** The indexes after whatever was on socket `fd` is gone. */
  function Vacated(v: View, fd: int): View {
    if fd in v.fds then Closed(v, v.fds[fd].conn) else v
  }

  /** A connection can be set up: the object is made and works, and an id is free. */
  ghost predicate Creatable(v: View, created: bool, initialized: bool, activated: bool, min: int, max: int) {
    created && initialized && activated && v.ids.Keys != Range(min, max)
  }

  lemma ClosedCorresponds(v: View, c: Conn, expiring: set<int>)
    requires Corresponds(v, expiring) && c.id in v.ids && v.ids[c.id] == c
    ensures Corresponds(Closed(v, c), expiring - {c.id})
  {
    MatchWithout(v.fds, v.ids, c.id);
    assert (v.ids - {c.id}).Keys == v.ids.Keys - {c.id};
    assert (v.records - {c.id}).Keys == v.records.Keys - {c.id};
  }

  /** Accounting for received data touches the socket's own entry only. */
  function Touched(v: View, id: int, client: ClientCtx): View
    requires id in v.ids
  {
    v.(fds := v.fds[v.ids[id].fd := client])
  }

  function Refreshed(v: View, id: int, life: int, now: int): View
    requires id in v.ids
  {
    v.(records := v.records[id := ValueCtx(if id in v.records then v.records[id].v else v.ids[id], now, life)])
  }

  lemma TouchedCorresponds(v: View, id: int, client: ClientCtx)
    requires Corresponds(v, {}) && id in v.ids && client.conn == v.ids[id]
    ensures Corresponds(Touched(v, id, client), {}) && Touched(v, id, client).fds.Keys == v.fds.Keys
  {
  }

  lemma RefreshedCorresponds(v: View, id: int, life: int, now: int)
    requires Corresponds(v, {}) && id in v.ids
    ensures Corresponds(Refreshed(v, id, life, now), {})
  {
  }

  // ---------------------------------------------------------------------------
  // Storm detection
  // ---------------------------------------------------------------------------

  predicate Storm(conf: ConnConf, client: ClientCtx, now: int) {
    now - client.startTime >= conf.stormInterval && client.recvCount + 1 >= conf.stormThreshold
  }

  /** The counter after one more receive: restarted when a quiet interval has passed. */
  function Counted(conf: ConnConf, client: ClientCtx, now: int): ClientCtx {
    if now - client.startTime >= conf.stormInterval && client.recvCount + 1 < conf.stormThreshold
    then client.(startTime := now, recvCount := 0)
    else client.(recvCount := client.recvCount + 1)
  }

  /** A client after receives at the given times. */
  function CountedAll(conf: ConnConf, client: ClientCtx, times: seq<int>): ClientCtx {
    if times == [] then client
    else Counted(conf, CountedAll(conf, client, times[..|times| - 1]), times[|times| - 1])
  }

  /** The counter counts the receives since its start, which is the opening of the connection or the last
      receive that found the interval over with fewer receives than the threshold. */
  lemma {:induction false} CountsSinceStart(conf: ConnConf, c: Conn, since: int, times: seq<int>) returns (restart: nat)
    ensures restart <= |times|
    ensures var client := CountedAll(conf, ClientCtx(c, since, 0), times);
            && client.conn == c && client.recvCount == |times| - restart
            && client.startTime == (if restart == 0 then since else times[restart - 1])
    ensures restart > 0 ==>
              var before := CountedAll(conf, ClientCtx(c, since, 0), times[..restart - 1]);
              && times[restart - 1] - before.startTime >= conf.stormInterval
              && before.recvCount + 1 < conf.stormThreshold
    ensures forall i :: restart <= i < |times| ==>
              times[i] - CountedAll(conf, ClientCtx(c, since, 0), times).startTime < conf.stormInterval
              || i + 1 - restart >= conf.stormThreshold
    decreases |times|
  {
    if times == [] {
      restart := 0;
    } else {
      var n := |times| - 1;
      var pre, now := times[..n], times[n];
      var j := CountsSinceStart(conf, c, since, pre);
      var before := CountedAll(conf, ClientCtx(c, since, 0), pre);
      var restarts := now - before.startTime >= conf.stormInterval && before.recvCount + 1 < conf.stormThreshold;
      restart := if restarts then n + 1 else j;
      if restarts {
        assert times[..restart - 1] == pre;
      } else {
        assert restart > 0 ==> times[..restart - 1] == pre[..restart - 1] && times[restart - 1] == pre[restart - 1];
        forall i | restart <= i < |times|
          ensures times[i] - before.startTime < conf.stormInterval || i + 1 - restart >= conf.stormThreshold
        {
          if i < n { assert pre[i] == times[i]; }
        }
      }
    }
  }

  class ConnCenter {
    const conf: ConnConf
    const seqNum: SeqNum
    const idle: RecordTimeoutMgr<int, Conn>
    var fds: map<int, ClientCtx>
    var ids: map<int, Conn>
    var maxOnlineConnCount: int

    ghost function View(): View
      reads this, seqNum, idle
    {
      ConnView(fds, ids, seqNum.inuse, idle.records)
    }

    ghost predicate Consistent(expiring: set<int>)
      reads this, seqNum, idle
    {
      seqNum.Valid() && idle.Valid() && Corresponds(View(), expiring)
    }

    ghost predicate Valid()
      reads this, seqNum, idle
    {
      Consistent({})
    }

    constructor (conf: ConnConf, min: int, max: int)
      requires ValidRange(min, max)
      ensures Valid() && fds == map[] && ids == map[] && this.conf == conf && fresh(seqNum) && fresh(idle)
    {
      this.conf := conf;
      seqNum := new SeqNum(min, max);
      idle := new RecordTimeoutMgr();
      fds, ids, maxOnlineConnCount := map[], map[], 0;
    }

    method GetConnBySockFD(fd: int) returns (r: Option<Conn>)
      ensures r == if fd in fds then Some(fds[fd].conn) else None
    {
      if fd in fds { return Some(fds[fd].conn); }
      return None;
    }

    method GetConnByID(id: int) returns (r: Option<Conn>)
      ensures r == if id in ids then Some(ids[id]) else None
    {
      if id in ids { return Some(ids[id]); }
      return None;
    }

    /** Erases the socket, releases the id and forgets the connection. */
    method Clear(c: Conn)
      requires seqNum.Valid()
      modifies this`fds, this`ids, seqNum`inuse
      ensures seqNum.Valid() && fds == old(fds) - {c.fd} && ids == old(ids) - {c.id} &&
              seqNum.inuse == old(seqNum.inuse) - {c.id}
    {
      fds := fds - {c.fd};
      seqNum.Free(c.id);
      ids := ids - {c.id};
    }

    /** `created`, `initialized` and `activated` are the outcomes of setting the connection object up.
        The indexes correspond afterwards unless the socket had an entry, which is then lost; the only
        caller removes such an entry first. */
    method CreateConn(fd: int, created: bool, initialized: bool, activated: bool, now: int) returns (r: Option<Conn>)
      requires Valid()
      modifies this, seqNum, idle
      ensures r.None? <==> !created || old(ids).Keys == Range(seqNum.min, seqNum.max) || !initialized || !activated
      ensures r.None? ==>
                View() == if !created || old(ids).Keys == Range(seqNum.min, seqNum.max) then old(View())
                          else WithoutSocket(old(View()), fd)
      ensures r.Some? ==>
                r.value.fd == fd && r.value.id !in old(ids) &&
                View() == Opened(old(View()), r.value, conf.inactiveConnLife, now)
      ensures r.None? ==>
                && ids == old(ids) && seqNum.inuse == old(seqNum.inuse) && idle.records == old(idle.records)
                && (created && old(ids).Keys != Range(seqNum.min, seqNum.max) ==> fds == old(fds) - {fd})
      ensures r.Some? ==>
                && fds == old(fds)[fd := ClientCtx(r.value, now, 0)] && ids == old(ids)[r.value.id := r.value]
                && seqNum.inuse == old(seqNum.inuse) + {r.value.id}
                && idle.records == old(idle.records)[r.value.id := ValueCtx(r.value, now, conf.inactiveConnLife)]
      ensures seqNum.Valid() && idle.Valid() && (fd !in old(fds) || View() == old(View()) <==> Valid())
      ensures maxOnlineConnCount == if r.Some? && |fds| > old(maxOnlineConnCount) then |fds|
              else old(maxOnlineConnCount)
    {
      hide Corresponds, Agree, NextFree, Range;
      ghost var v := View();
      if !created { return None; }
      UsedIds(v, {});
      var id := seqNum.Alloc();
      if id == INVALID_SEQ_NUM { return None; }
      FreeIsNotInUse(seqNum.min, seqNum.max, old(seqNum.cursor), v.inuse, id);
      var c := Conn(id, fd);
      if !initialized || !activated {
        NewId(v, id);
        WithoutSocketCorresponds(v, fd);
        Clear(c);
        return None;
      }
      ids := ids[id := c];
      fds := fds[fd := ClientCtx(c, now, 0)];
      idle.UpsertRecord(id, c, conf.inactiveConnLife, now);
      OpenedCorresponds(v, c, conf.inactiveConnLife, now);
      if |fds| > maxOnlineConnCount {
        maxOnlineConnCount := |fds|;
      }
      r := Some(c);
    }

    method DestroyConn(fd: int, ghost expiring: set<int>)
      requires Consistent(expiring)
      modifies this`fds, this`ids, seqNum`inuse, idle
      ensures Consistent(if fd in old(fds) then expiring - {old(fds)[fd].conn.id} else expiring)
      ensures View() == if fd in old(fds) then Closed(old(View()), old(fds)[fd].conn) else old(View())
      ensures fd in old(fds) ==>
                var c := old(fds)[fd].conn;
                && fds == old(fds) - {fd} && ids == old(ids) - {c.id}
                && seqNum.inuse == old(seqNum.inuse) - {c.id} && idle.records == old(idle.records) - {c.id}
    {
      hide Corresponds, Agree;
      if fd !in fds {
        return;
      }
      ghost var v := View();
      var c := fds[fd].conn;
      KnownConn(v, fd, expiring);
      ClosedCorresponds(v, c, expiring);
      var found := idle.RecordExist(c.id);
      if found {
        idle.RemoveRecord(c.id);
      } else {
        assert idle.records == idle.records - {c.id};
      }
      Clear(c);
    }

    /** -1 reports a storm.  The socket entry that operator[] touches is always there. */
    method UpdateConnStatus(id: int, received: bool, now: int) returns (r: int)
      requires Valid()
      modifies this`fds, idle
      ensures Valid()
      ensures fds.Keys == old(fds).Keys && ids == old(ids)
      ensures id !in old(ids) ==> r == 0 && View() == old(View())
      ensures id in old(ids) && !received ==> r == 0 && View() == Refreshed(old(View()), id, conf.inactiveConnLife, now)
      ensures id in old(ids) && received ==>
                old(ids)[id].fd in old(fds) &&
                var client := old(fds)[old(ids)[id].fd];
                var touched := Touched(old(View()), id, Counted(conf, client, now));
                if Storm(conf, client, now) then r == -1 && View() == touched
                else r == 0 && View() == Refreshed(touched, id, conf.inactiveConnLife, now)
      ensures id in old(ids) ==> id in ids && ids[id].fd in old(fds) && ids[id].fd in fds
      ensures id in old(ids) ==>
                var was, client := old(fds)[ids[id].fd], fds[ids[id].fd];
                var elapsed := now - was.startTime >= conf.stormInterval;
                var many := was.recvCount + 1 >= conf.stormThreshold;
                && (r == -1 <==> received && elapsed && many) && (r == 0 || r == -1)
                && client.conn == was.conn && fds == old(fds)[ids[id].fd := client]
                && (!received ==> client == was)
                && (received && elapsed && !many ==> client.startTime == now && client.recvCount == 0)
                && (received && (!elapsed || many) ==>
                      client.startTime == was.startTime && client.recvCount == was.recvCount + 1)
                && idle.records == (if r == -1 then old(idle.records)
                                    else old(idle.records)[id := ValueCtx(old(ids)[id], now, conf.inactiveConnLife)])
    {
      hide Corresponds, Agree;
      if id !in ids {
        return 0;
      }
      ghost var v := View();
      KnownId(v, id, {});
      if received {
        var fd := ids[id].fd;
        TouchedCorresponds(v, id, Counted(conf, fds[fd], now));
        fds := fds[fd := fds[fd].(recvCount := fds[fd].recvCount + 1)];
        if now - fds[fd].startTime >= conf.stormInterval {
          if fds[fd].recvCount >= conf.stormThreshold {
            return -1;
          }
          fds := fds[fd := fds[fd].(startTime := now)];
          fds := fds[fd := fds[fd].(recvCount := 0)];
        }
        assert View() == Touched(v, id, Counted(conf, v.fds[fd], now));
      }
      RefreshedCorresponds(View(), id, conf.inactiveConnLife, now);
      idle.UpsertRecord(id, ids[id], conf.inactiveConnLife, now);
      r := 0;
    }
  }

  lemma UsedIds(v: View, expiring: set<int>)
    requires Corresponds(v, expiring)
    ensures v.ids.Keys == v.inuse && v.records.Keys <= v.inuse
  {
  }

  lemma NewId(v: View, id: int)
    requires Corresponds(v, {}) && id !in v.inuse
    ensures v.ids - {id} == v.ids && v.inuse + {id} - {id} == v.inuse
  {
  }

  /** The two look-ups are inverse to each other: a connection is found under its socket exactly when it
      is found under its id. */
  lemma LookupsInverse(v: View, c: Conn, expiring: set<int>)
    requires Corresponds(v, expiring)
    ensures c.fd in v.fds && v.fds[c.fd].conn == c <==> c.id in v.ids && v.ids[c.id] == c
  {
  }

  lemma KnownConn(v: View, fd: int, expiring: set<int>)
    requires Corresponds(v, expiring) && fd in v.fds
    ensures v.fds[fd].conn.fd == fd && v.fds[fd].conn.id in v.ids && v.ids[v.fds[fd].conn.id] == v.fds[fd].conn
  {
  }

  lemma KnownId(v: View, id: int, expiring: set<int>)
    requires Corresponds(v, expiring) && id in v.ids
    ensures v.ids[id].fd in v.fds && v.fds[v.ids[id].fd].conn == v.ids[id] && v.ids[id].id == id
  {
  }

  // ---------------------------------------------------------------------------
  // The thread's connection counters
  // ---------------------------------------------------------------------------

  class ThreadSink {
    const conns: ConnCenter
    /** The configured limit; not positive means unlimited. */
    const limit: int
    var stopping: bool
    var online: int
    var maxOnline: int

    ghost predicate Counts()
      reads this, conns
    {
      online == |conns.fds| && online <= maxOnline && (limit > 0 ==> maxOnline <= limit)
    }

    /** The online count is the number of live connections, and a positive limit holds. */
    ghost predicate Valid()
      reads this, conns, conns.seqNum, conns.idle
    {
      conns.Valid() && Counts()
    }

    constructor (conf: ConnConf, min: int, max: int, limit: int)
      requires ValidRange(min, max)
      ensures Valid() && online == 0 && this.limit == limit && fresh(conns) && fresh(conns.seqNum) && fresh(conns.idle)
    {
      conns := new ConnCenter(conf, min, max);
      this.limit := limit;
      stopping, online, maxOnline := false, 0, 0;
    }

    /** Refuses while stopping or at the limit; otherwise the connection is set up. */
    method OnAccept(fd: int, created: bool, initialized: bool, activated: bool, now: int) returns (accepted: bool)
      requires Valid()
      modifies this`online, this`maxOnline, conns, conns.seqNum, conns.idle
      ensures Valid()
      ensures stopping || (limit > 0 && old(online) >= limit) ==>
                !accepted && conns.View() == old(conns.View()) && online == old(online)
      ensures accepted ==> fd in conns.fds && online == old(online) + (if fd in old(conns.fds) then 0 else 1)
      ensures accepted ==>
                conns.View() == Opened(Vacated(old(conns.View()), fd), conns.fds[fd].conn,
                                       conns.conf.inactiveConnLife, now)
      ensures !stopping && (limit > 0 ==> old(online) < limit) ==>
                (accepted <==> Creatable(Vacated(old(conns.View()), fd), created, initialized, activated,
                                         conns.seqNum.min, conns.seqNum.max))
                && (!accepted ==> conns.View() == Vacated(old(conns.View()), fd))
    {
      if stopping {
        return false;
      }
      if limit > 0 && online >= limit {
        return false;
      }
      var r := OnClientConnected(fd, created, initialized, activated, now);
      return r == 0;
    }

    /** Destroys a connection left over on the socket. */
    method DropStale(fd: int)
      requires Valid()
      modifies this`online, conns`fds, conns`ids, conns.seqNum`inuse, conns.idle
      ensures Valid() && fd !in conns.fds && conns.View() == Vacated(old(conns.View()), fd)
      ensures online == old(online) - (if fd in old(conns.fds) then 1 else 0)
    {
      hide Corresponds, Agree, Range;
      var stale := conns.GetConnBySockFD(fd);
      if stale.Some? {
        KnownConn(conns.View(), fd, {});
        CountWithout(conns.fds, fd);
        NoneExpiring(stale.value.id);
        conns.DestroyConn(stale.value.fd, {});
        online := online - 1;
      }
    }

    /** A connection left over on the same socket is destroyed first. */
    method OnClientConnected(fd: int, created: bool, initialized: bool, activated: bool, now: int) returns (r: int)
      requires Valid()
      modifies this`online, this`maxOnline, conns, conns.seqNum, conns.idle
      ensures conns.Valid() && online == |conns.fds| <= maxOnline
      ensures (limit > 0 ==> online <= limit) <==> Valid()
      ensures r == if Creatable(Vacated(old(conns.View()), fd), created, initialized, activated,
                                conns.seqNum.min, conns.seqNum.max)
                   then 0 else -1
      ensures r == 0 ==> fd in conns.fds && online == old(online) + (if fd in old(conns.fds) then 0 else 1)
      ensures r == 0 ==>
                conns.View() == Opened(Vacated(old(conns.View()), fd), conns.fds[fd].conn,
                                       conns.conf.inactiveConnLife, now)
      ensures r == -1 ==> conns.View() == Vacated(old(conns.View()), fd)
                          && online == old(online) - (if fd in old(conns.fds) then 1 else 0)
      ensures maxOnline == if r == 0 && online > old(maxOnline) then online else old(maxOnline)
    {
      hide Corresponds, Agree, Range, Vacated, SeqNum.Valid, RecordTimeoutMgr.Valid;
      DropStale(fd);
      ghost var before := conns.fds;
      var c := conns.CreateConn(fd, created, initialized, activated, now);
      if c.None? {
        return -1;
      }
      CountWith(before, fd, ClientCtx(c.value, now, 0));
      online := online + 1;
      if online > maxOnline {
        maxOnline := online;
      }
      return 0;
    }

    /** Whatever is on the connection's socket is removed everywhere, and the count lowered by one: it
        stays the number of live connections if and only if there was something. */
    method OnClientClosed(c: Conn, ghost expiring: set<int>)
      requires conns.Consistent(expiring) && Counts()
      modifies this`online, conns`fds, conns`ids, conns.seqNum`inuse, conns.idle
      ensures conns.Consistent(if c.fd in old(conns.fds) then expiring - {old(conns.fds)[c.fd].conn.id} else expiring)
      ensures conns.View() == Vacated(old(conns.View()), c.fd) && online == old(online) - 1
      ensures Counts() <==> c.fd in old(conns.fds)
    {
      hide Corresponds, Agree;
      CountWithout(conns.fds, c.fd);
      if c.fd in conns.fds { KnownConn(conns.View(), c.fd, expiring); }
      conns.DestroyConn(c.fd, expiring);
      online := online - 1;
    }

    /** An idle-expiry batch closes exactly the connections whose records are due. */
    method OnTimer(now: int)
      requires Valid()
      modifies this`online, conns`fds, conns`ids, conns.seqNum`inuse, conns.idle
      ensures Valid()
      ensures conns.ids == old(conns.ids) - DueRecords(old(conns.idle.records), now).Keys
      ensures conns.idle.records == LiveRecords(old(conns.idle.records), now)
      ensures online == old(online) - |DueRecords(old(conns.idle.records), now)|
    {
      hide Corresponds, Agree, DueRecords, LiveRecords;
      ghost var v := conns.View();
      var due := conns.idle.OnTimer(now);
      BatchStarts(v, now);
      var left := due.Keys;
      while left != {}
        invariant left <= due.Keys && conns.Consistent(left) && Counts()
        invariant conns.ids == v.ids - (due.Keys - left)
        invariant conns.idle.records == LiveRecords(v.records, now)
        invariant online == old(online) - |due.Keys - left|
        decreases left
      {
        ghost var some := Member(left);
        var id :| id in left;
        BatchMember(v, now, left, id, conns.View());
        KnownId(conns.View(), id, left);
        OnClientClosed(due[id].v, left);
        BatchShrinks(v.ids, due.Keys, left, id);
        left := left - {id};
      }
      assert due.Keys - {} == due.Keys;
    }
  }

  lemma NoneExpiring(id: int)
    ensures ({}) - {id} == {}
  {
  }

  lemma BatchStarts(v: View, now: int)
    requires Corresponds(v, {})
    ensures Corresponds(v.(records := LiveRecords(v.records, now)), DueRecords(v.records, now).Keys)
    ensures v.ids - (DueRecords(v.records, now).Keys - DueRecords(v.records, now).Keys) == v.ids
  {
    assert LiveRecords(v.records, now).Keys == v.records.Keys - DueRecords(v.records, now).Keys;
  }

  /** What the expiry batch reports for an id is the connection that still holds it. */
  lemma BatchMember(v: View, now: int, left: set<int>, id: int, w: View)
    requires Corresponds(v, {}) && id in left && left <= DueRecords(v.records, now).Keys
    requires w.ids == v.ids - (DueRecords(v.records, now).Keys - left) && Corresponds(w, left)
    ensures DueRecords(v.records, now)[id].v.id == id && id in w.ids && w.ids[id] == DueRecords(v.records, now)[id].v
    ensures LiveRecords(v.records, now) - {id} == LiveRecords(v.records, now)
  {
  }
}
