/**
 The division of header values between headers does not depend on how the input is cut, not even
 where header names do.  A value begins with the first value callback after a name callback; a name
 callback that no value follows, which is what a broken-off name leaves behind, begins nothing.
 */
module MultipartValues {
  import opened Prelude
  import opened Multipart
  import opened MultipartChunks

  /** The header values of each part so far; `named` when a name has been reported since the last one. */
  datatype Seen = Seen(parts: seq<seq<Bytes>>, named: bool)

  function WithValue(parts: seq<seq<Bytes>>, named: bool, x: Bytes): seq<seq<Bytes>> {
    if parts == [] then []
    else
      var last := parts[|parts| - 1];
      parts[..|parts| - 1] + [if named then last + [x] else LastExtended(last, x)]
  }

  function See(s: Seen, e: Event): Seen {
    match e
    case PartDataBegin => Seen(s.parts + [[]], false)
    case HeaderField(_) => s.(named := true)
    case HeaderValue(x) => Seen(WithValue(s.parts, s.named, x), false)
    case _ => s.(named := false)
  }

  function SeeAll(s: Seen, events: seq<Event>): Seen
    decreases |events|
  {
    if events == [] then s else SeeAll(See(s, events[0]), events[1..])
  }

  /** For each part, the values of its headers, each in one piece. */
  function HeaderValues(events: seq<Event>): seq<seq<Bytes>> {
    SeeAll(Seen([], false), events).parts
  }

  lemma {:induction false} SeeConcat(s: Seen, d: seq<Event>, e: seq<Event>)
    ensures SeeAll(s, d + e) == SeeAll(SeeAll(s, d), e)
    decreases |d|
  {
    hide See;
    if d == [] {
      assert d + e == e;
    } else {
      assert (d + e)[1..] == d[1..] + e;
      SeeConcat(See(s, d[0]), d[1..], e);
    }
  }

  lemma SeeOne(s: Seen, e: Event)
    ensures SeeAll(s, [e]) == See(s, e)
  {
    assert [e][1..] == [];
  }

  // ---------------------------------------------------------------------------
  // Joining changes nothing
  // ---------------------------------------------------------------------------

  lemma ValueTwice(parts: seq<seq<Bytes>>, named: bool, x: Bytes, y: Bytes)
    ensures WithValue(WithValue(parts, named, x), false, y) == WithValue(parts, named, x + y)
  {
    if parts != [] {
      var init, last := parts[..|parts| - 1], parts[|parts| - 1];
      var p := WithValue(parts, named, x);
      assert p[..|p| - 1] == init;
      if named {
        assert (last + [x])[..|last|] == last;
      } else {
        ExtendTwice(last, x, y);
      }
    }
  }

  lemma JoinedSeen(s: Seen, d: Event, e: Event)
    requires Joinable(d, e)
    ensures See(See(s, d), e) == See(s, Longer(d, e.bytes))
  {
    if d.HeaderValue? {
      ValueTwice(s.parts, s.named, d.bytes, e.bytes);
    }
  }

  lemma JoinSeen(s: Seen, t: seq<Event>, e: Event)
    ensures SeeAll(s, Join(t, e)) == SeeAll(s, t + [e])
  {
    if t != [] && Joinable(t[|t| - 1], e) {
      var init, last := t[..|t| - 1], t[|t| - 1];
      var j := Longer(last, e.bytes);
      assert t == init + [last];
      SeeConcat(s, init, [last]);
      SeeConcat(s, t, [e]);
      SeeConcat(s, init, [j]);
      var u := SeeAll(s, init);
      SeeOne(u, last);
      SeeOne(u, j);
      SeeOne(See(u, last), e);
      JoinedSeen(u, last, e);
    }
  }

  lemma {:induction false} JoinAllSeen(s: Seen, t: seq<Event>, events: seq<Event>)
    ensures SeeAll(s, JoinAll(t, events)) == SeeAll(s, t + events)
    decreases |events|
  {
    if events == [] {
      assert t + events == t;
    } else {
      var e, rest := events[0], events[1..];
      JoinAllSeen(s, Join(t, e), rest);
      JoinSeen(s, t, e);
      SeeConcat(s, Join(t, e), rest);
      SeeConcat(s, t + [e], rest);
      assert t + [e] + rest == t + events;
    }
  }

  lemma EquivSeen(s: Seen, d: seq<Event>, e: seq<Event>)
    requires Equiv(true, d, e)
    ensures SeeAll(s, d) == SeeAll(s, e)
  {
    EquivNormal(true, d, e);
    ViewAll(d);
    ViewAll(e);
    JoinAllSeen(s, [], d);
    JoinAllSeen(s, [], e);
    assert [] + d == d && [] + e == e;
  }

  // ---------------------------------------------------------------------------
  // The loop and the reference see the same values
  // ---------------------------------------------------------------------------

  /** States in which it does not matter whether a name has been reported: no value can follow. */
  predicate PastNames(s: State) {
    s == SHeadersAlmostDone || s == SPartDataStart
  }

  ghost predicate Alike(s: State, a: Seen, c: Seen) {
    a.parts == c.parts && (a.named == c.named || PastNames(s))
  }

  /** A step from alike to alike. */
  lemma AlikeStep(b: Bytes, p: Parser, buf: Bytes, i: nat, mark: nat, a: Seen, c: Seen)
    requires Valid(b, p) && mark <= i < |buf| && Alike(p.state, a, c)
    ensures var n := StepAt(b, p, buf, i, mark);
            n.Go? ==> Alike(n.p.state, SeeAll(a, n.events), SeeAll(c, n.events))
  {
    var n := StepAt(b, p, buf, i, mark);
    if a.named == c.named {
      assert a == c;
    } else if n.Go? && p.state == SPartDataStart {
      var more := n.events[1..];
      assert n.events == [HeadersComplete] + more;
      assert See(a, HeadersComplete) == See(c, HeadersComplete);
    }
  }

  /** A broken-off name: the reference has reported it, the loop has not. */
  lemma DroppedSeen(b: Bytes, p: Parser, buf: Bytes, i: nat, mark: nat, c: Seen)
    requires Valid(b, p) && mark <= i < |buf| && p.state == SHeaderField && Drops(buf[i])
    ensures var before, q := PendingAt(p.state, buf, mark, i), p.(state := SHeadersAlmostDone);
            && Valid(b, q) && Alike(SHeadersAlmostDone, c, SeeAll(c, before))
            && (if buf[i] == CR then StepAt(b, p, buf, i, mark) == Go(q, true, mark, []) &&
               ByteStep(b, p, buf[i]) == Accept(q, [])
                else StepAt(b, p, buf, i, mark) == Stop(p) && ByteStep(b, p, buf[i]) == Refuse(p))
  {
    var bytes := buf[mark..i];
    if bytes != [] { SeeOne(c, HeaderField(bytes)); }
  }

  /** What the loop shows from `a` on and what the reference shows from `c` on. */
  ghost predicate SeenAlike(l: Run, size: nat, a: Seen, c: Seen) {
    a.parts == c.parts && (l.consumed == size ==> Alike(l.p.state, a, c))
  }

  /** From position `i` on, the loop shows from `a` what the reference, with the pending bytes, shows
      from `c`. */
  ghost predicate SimAt(b: Bytes, p: Parser, buf: Bytes, i: nat, mark: nat, a: Seen, c: Seen)
    requires Valid(b, p) && mark <= i <= |buf|
  {
    var l, r := Loop(b, p, buf, i, mark), Ref(b, p, buf[i..]);
    SeenAlike(l, |buf|, SeeAll(a, l.events), SeeAll(c, PendingAt(p.state, buf, mark, i) + r.events))
  }

  /** One unfolding of the loop and of the reference. */
  lemma BothUnfolded(b: Bytes, p: Parser, buf: Bytes, i: nat, mark: nat)
    requires Valid(b, p) && mark <= i < |buf|
    ensures var n := StepAt(b, p, buf, i, mark);
            && (n.Stop? ==> Loop(b, p, buf, i, mark) == Run(n.p, i, []))
            && (n.Go? ==> Valid(b, n.p) && n.mark <= i
                          && var l := Loop(b, n.p, buf, if n.advance then i + 1 else i, n.mark);
                             Loop(b, p, buf, i, mark) == Run(l.p, l.consumed, n.events + l.events))
    ensures var n := ByteStep(b, p, buf[i]);
            && (n.Refuse? ==> Ref(b, p, buf[i..]) == Run(n.p, 0, []))
            && (n.Accept? ==> Valid(b, n.p)
                              && var r := Ref(b, n.p, buf[i + 1..]);
                                 Ref(b, p, buf[i..]) == Run(r.p, 1 + r.consumed, n.events + r.events))
  {
    hide StepAt, ByteStep, Valid;
    StepValid(b, p, buf, i, mark);
    ByteValid(b, p, buf[i]);
    assert buf[i..][0] == buf[i] && buf[i..][1..] == buf[i + 1..];
  }

  lemma SeenDrop(b: Bytes, p: Parser, buf: Bytes, i: nat, mark: nat, a: Seen, c: Seen)
    requires Valid(b, p) && mark <= i < |buf| && Alike(p.state, a, c) && p.state == SHeaderField && Drops(buf[i])
    requires var q, before := p.(state := SHeadersAlmostDone), PendingAt(p.state, buf, mark, i);
             buf[i] == CR ==> Valid(b, q) && SimAt(b, q, buf, i + 1, mark, a, SeeAll(c, before))
    ensures SimAt(b, p, buf, i, mark, a, c)
  {
    var q, before := p.(state := SHeadersAlmostDone), PendingAt(p.state, buf, mark, i);
    BothUnfolded(b, p, buf, i, mark);
    DroppedSeen(b, p, buf, i, mark, c);
    hide Loop, Ref, StepAt, ByteStep, Valid, Drops, SeeAll, PendingAt;
    var none: seq<Event> := [];
    NothingSeen(a, c);
    assert before + none == before;
    if buf[i] == CR {
      var l, r := Loop(b, q, buf, i + 1, mark), Ref(b, q, buf[i + 1..]);
      SeeConcat(c, before, r.events);
      assert PendingAt(q.state, buf, mark, i + 1) == none by { NothingPending(buf, mark, i + 1); }
      assert none + r.events == r.events && none + l.events == l.events;
    }
  }

  lemma SeenAdvance(b: Bytes, p: Parser, buf: Bytes, i: nat, mark: nat, a: Seen, c: Seen)
    requires Valid(b, p) && mark <= i < |buf| && !(p.state == SHeaderField && Drops(buf[i]))
    requires var n := StepAt(b, p, buf, i, mark);
             n.Go? && n.advance && n.mark <= i && Valid(b, n.p)
             && SimAt(b, n.p, buf, i + 1, n.mark, SeeAll(a, n.events), SeeAll(c, n.events))
    ensures SimAt(b, p, buf, i, mark, a, c)
  {
    var n, before := StepAt(b, p, buf, i, mark), PendingAt(p.state, buf, mark, i);
    BothUnfolded(b, p, buf, i, mark);
    StepSim(true, b, p, buf, i, mark);
    hide Loop, Ref, StepAt, ByteStep, Valid, Drops, SeeAll, PendingAt, Equiv, Reported;
    var l, r := Loop(b, n.p, buf, i + 1, n.mark), Ref(b, n.p, buf[i + 1..]);
    SeenChain(c, before, ByteStep(b, p, buf[i]).events, n.events, PendingAt(n.p.state, buf, n.mark, i + 1), r.events);
    SeeConcat(a, n.events, l.events);
  }

  lemma SeenBack(b: Bytes, p: Parser, buf: Bytes, i: nat, mark: nat, a: Seen, c: Seen)
    requires Valid(b, p) && mark <= i < |buf| && !(p.state == SHeaderField && Drops(buf[i]))
    requires var n := StepAt(b, p, buf, i, mark);
             n.Go? && !n.advance && n.mark <= i && Valid(b, n.p)
             && SimAt(b, n.p, buf, i, n.mark, SeeAll(a, n.events), SeeAll(c, n.events))
    ensures SimAt(b, p, buf, i, mark, a, c)
  {
    var x, n, before := buf[i..], StepAt(b, p, buf, i, mark), PendingAt(p.state, buf, mark, i);
    assert x[0] == buf[i];
    BothUnfolded(b, p, buf, i, mark);
    StepSim(true, b, p, buf, i, mark);
    StepBack(b, p, n.p, x, n.events, true);
    assert PendingAt(n.p.state, buf, i, i) == [] by { assert buf[i..i] == []; }
    hide Loop, Ref, StepAt, ByteStep, Valid, Drops, SeeAll, PendingAt, Equiv, Reported;
    var l, r := Loop(b, n.p, buf, i, n.mark), Ref(b, n.p, x);
    assert [] + r.events == r.events && [] + (n.events + r.events) == n.events + r.events;
    SeeConcat(a, n.events, l.events);
    SeeConcat(c, n.events, r.events);
  }

  lemma SeenStop(b: Bytes, p: Parser, buf: Bytes, i: nat, mark: nat, a: Seen, c: Seen)
    requires Valid(b, p) && mark <= i < |buf| && !(p.state == SHeaderField && Drops(buf[i])) && Alike(p.state, a, c)
    requires StepAt(b, p, buf, i, mark).Stop?
    ensures SimAt(b, p, buf, i, mark, a, c)
  {
    var before := PendingAt(p.state, buf, mark, i);
    BothUnfolded(b, p, buf, i, mark);
    StepSim(true, b, p, buf, i, mark);
    hide Loop, Ref, StepAt, ByteStep, Valid, Drops, SeeAll, PendingAt, Equiv, Reported;
    EquivSeen(c, [], before);
    NothingSeen(a, c);
    assert before + [] == before;
  }

  lemma SeenAtEnd(b: Bytes, p: Parser, buf: Bytes, mark: nat, a: Seen, c: Seen)
    requires Valid(b, p) && mark <= |buf| && Alike(p.state, a, c)
    ensures SimAt(b, p, buf, |buf|, mark, a, c)
  {
    assert buf[|buf|..] == [];
  }

  lemma {:induction false} SeenSim(b: Bytes, p: Parser, buf: Bytes, i: nat, mark: nat, a: Seen, c: Seen)
    requires Valid(b, p) && mark <= i <= |buf| && Alike(p.state, a, c)
    ensures SimAt(b, p, buf, i, mark, a, c)
    decreases |buf| - i, Rank(p.state)
  {
    hide SimAt, StepAt, Valid, Drops, SeeAll, PendingAt, ByteStep;
    if i == |buf| {
      SeenAtEnd(b, p, buf, mark, a, c);
    } else if p.state == SHeaderField && Drops(buf[i]) {
      DroppedSeen(b, p, buf, i, mark, c);
      if buf[i] == CR {
        SeenSim(b, p.(state := SHeadersAlmostDone), buf, i + 1, mark, a, SeeAll(c, PendingAt(p.state, buf, mark, i)));
      }
      SeenDrop(b, p, buf, i, mark, a, c);
    } else {
      var n := StepAt(b, p, buf, i, mark);
      StepValid(b, p, buf, i, mark);
      AlikeStep(b, p, buf, i, mark, a, c);
      if n.Stop? {
        SeenStop(b, p, buf, i, mark, a, c);
      } else if n.advance {
        SeenSim(b, n.p, buf, i + 1, n.mark, SeeAll(a, n.events), SeeAll(c, n.events));
        SeenAdvance(b, p, buf, i, mark, a, c);
      } else {
        SeenSim(b, n.p, buf, i, n.mark, SeeAll(a, n.events), SeeAll(c, n.events));
        SeenBack(b, p, buf, i, mark, a, c);
      }
    }
  }

  lemma SeenChain(c: Seen, before: seq<Event>, byteEvents: seq<Event>, events: seq<Event>, after: seq<Event>,
                  r: seq<Event>)
    requires Reported(true, before, byteEvents, events, after)
    ensures SeeAll(c, before + (byteEvents + r)) == SeeAll(SeeAll(c, events), after + r)
  {
    hide Equiv, SeeAll;
    EquivSeen(c, events + after, before + byteEvents);
    SeeConcat(c, before + byteEvents, r);
    SeeConcat(c, events + after, r);
    SeeConcat(c, events, after + r);
    assert before + byteEvents + r == before + (byteEvents + r);
    assert events + after + r == events + (after + r);
  }

  lemma {:induction false} FeedSeen(b: Bytes, p: Parser, chunks: seq<Bytes>, a: Seen, c: Seen)
    requires Valid(b, p) && Alike(p.state, a, c)
    ensures SeeAll(a, Feed(b, p, chunks).events).parts == SeeAll(c, Ref(b, p, Flatten(chunks)).events).parts
    decreases |chunks|
  {
    hide Equiv, Loop, Valid, SeeAll;
    if chunks == [] {
      hide *;
      NothingSeen(a, c);
    } else {
      var x, rest := chunks[0], Flatten(chunks[1..]);
      RefConcat(b, p, x, rest);
      assert x[0..] == x && x[0..0] == [];
      LoopSim(false, b, p, x, 0, 0);
      SeenSim(b, p, x, 0, 0, a, c);
      var l, r := Execute(b, p, x), Ref(b, p, x);
      assert PendingAt(p.state, x, 0, 0) == [] && [] + r.events == r.events;
      if r.consumed == |x| {
        FeedSeen(b, r.p, chunks[1..], SeeAll(a, l.events), SeeAll(c, r.events));
        SeeConcat(a, l.events, Feed(b, r.p, chunks[1..]).events);
        SeeConcat(c, r.events, Ref(b, r.p, rest).events);
      }
    }
  }

  lemma NothingSeen(a: Seen, c: Seen)
    ensures SeeAll(a, []) == a && SeeAll(c, []) == c
  {
  }

  /** For every input, however cut and whatever was seen before: the same values, header by header and
      part by part. */
  lemma ValuesIndependent(b: Bytes, p: Parser, chunks: seq<Bytes>, chunks': seq<Bytes>, s: Seen)
    requires Valid(b, p) && Flatten(chunks) == Flatten(chunks')
    ensures SeeAll(s, Feed(b, p, chunks).events).parts == SeeAll(s, Feed(b, p, chunks').events).parts
    ensures HeaderValues(Feed(b, p, chunks).events) == HeaderValues(Feed(b, p, chunks').events)
  {
    hide Feed, Ref, SeeAll;
    FeedSeen(b, p, chunks, s, s);
    FeedSeen(b, p, chunks', s, s);
    var none := Seen([], false);
    FeedSeen(b, p, chunks, none, none);
    FeedSeen(b, p, chunks', none, none);
  }
}
