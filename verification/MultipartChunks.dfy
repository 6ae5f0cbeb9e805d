/**
 The parser does not depend on how its input is cut into chunks.  The reference is a machine that
 takes one byte at a time and knows nothing of marks; traces are compared after joining adjacent
 data callbacks of the same kind.
 */
module MultipartChunks {
  import opened Prelude
  import opened Multipart

  // ---------------------------------------------------------------------------
  // The reference: one byte at a time
  // ---------------------------------------------------------------------------

  datatype ByteNext = Refuse(p: Parser) | Accept(p: Parser, events: seq<Event>)

  function DataByte(p: Parser, c: Byte): ByteNext
    requires |p.look| > 0
  {
    if c == CR then Accept(p.(state := SPartDataAlmostBoundary, look := p.look[0 := CR]), [PartData([])])
    else Accept(p.(state := SPartData), [PartData([c])])
  }

  function ByteStep(b: Bytes, p: Parser, c: Byte): ByteNext
    requires Valid(b, p)
  {
    match p.state
    case SStart => BoundaryByte(b, p.(index := 0, state := SStartBoundary), c)
    case SStartBoundary => BoundaryByte(b, p, c)
    case SHeaderFieldStart => FieldByte(p.(state := SHeaderField), c)
    case SHeaderField => FieldByte(p, c)
    case SHeadersAlmostDone => if c == LF then Accept(p.(state := SPartDataStart), []) else Refuse(p)
    case SHeaderValueStart => if c == SPACE then Accept(p, []) else ValueByte(p.(state := SHeaderValue), c)
    case SHeaderValue => ValueByte(p, c)
    case SHeaderValueAlmostDone => if c == LF then Accept(p.(state := SHeaderFieldStart), []) else Refuse(p)
    case SPartDataStart =>
      var n := DataByte(p, c);
      Accept(n.p, [HeadersComplete] + n.events)
    case SPartData => DataByte(p, c)
    case SPartDataAlmostBoundary =>
      if c == LF then Accept(p.(state := SPartDataBoundary, look := p.look[1 := LF], index := 0), [])
      else var n := DataByte(p, c); Accept(n.p, [PartData([CR])] + n.events)
    case SPartDataBoundary =>
      if c == b[p.index] then
        var q := p.(look := p.look[2 + p.index := c], index := p.index + 1);
        if q.index == |b| then Accept(q.(state := SPartDataAlmostEnd), [PartDataEnd]) else Accept(q, [])
      else var n := DataByte(p, c); Accept(n.p, [PartData(Delimiter(b)[..2 + p.index])] + n.events)
    case SPartDataAlmostEnd =>
      if c == HYPHEN then Accept(p.(state := SPartDataFinalHyphen), [])
      else if c == CR then Accept(p.(state := SPartDataEnd), [])
      else Refuse(p)
    case SPartDataFinalHyphen => if c == HYPHEN then Accept(p.(state := SEnd), [BodyEnd]) else Refuse(p)
    case SPartDataEnd => if c == LF then Accept(p.(state := SHeaderFieldStart), [PartDataBegin]) else Refuse(p)
    case SEnd => Accept(p, [])
  }

  function BoundaryByte(b: Bytes, p: Parser, c: Byte): ByteNext
    requires p.index <= |b| + 1
  {
    if p.index == |b| then
      if c == CR then Accept(p.(index := p.index + 1), []) else Refuse(p)
    else if p.index == |b| + 1 then
      if c == LF then Accept(p.(index := 0, state := SHeaderFieldStart), [PartDataBegin]) else Refuse(p)
    else if c == b[p.index] then Accept(p.(index := p.index + 1), [])
    else Refuse(p)
  }

  function FieldByte(p: Parser, c: Byte): ByteNext {
    if c == CR then Accept(p.(state := SHeadersAlmostDone), [])
    else if c == COLON then Accept(p.(state := SHeaderValueStart), [HeaderField([])])
    else if NameChar(c) then Accept(p, [HeaderField([c])])
    else Refuse(p)
  }

  function ValueByte(p: Parser, c: Byte): ByteNext {
    if c == CR then Accept(p.(state := SHeaderValueAlmostDone), [HeaderValue([])])
    else Accept(p, [HeaderValue([c])])
  }

  lemma ByteValid(b: Bytes, p: Parser, c: Byte)
    requires Valid(b, p)
    ensures Valid(b, ByteStep(b, p, c).p)
  {
    if p.state == SPartDataAlmostBoundary {
      assert p.look[1 := LF][..2] == [CR, LF] == Delimiter(b)[..2];
    } else if p.state == SPartDataBoundary && b[p.index] == c {
      MatchedMore(b, p.look, p.index);
    }
  }

  /** The reference run: stops at the first byte it refuses. */
  function Ref(b: Bytes, p: Parser, x: Bytes): (r: Run)
    requires Valid(b, p)
    ensures Valid(b, r.p) && r.consumed <= |x|
    decreases |x|
  {
    if x == [] then Run(p, 0, [])
    else
      ByteValid(b, p, x[0]);
      match ByteStep(b, p, x[0])
      case Refuse(q) => Run(q, 0, [])
      case Accept(q, events) =>
        var r := Ref(b, q, x[1..]);
        Run(r.p, 1 + r.consumed, events + r.events)
  }

  lemma {:induction false} RefConcat(b: Bytes, p: Parser, x: Bytes, y: Bytes)
    requires Valid(b, p)
    ensures var r := Ref(b, p, x);
            Ref(b, p, x + y) ==
            if r.consumed < |x| then r
            else var s := Ref(b, r.p, y); Run(s.p, |x| + s.consumed, r.events + s.events)
    decreases |x|
  {
    hide ByteStep, Valid;
    if x == [] {
      assert x + y == y;
    } else {
      ByteValid(b, p, x[0]);
      assert (x + y)[0] == x[0] && (x + y)[1..] == x[1..] + y;
      match ByteStep(b, p, x[0])
      case Refuse(q) =>
      case Accept(q, events) =>
        RefConcat(b, q, x[1..], y);
        var r := Ref(b, q, x[1..]);
        if r.consumed == |x[1..]| {
          assert events + (r.events + Ref(b, r.p, y).events) == events + r.events + Ref(b, r.p, y).events;
        }
    }
  }

  // ---------------------------------------------------------------------------
  // Traces up to joining adjacent data callbacks
  // ---------------------------------------------------------------------------

  predicate Joinable(d: Event, e: Event) {
    || (d.HeaderField? && e.HeaderField?)
    || (d.HeaderValue? && e.HeaderValue?)
    || (d.PartData? && e.PartData?)
  }

  /** A data callback with more bytes; other callbacks carry none. */
  function Longer(d: Event, more: Bytes): Event {
    match d
    case HeaderField(x) => HeaderField(x + more)
    case HeaderValue(x) => HeaderValue(x + more)
    case PartData(x) => PartData(x + more)
    case _ => d
  }

  function Join(t: seq<Event>, e: Event): seq<Event> {
    if t != [] && Joinable(t[|t| - 1], e) then t[..|t| - 1] + [Longer(t[|t| - 1], e.bytes)]
    else t + [e]
  }

  function JoinAll(t: seq<Event>, events: seq<Event>): seq<Event>
    decreases |events|
  {
    if events == [] then t else JoinAll(Join(t, events[0]), events[1..])
  }

  /** The trace with adjacent data callbacks of one kind joined. */
  function Normal(events: seq<Event>): seq<Event> {
    JoinAll([], events)
  }

  /** The trace, with or without the header names. */
  function View(names: bool, events: seq<Event>): seq<Event> {
    if events == [] then []
    else if !names && events[0].HeaderField? then View(names, events[1..])
    else [events[0]] + View(names, events[1..])
  }

  /** Indistinguishable after joining, whatever came before. */
  ghost predicate Equiv(names: bool, d: seq<Event>, e: seq<Event>) {
    forall t :: JoinAll(t, View(names, d)) == JoinAll(t, View(names, e))
  }

  lemma {:induction false} JoinAllConcat(t: seq<Event>, d: seq<Event>, e: seq<Event>)
    ensures JoinAll(t, d + e) == JoinAll(JoinAll(t, d), e)
    decreases |d|
  {
    hide Join;
    if d == [] {
      assert d + e == e;
    } else {
      assert (d + e)[1..] == d[1..] + e;
      JoinAllConcat(Join(t, d[0]), d[1..], e);
    }
  }

  lemma {:induction false} ViewConcat(names: bool, d: seq<Event>, e: seq<Event>)
    ensures View(names, d + e) == View(names, d) + View(names, e)
    decreases |d|
  {
    if d == [] {
      assert d + e == e;
    } else {
      assert (d + e)[1..] == d[1..] + e;
      ViewConcat(names, d[1..], e);
    }
  }

  lemma ViewAll(events: seq<Event>)
    ensures View(true, events) == events
  {
  }

  lemma EquivConcat(names: bool, d: seq<Event>, e: seq<Event>, d': seq<Event>, e': seq<Event>)
    requires Equiv(names, d, e) && Equiv(names, d', e')
    ensures Equiv(names, d + d', e + e')
  {
    hide JoinAll, View;
    forall t ensures JoinAll(t, View(names, d + d')) == JoinAll(t, View(names, e + e')) {
      ViewConcat(names, d, d');
      ViewConcat(names, e, e');
      JoinAllConcat(t, View(names, d), View(names, d'));
      JoinAllConcat(t, View(names, e), View(names, e'));
    }
  }

  lemma EquivSame(names: bool, d: seq<Event>)
    ensures Equiv(names, d, d)
  {
  }

  lemma EquivTrans(names: bool, c: seq<Event>, d: seq<Event>, e: seq<Event>)
    requires Equiv(names, c, d) && Equiv(names, d, e)
    ensures Equiv(names, c, e)
  {
    hide JoinAll, View;
    forall t ensures JoinAll(t, View(names, c)) == JoinAll(t, View(names, e)) {
      assert JoinAll(t, View(names, c)) == JoinAll(t, View(names, d));
    }
  }

  lemma EquivNormal(names: bool, d: seq<Event>, e: seq<Event>)
    requires Equiv(names, d, e)
    ensures Normal(View(names, d)) == Normal(View(names, e))
  {
  }

  lemma JoinTwice(t: seq<Event>, d: Event, e: Event)
    requires Joinable(d, e)
    ensures Join(Join(t, d), e) == Join(t, Longer(d, e.bytes))
  {
    var u := Join(t, d);
    if t != [] && Joinable(t[|t| - 1], d) {
      var last := t[|t| - 1];
      assert u[..|u| - 1] == t[..|t| - 1];
      assert last.bytes + d.bytes + e.bytes == last.bytes + (d.bytes + e.bytes);
    } else {
      assert u[..|u| - 1] == t;
    }
  }

  /** Two adjacent data callbacks of one kind are one. */
  lemma EquivJoin(names: bool, d: Event, e: Event)
    requires Joinable(d, e)
    ensures Equiv(names, [d, e], [Longer(d, e.bytes)])
  {
    var j := Longer(d, e.bytes);
    ViewOne(names, d);
    ViewOne(names, e);
    ViewOne(names, j);
    ViewConcat(names, [d], [e]);
    assert [d] + [e] == [d, e];
    if names || !d.HeaderField? {
      forall t ensures JoinAll(t, View(names, [d, e])) == JoinAll(t, View(names, [j])) {
        JoinTwice(t, d, e);
        hide Join, View;
        assert [d, e][1..] == [e] && [e][1..] == [] && [j][1..] == [];
        assert JoinAll(t, [d, e]) == JoinAll(Join(t, d), [e]) == Join(Join(t, d), e);
        assert JoinAll(t, [j]) == Join(t, j);
      }
    }
  }

  lemma ViewOne(names: bool, e: Event)
    ensures View(names, [e]) == if !names && e.HeaderField? then [] else [e]
  {
    assert [e][1..] == [];
  }

  // ---------------------------------------------------------------------------
  // Dropped header names
  // ---------------------------------------------------------------------------

  /** A byte that ends a header line without a colon, or is not allowed in a name. */
  predicate Drops(c: Byte) {
    c == CR || (c != COLON && !NameChar(c))
  }

  /** No header line of the input breaks off after part of a name: every non-empty name read so far
      is followed by more of it or by its colon. */
  predicate NoDrop(b: Bytes, p: Parser, x: Bytes)
    requires Valid(b, p)
    decreases |x|
  {
    x == [] ||
    (ByteValid(b, p, x[0]);
     && !(p.state == SHeaderField && Drops(x[0]))
     && (ByteStep(b, p, x[0]).Accept? ==> NoDrop(b, ByteStep(b, p, x[0]).p, x[1..])))
  }

  lemma {:induction false} NoDropConcat(b: Bytes, p: Parser, x: Bytes, y: Bytes)
    requires Valid(b, p)
    ensures var r := Ref(b, p, x);
            NoDrop(b, p, x + y) <==> NoDrop(b, p, x) && (r.consumed == |x| ==> NoDrop(b, r.p, y))
    decreases |x|
  {
    hide ByteStep, Valid, Drops;
    if x == [] {
      assert x + y == y;
    } else {
      ByteValid(b, p, x[0]);
      assert (x + y)[0] == x[0] && (x + y)[1..] == x[1..] + y;
      if ByteStep(b, p, x[0]).Accept? {
        NoDropConcat(b, ByteStep(b, p, x[0]).p, x[1..], y);
      }
    }
  }

  // ---------------------------------------------------------------------------
  // The loop simulates the reference
  // ---------------------------------------------------------------------------

  /** Bytes behind the mark that no callback has reported yet. */
  function Pending(s: State, bytes: Bytes): seq<Event> {
    if bytes == [] then []
    else match s
      case SHeaderField => [HeaderField(bytes)]
      case SHeaderValue => [HeaderValue(bytes)]
      case SPartData => [PartData(bytes)]
      case _ => []
  }

  /** At the end of the chunk everything has been reported. */
  function PendingAt(s: State, buf: Bytes, mark: nat, i: nat): seq<Event>
    requires mark <= i <= |buf|
  {
    if i == |buf| then [] else Pending(s, buf[mark..i])
  }

  function DataEvent(s: State, bytes: Bytes): Event
    requires s == SHeaderField || s == SHeaderValue || s == SPartData
  {
    match s
    case SHeaderField => HeaderField(bytes)
    case SHeaderValue => HeaderValue(bytes)
    case SPartData => PartData(bytes)
  }

  /** Reporting later, together with what is pending, is as good as reporting at once. */
  lemma ReportLater(names: bool, s: State, bytes: Bytes, more: Bytes)
    requires s == SHeaderField || s == SHeaderValue || s == SPartData
    ensures Equiv(names, [DataEvent(s, bytes + more)], Pending(s, bytes) + [DataEvent(s, more)])
  {
    hide Equiv;
    if bytes == [] {
      assert bytes + more == more;
      EquivSame(names, [DataEvent(s, more)]);
      assert [] + [DataEvent(s, more)] == [DataEvent(s, more)];
    } else {
      var d, e := DataEvent(s, bytes), DataEvent(s, more);
      EquivJoin(names, d, e);
      EquivSym(names, [d, e], [Longer(d, e.bytes)]);
      assert [d] + [e] == [d, e];
    }
  }

  lemma EquivSym(names: bool, d: seq<Event>, e: seq<Event>)
    requires Equiv(names, d, e)
    ensures Equiv(names, e, d)
  {
    hide JoinAll, View;
  }

  /** A name that is pending does not show when names are not looked at. */
  lemma HiddenName(bytes: Bytes)
    ensures Equiv(false, [], Pending(SHeaderField, bytes))
  {
    if bytes != [] {
      ViewOne(false, HeaderField(bytes));
    }
  }

  /** The relation kept by one step that consumes byte `i`. */
  ghost predicate Reported(names: bool, before: seq<Event>, byteEvents: seq<Event>, events: seq<Event>,
                           after: seq<Event>) {
    Equiv(names, events + after, before + byteEvents)
  }

  lemma SameEvents(names: bool, events: seq<Event>)
    ensures Reported(names, [], events, events, [])
  {
    assert events + [] == [] + events;
    EquivSame(names, events + []);
  }

  lemma SliceSnoc(buf: Bytes, mark: nat, i: nat)
    requires mark <= i < |buf|
    ensures buf[mark..i + 1] == buf[mark..i] + [buf[i]] && buf[i..i] == [] && buf[i..i + 1] == [buf[i]]
  {
  }

  /** A step that adds byte `c` to the pending data, or reports it with them at the end of the chunk. */
  lemma Accumulates(names: bool, s: State, buf: Bytes, mark: nat, i: nat)
    requires s == SHeaderField || s == SHeaderValue || s == SPartData
    requires mark <= i < |buf|
    ensures Reported(names, Pending(s, buf[mark..i]), [DataEvent(s, [buf[i]])],
                     if i == |buf| - 1 then [DataEvent(s, buf[mark..i + 1])] else [],
                     PendingAt(s, buf, mark, i + 1))
  {
    hide Equiv;
    SliceSnoc(buf, mark, i);
    ReportLater(names, s, buf[mark..i], [buf[i]]);
    var d := DataEvent(s, buf[mark..i + 1]);
    assert [d] + [] == [d] == [] + [d];
  }

  /** A step that reports the pending data and adds nothing to them. */
  lemma Flushes(names: bool, s: State, bytes: Bytes)
    requires s == SHeaderField || s == SHeaderValue || s == SPartData
    ensures Reported(names, Pending(s, bytes), [DataEvent(s, [])], [DataEvent(s, bytes)], [])
  {
    hide Equiv;
    ReportLater(names, s, bytes, []);
    assert bytes + [] == bytes;
    assert [DataEvent(s, bytes)] + [] == [DataEvent(s, bytes)];
  }

  lemma FieldSim(names: bool, p: Parser, buf: Bytes, i: nat, mark: nat)
    requires p.state == SHeaderField && mark <= i < |buf|
    requires names && mark < i ==> !Drops(buf[i])
    ensures match FieldStep(p, buf, i, mark)
            case Stop(q) => FieldByte(p, buf[i]) == Refuse(q) && Equiv(names, [], Pending(SHeaderField, buf[mark..i]))
            case Go(q, advance, m, events) =>
              advance && m == mark && FieldByte(p, buf[i]).Accept? && FieldByte(p, buf[i]).p == q
              && Reported(names, Pending(SHeaderField, buf[mark..i]), FieldByte(p, buf[i]).events, events,
                 PendingAt(q.state, buf, m, i + 1))
  {
    hide Equiv;
    var c, bytes := buf[i], buf[mark..i];
    if Drops(c) {
      if names {
        assert bytes == [];
        EquivSame(names, []);
      } else {
        HiddenName(bytes);
      }
      var none, pending: seq<Event> := [], Pending(SHeaderField, bytes);
      assert none + none == none && pending + none == pending;
      assert Reported(names, pending, none, none, none);
    } else if c == COLON {
      Flushes(names, SHeaderField, bytes);
    } else {
      Accumulates(names, SHeaderField, buf, mark, i);
    }
  }

  lemma ValueSim(names: bool, p: Parser, buf: Bytes, i: nat, mark: nat)
    requires p.state == SHeaderValue && mark <= i < |buf|
    ensures var n, r := ValueStep(p, buf, i, mark), ValueByte(p, buf[i]);
            && n.advance && n.mark == mark && r.Accept? && r.p == n.p
            && Reported(names, Pending(SHeaderValue, buf[mark..i]), r.events, n.events,
               PendingAt(n.p.state, buf, n.mark, i + 1))
  {
    hide Equiv;
    if buf[i] == CR {
      Flushes(names, SHeaderValue, buf[mark..i]);
    } else {
      Accumulates(names, SHeaderValue, buf, mark, i);
    }
  }

  lemma DataSim(names: bool, b: Bytes, p: Parser, buf: Bytes, i: nat, mark: nat)
    requires Valid(b, p) && p.state == SPartData && mark <= i < |buf|
    ensures var n, r := DataStep(b, p, buf, i, mark), DataByte(p, buf[i]);
            && n.Go? && n.advance && n.mark <= i && r.Accept? && r.p == n.p
            && Reported(names, Pending(SPartData, buf[mark..i]), r.events, n.events,
               PendingAt(n.p.state, buf, n.mark, i + 1))
  {
    hide Equiv;
    if buf[i] == CR {
      Flushes(names, SPartData, buf[mark..i]);
    } else {
      Accumulates(names, SPartData, buf, mark, i);
    }
  }

  /** What one pass through the switch has to do with one byte of the reference. */
  ghost predicate StepSimulates(names: bool, b: Bytes, p: Parser, buf: Bytes, i: nat, mark: nat)
    requires Valid(b, p) && mark <= i < |buf|
  {
    var r := ByteStep(b, p, buf[i]);
    match StepAt(b, p, buf, i, mark)
    case Stop(q) => r == Refuse(q) && Equiv(names, [], PendingAt(p.state, buf, mark, i))
    case Go(q, advance, m, events) =>
      if advance then
        r.Accept? && r.p == q && m <= i
        && Reported(names, PendingAt(p.state, buf, mark, i), r.events, events, PendingAt(q.state, buf, m, i + 1))
      else
        m == i && q == p.(state := SPartData) && PendingAt(p.state, buf, mark, i) == []
        && r == Accept(DataByte(q, buf[i]).p, events + DataByte(q, buf[i]).events)
  }

  lemma HeaderStepSim(names: bool, b: Bytes, p: Parser, buf: Bytes, i: nat, mark: nat)
    requires Valid(b, p) && mark <= i < |buf|
    requires names ==> !(p.state == SHeaderField && Drops(buf[i]))
    requires p.state == SHeaderFieldStart || p.state == SHeaderField
             || p.state == SHeaderValueStart || p.state == SHeaderValue
    ensures StepSimulates(names, b, p, buf, i, mark)
  {
    hide Equiv, Reported, Valid, Drops;
    SliceSnoc(buf, mark, i);
    match p.state {
      case SHeaderFieldStart => FieldSim(names, p.(state := SHeaderField), buf, i, i);
      case SHeaderField => FieldSim(names, p, buf, i, mark);
      case SHeaderValueStart =>
        SameEvents(names, []);
        ValueSim(names, p.(state := SHeaderValue), buf, i, i);
      case SHeaderValue => ValueSim(names, p, buf, i, mark);
    }
  }

  lemma BodyStepSim(names: bool, b: Bytes, p: Parser, buf: Bytes, i: nat, mark: nat)
    requires Valid(b, p) && mark <= i < |buf|
    requires p.state == SPartDataStart || p.state == SPartData
             || p.state == SPartDataAlmostBoundary || p.state == SPartDataBoundary
    ensures StepSimulates(names, b, p, buf, i, mark)
  {
    hide Equiv, Reported;
    SliceSnoc(buf, mark, i);
    SameEvents(names, []);
    SameEvents(names, [PartDataEnd]);
    match p.state {
      case SPartDataStart =>
        var q := p.(state := SPartData);
        DataSim(names, b, q, buf, i, i);
        var n, r := DataStep(b, q, buf, i, i), DataByte(q, buf[i]);
        assert DataByte(p, buf[i]) == r;
        AfterHeaders(names, r.events, n.events, PendingAt(n.p.state, buf, n.mark, i + 1));
      case SPartData => DataSim(names, b, p, buf, i, mark);
      case SPartDataAlmostBoundary => assert p.look[..1] == [CR];
      case SPartDataBoundary =>
    }
  }

  lemma AfterHeaders(names: bool, byteEvents: seq<Event>, events: seq<Event>, after: seq<Event>)
    requires Reported(names, [], byteEvents, events, after)
    ensures Reported(names, [], [HeadersComplete] + byteEvents, [HeadersComplete] + events, after)
  {
    hide Equiv;
    EquivSame(names, [HeadersComplete]);
    EquivConcat(names, [HeadersComplete], [HeadersComplete], events + after, [] + byteEvents);
    assert [HeadersComplete] + (events + after) == [HeadersComplete] + events + after;
    assert [HeadersComplete] + ([] + byteEvents) == [] + ([HeadersComplete] + byteEvents);
  }

  lemma OtherStepSim(names: bool, b: Bytes, p: Parser, buf: Bytes, i: nat, mark: nat)
    requires Valid(b, p) && mark <= i < |buf|
    requires p.state == SStart || p.state == SStartBoundary
             || p.state == SHeadersAlmostDone || p.state == SHeaderValueAlmostDone
             || p.state == SPartDataAlmostEnd || p.state == SPartDataEnd
             || p.state == SPartDataFinalHyphen || p.state == SEnd
    ensures StepSimulates(names, b, p, buf, i, mark)
  {
    hide Equiv, Reported;
    EquivSame(names, []);
    SameEvents(names, []);
    SameEvents(names, [PartDataBegin]);
    SameEvents(names, [BodyEnd]);
  }

  lemma StepSim(names: bool, b: Bytes, p: Parser, buf: Bytes, i: nat, mark: nat)
    requires Valid(b, p) && mark <= i < |buf|
    requires names ==> !(p.state == SHeaderField && Drops(buf[i]))
    ensures StepSimulates(names, b, p, buf, i, mark)
  {
    hide StepSimulates, Valid, Drops;
    match p.state
    case SHeaderFieldStart => HeaderStepSim(names, b, p, buf, i, mark);
    case SHeaderField => HeaderStepSim(names, b, p, buf, i, mark);
    case SHeaderValueStart => HeaderStepSim(names, b, p, buf, i, mark);
    case SHeaderValue => HeaderStepSim(names, b, p, buf, i, mark);
    case SPartDataStart => BodyStepSim(names, b, p, buf, i, mark);
    case SPartData => BodyStepSim(names, b, p, buf, i, mark);
    case SPartDataAlmostBoundary => BodyStepSim(names, b, p, buf, i, mark);
    case SPartDataBoundary => BodyStepSim(names, b, p, buf, i, mark);
    case _ => OtherStepSim(names, b, p, buf, i, mark);
  }

  /** The loop from any position does what the reference does from there, once the pending bytes are
      counted in. */
  lemma {:induction false} LoopSim(names: bool, b: Bytes, p: Parser, buf: Bytes, i: nat, mark: nat)
    requires Valid(b, p) && mark <= i <= |buf|
    requires names ==> NoDrop(b, p, buf[i..])
    ensures var l, r := Loop(b, p, buf, i, mark), Ref(b, p, buf[i..]);
            && l.p == r.p && l.consumed == i + r.consumed
            && Equiv(names, l.events, PendingAt(p.state, buf, mark, i) + r.events)
    decreases |buf| - i, Rank(p.state)
  {
    hide Equiv, StepAt, ByteStep, Valid, Drops;
    if i == |buf| {
      EquivSame(names, []);
      assert buf[i..] == [];
    } else {
      var x := buf[i..];
      assert x[0] == buf[i] && x[1..] == buf[i + 1..];
      StepSim(names, b, p, buf, i, mark);
      StepValid(b, p, buf, i, mark);
      ByteValid(b, p, buf[i]);
      var before := PendingAt(p.state, buf, mark, i);
      match StepAt(b, p, buf, i, mark)
      case Stop(q) =>
        assert before + [] == before;
      case Go(q, advance, m, events) =>
        if advance {
          LoopSim(names, b, q, buf, i + 1, m);
          var l, r := Loop(b, q, buf, i + 1, m), Ref(b, q, x[1..]);
          ChainEvents(names, before, ByteStep(b, p, buf[i]).events, events, PendingAt(q.state, buf, m, i + 1),
              l.events, r.events);
        } else {
          StepBack(b, p, q, x, events, names);
          LoopSim(names, b, q, buf, i, m);
          var l, r := Loop(b, q, buf, i, m), Ref(b, q, x);
          assert PendingAt(q.state, buf, i, i) == [] by { assert buf[i..i] == []; }
          assert [] + r.events == r.events && before + (events + r.events) == events + r.events;
          EquivSame(names, events);
          EquivConcat(names, events, events, l.events, r.events);
        }
    }
  }

  lemma ChainEvents(names: bool, before: seq<Event>, byteEvents: seq<Event>, events: seq<Event>, after: seq<Event>,
                    l: seq<Event>, r: seq<Event>)
    requires Reported(names, before, byteEvents, events, after) && Equiv(names, l, after + r)
    ensures Equiv(names, events + l, before + (byteEvents + r))
  {
    hide Equiv;
    assert Equiv(names, events + after, before + byteEvents);
    EquivSame(names, events);
    EquivSame(names, r);
    EquivConcat(names, events, events, l, after + r);
    EquivConcat(names, events + after, before + byteEvents, r, r);
    assert events + (after + r) == events + after + r;
    assert before + byteEvents + r == before + (byteEvents + r);
    EquivTrans(names, events + l, events + (after + r), before + (byteEvents + r));
  }

  lemma DataIsByte(b: Bytes, q: Parser, c: Byte)
    requires Valid(b, q) && q.state == SPartData
    ensures |q.look| > 0 && ByteStep(b, q, c) == DataByte(q, c) && DataByte(q, c).Accept?
  {
  }

  /** Stepping back: the reference reports the held bytes and takes the byte as part data at once. */
  lemma StepBack(b: Bytes, p: Parser, q: Parser, x: Bytes, events: seq<Event>, names: bool)
    requires Valid(b, p) && Valid(b, q) && x != [] && q.state == SPartData
    requires ByteStep(b, p, x[0]) == Accept(DataByte(q, x[0]).p, events + DataByte(q, x[0]).events)
    ensures var r := Ref(b, q, x);
            Ref(b, p, x) == Run(r.p, r.consumed, events + r.events)
    ensures p.state != SHeaderField && NoDrop(b, p, x) ==> NoDrop(b, q, x)
  {
    hide Drops, ByteStep, DataByte, Valid;
    DataIsByte(b, q, x[0]);
    ByteValid(b, p, x[0]);
    ByteValid(b, q, x[0]);
    var n := DataByte(q, x[0]);
    var r := Ref(b, n.p, x[1..]);
    assert events + n.events + r.events == events + (n.events + r.events);
  }

  // ---------------------------------------------------------------------------
  // Feeding chunks
  // ---------------------------------------------------------------------------

  /** Successive calls of execute; a call that does not accept its whole chunk ends the feeding. */
  function Feed(b: Bytes, p: Parser, chunks: seq<Bytes>): (r: Run)
    requires Valid(b, p)
    ensures Valid(b, r.p) && r.consumed <= |Flatten(chunks)|
    decreases |chunks|
  {
    if chunks == [] then Run(p, 0, [])
    else
      var r := Execute(b, p, chunks[0]);
      if r.consumed < |chunks[0]| then r
      else
        var s := Feed(b, r.p, chunks[1..]);
        Run(s.p, r.consumed + s.consumed, r.events + s.events)
  }

  /** However the input is cut, feeding it is the reference run. */
  lemma {:induction false} FeedIsRef(names: bool, b: Bytes, p: Parser, chunks: seq<Bytes>)
    requires Valid(b, p) && (names ==> NoDrop(b, p, Flatten(chunks)))
    ensures var f, r := Feed(b, p, chunks), Ref(b, p, Flatten(chunks));
            f.p == r.p && f.consumed == r.consumed && Equiv(names, f.events, r.events)
    decreases |chunks|
  {
    hide Equiv, Loop, Valid;
    if chunks == [] {
      EquivSame(names, []);
    } else {
      var c, rest := chunks[0], Flatten(chunks[1..]);
      RefConcat(b, p, c, rest);
      NoDropConcat(b, p, c, rest);
      assert c[0..] == c && c[0..0] == [];
      LoopSim(names, b, p, c, 0, 0);
      var l, r := Execute(b, p, c), Ref(b, p, c);
      assert PendingAt(p.state, c, 0, 0) == [] && [] + r.events == r.events;
      if r.consumed == |c| {
        FeedIsRef(names, b, r.p, chunks[1..]);
        EquivConcat(names, l.events, r.events, Feed(b, r.p, chunks[1..]).events, Ref(b, r.p, rest).events);
      }
    }
  }

  /** Chunk independence, for every input: the same final state, the same number of bytes accepted and
      the same callbacks apart from header names, up to joining.  With the names left out the values of
      neighbouring headers join too; that they are divided alike is said by MultipartValues. */
  lemma ChunkIndependence(b: Bytes, p: Parser, chunks: seq<Bytes>, chunks': seq<Bytes>)
    requires Valid(b, p) && Flatten(chunks) == Flatten(chunks')
    ensures var f, g := Feed(b, p, chunks), Feed(b, p, chunks');
            f.p == g.p && f.consumed == g.consumed && Normal(View(false, f.events)) == Normal(View(false, g.events))
  {
    hide Feed, Ref, View, Normal;
    FeedIsRef(false, b, p, chunks);
    FeedIsRef(false, b, p, chunks');
    var f, g, r := Feed(b, p, chunks), Feed(b, p, chunks'), Ref(b, p, Flatten(chunks));
    EquivNormal(false, f.events, r.events);
    EquivNormal(false, g.events, r.events);
  }

  // ---------------------------------------------------------------------------
  // What joining preserves
  // ---------------------------------------------------------------------------

  /** The callbacks without data, in order. */
  function Notifications(events: seq<Event>): seq<Event> {
    if events == [] then []
    else (if events[0].HeaderField? || events[0].HeaderValue? || events[0].PartData? then [] else [events[0]])
         + Notifications(events[1..])
  }

  function LastExtended(bodies: seq<Bytes>, more: Bytes): seq<Bytes> {
    if bodies == [] then [] else bodies[..|bodies| - 1] + [bodies[|bodies| - 1] + more]
  }

  function BodiesAfter(bodies: seq<Bytes>, e: Event): seq<Bytes> {
    match e
    case PartDataBegin => bodies + [[]]
    case PartData(x) => LastExtended(bodies, x)
    case _ => bodies
  }

  function BodiesFrom(bodies: seq<Bytes>, events: seq<Event>): seq<Bytes>
    decreases |events|
  {
    if events == [] then bodies else BodiesFrom(BodiesAfter(bodies, events[0]), events[1..])
  }

  /** For each part, everything reported as its data, concatenated. */
  function Bodies(events: seq<Event>): seq<Bytes> {
    BodiesFrom([], events)
  }

  function FieldBytes(events: seq<Event>): nat {
    if events == [] then 0
    else (if events[0].HeaderField? then |events[0].bytes| else 0) + FieldBytes(events[1..])
  }

  lemma {:induction false} NotificationsConcat(d: seq<Event>, e: seq<Event>)
    ensures Notifications(d + e) == Notifications(d) + Notifications(e)
    decreases |d|
  {
    if d == [] {
      assert d + e == e;
    } else {
      assert (d + e)[1..] == d[1..] + e;
      NotificationsConcat(d[1..], e);
    }
  }

  lemma {:induction false} FieldBytesConcat(d: seq<Event>, e: seq<Event>)
    ensures FieldBytes(d + e) == FieldBytes(d) + FieldBytes(e)
    decreases |d|
  {
    if d == [] {
      assert d + e == e;
    } else {
      assert (d + e)[1..] == d[1..] + e;
      FieldBytesConcat(d[1..], e);
    }
  }

  lemma {:induction false} BodiesConcat(bodies: seq<Bytes>, d: seq<Event>, e: seq<Event>)
    ensures BodiesFrom(bodies, d + e) == BodiesFrom(BodiesFrom(bodies, d), e)
    decreases |d|
  {
    if d == [] {
      assert d + e == e;
    } else {
      assert (d + e)[1..] == d[1..] + e;
      BodiesConcat(BodiesAfter(bodies, d[0]), d[1..], e);
    }
  }

  lemma OneEvent(e: Event)
    ensures Notifications([e]) == if e.HeaderField? || e.HeaderValue? || e.PartData? then [] else [e]
    ensures FieldBytes([e]) == if e.HeaderField? then |e.bytes| else 0
  {
    assert [e][1..] == [];
  }

  lemma OneBody(bodies: seq<Bytes>, e: Event)
    ensures BodiesFrom(bodies, [e]) == BodiesAfter(bodies, e)
  {
    assert [e][1..] == [];
  }

  lemma ExtendTwice(bodies: seq<Bytes>, x: Bytes, y: Bytes)
    ensures LastExtended(LastExtended(bodies, x), y) == LastExtended(bodies, x + y)
  {
    if bodies != [] {
      var last := bodies[|bodies| - 1];
      assert last + x + y == last + (x + y);
    }
  }

  /** Reporting two joinable events after `init`, or one longer one. */
  lemma JoinKeepsBodies(init: seq<Event>, d: Event, e: Event)
    requires Joinable(d, e)
    ensures Bodies(init + [Longer(d, e.bytes)]) == Bodies(init + [d] + [e])
  {
    var j, bodies := Longer(d, e.bytes), Bodies(init);
    BodiesConcat([], init, [d]);
    BodiesConcat([], init + [d], [e]);
    BodiesConcat([], init, [j]);
    hide BodiesFrom, LastExtended;
    OneBody(bodies, d);
    OneBody(bodies, j);
    OneBody(Bodies(init + [d]), e);
    if d.PartData? { ExtendTwice(bodies, d.bytes, e.bytes); }
  }

  lemma JoinKeepsNames(init: seq<Event>, d: Event, e: Event)
    requires Joinable(d, e)
    ensures Notifications(init + [Longer(d, e.bytes)]) == Notifications(init + [d] + [e])
    ensures FieldBytes(init + [Longer(d, e.bytes)]) == FieldBytes(init + [d] + [e])
  {
    var j := Longer(d, e.bytes);
    NotificationsConcat(init, [d]); NotificationsConcat(init + [d], [e]); NotificationsConcat(init, [j]);
    FieldBytesConcat(init, [d]); FieldBytesConcat(init + [d], [e]); FieldBytesConcat(init, [j]);
    hide Notifications, FieldBytes;
    OneEvent(d); OneEvent(e); OneEvent(j);
  }

  lemma JoinKeeps(t: seq<Event>, e: Event)
    ensures Notifications(Join(t, e)) == Notifications(t + [e])
    ensures FieldBytes(Join(t, e)) == FieldBytes(t + [e])
    ensures Bodies(Join(t, e)) == Bodies(t + [e])
  {
    hide Notifications, FieldBytes, Bodies;
    if t != [] && Joinable(t[|t| - 1], e) {
      var init, last := t[..|t| - 1], t[|t| - 1];
      assert t == init + [last];
      JoinKeepsBodies(init, last, e);
      JoinKeepsNames(init, last, e);
    }
  }

  lemma {:induction false} JoinAllKeeps(t: seq<Event>, events: seq<Event>)
    ensures Notifications(JoinAll(t, events)) == Notifications(t + events)
    ensures FieldBytes(JoinAll(t, events)) == FieldBytes(t + events)
    ensures Bodies(JoinAll(t, events)) == Bodies(t + events)
    decreases |events|
  {
    hide Notifications, FieldBytes, Bodies, Join;
    if events == [] {
      assert t + events == t;
    } else {
      var e, rest := events[0], events[1..];
      JoinKeeps(t, e);
      JoinAllKeeps(Join(t, e), rest);
      assert t + events == t + [e] + rest;
      NotificationsConcat(Join(t, e), rest); NotificationsConcat(t + [e], rest);
      FieldBytesConcat(Join(t, e), rest); FieldBytesConcat(t + [e], rest);
      BodiesSplit(Join(t, e), rest); BodiesSplit(t + [e], rest);
    }
  }

  lemma BodiesSplit(d: seq<Event>, e: seq<Event>)
    ensures Bodies(d + e) == BodiesFrom(Bodies(d), e)
  {
    BodiesConcat([], d, e);
  }

  lemma NormalKeeps(events: seq<Event>)
    ensures Notifications(Normal(events)) == Notifications(events)
    ensures FieldBytes(Normal(events)) == FieldBytes(events)
    ensures Bodies(Normal(events)) == Bodies(events)
  {
    JoinAllKeeps([], events);
    assert [] + events == events;
  }

  lemma {:induction false} ViewKeeps(bodies: seq<Bytes>, events: seq<Event>)
    ensures Notifications(View(false, events)) == Notifications(events)
    ensures BodiesFrom(bodies, View(false, events)) == BodiesFrom(bodies, events)
    decreases |events|
  {
    if events != [] {
      ViewKeeps(BodiesAfter(bodies, events[0]), events[1..]);
      if !events[0].HeaderField? {
        assert ([events[0]] + View(false, events[1..]))[1..] == View(false, events[1..]);
      }
    }
  }

  /** In plain terms: any two ways of cutting the same input give the same notifications in the same
      order, the same data for every part, the same number of accepted bytes and the same state. */
  lemma SameNotificationsAndBodies(b: Bytes, p: Parser, chunks: seq<Bytes>, chunks': seq<Bytes>)
    requires Valid(b, p) && Flatten(chunks) == Flatten(chunks')
    ensures var f, g := Feed(b, p, chunks), Feed(b, p, chunks');
            && Notifications(f.events) == Notifications(g.events) && Bodies(f.events) == Bodies(g.events)
            && f.consumed == g.consumed && f.p == g.p
  {
    hide Feed, View, Normal, Notifications, BodiesFrom;
    var f, g := Feed(b, p, chunks), Feed(b, p, chunks');
    ChunkIndependence(b, p, chunks, chunks');
    NormalKeeps(View(false, f.events));
    NormalKeeps(View(false, g.events));
    ViewKeeps([], f.events);
    ViewKeeps([], g.events);
  }

  // ---------------------------------------------------------------------------
  // Header names: exactly when they too are independent of the cuts
  // ---------------------------------------------------------------------------

  lemma EquivFieldBytes(d: seq<Event>, e: seq<Event>)
    requires Equiv(true, d, e)
    ensures FieldBytes(d) == FieldBytes(e)
  {
    hide FieldBytes, View, Normal;
    EquivNormal(true, d, e);
    ViewAll(d);
    ViewAll(e);
    NormalKeeps(d);
    NormalKeeps(e);
  }

  function LoopNames(b: Bytes, p: Parser, buf: Bytes, i: nat, mark: nat): nat
    requires Valid(b, p) && mark <= i <= |buf|
  {
    FieldBytes(Loop(b, p, buf, i, mark).events)
  }

  function RefNames(b: Bytes, p: Parser, x: Bytes): nat
    requires Valid(b, p)
  {
    FieldBytes(Ref(b, p, x).events)
  }

  lemma LoopNamesStep(b: Bytes, p: Parser, buf: Bytes, i: nat, mark: nat)
    requires Valid(b, p) && mark <= i < |buf|
    ensures match StepAt(b, p, buf, i, mark)
            case Stop(_) => LoopNames(b, p, buf, i, mark) == 0
            case Go(q, advance, m, events) =>
              Valid(b, q) && m <= i &&
              LoopNames(b, p, buf, i, mark) ==
                FieldBytes(events) + LoopNames(b, q, buf, if advance then i + 1 else i, m)
  {
    StepValid(b, p, buf, i, mark);
    NoFieldBytes();
    hide StepAt, Valid, FieldBytes;
    match StepAt(b, p, buf, i, mark)
    case Stop(_) =>
    case Go(q, advance, m, events) => FieldBytesConcat(events, Loop(b, q, buf, if advance then i + 1 else i, m).events);
  }

  lemma RefNamesStep(b: Bytes, p: Parser, x: Bytes)
    requires Valid(b, p) && x != []
    ensures match ByteStep(b, p, x[0])
            case Refuse(_) => RefNames(b, p, x) == 0
            case Accept(q, events) => Valid(b, q) && RefNames(b, p, x) == FieldBytes(events) + RefNames(b, q, x[1..])
  {
    ByteValid(b, p, x[0]);
    NoFieldBytes();
    hide ByteStep, Valid, FieldBytes;
    match ByteStep(b, p, x[0])
    case Refuse(_) =>
    case Accept(q, events) => FieldBytesConcat(events, Ref(b, q, x[1..]).events);
  }

  lemma ReportedNames(before: seq<Event>, byteEvents: seq<Event>, events: seq<Event>, after: seq<Event>)
    requires Reported(true, before, byteEvents, events, after)
    ensures FieldBytes(events) + FieldBytes(after) == FieldBytes(before) + FieldBytes(byteEvents)
  {
    hide Equiv, FieldBytes;
    assert Equiv(true, events + after, before + byteEvents);
    EquivFieldBytes(events + after, before + byteEvents);
    FieldBytesConcat(events, after);
    FieldBytesConcat(before, byteEvents);
  }

  /** One step of the loss argument: bytes counted by the loop and bytes counted by the reference. */
  ghost predicate LosesNames(b: Bytes, p: Parser, buf: Bytes, i: nat, mark: nat)
    requires Valid(b, p) && mark <= i <= |buf|
  {
    var l, all := LoopNames(b, p, buf, i, mark),
        FieldBytes(PendingAt(p.state, buf, mark, i)) + RefNames(b, p, buf[i..]);
    l <= all && (!NoDrop(b, p, buf[i..]) ==> l < all)
  }

  /** Fed in one piece, a name that breaks off is never reported at all. */
  lemma {:induction false} LoopLosesNames(b: Bytes, p: Parser, buf: Bytes, i: nat, mark: nat)
    requires Valid(b, p) && mark <= i <= |buf| && (p.state == SHeaderField ==> mark < i)
    ensures LosesNames(b, p, buf, i, mark)
    decreases |buf| - i, Rank(p.state)
  {
    if i == |buf| {
      assert buf[i..] == [];
    } else {
      StepValid(b, p, buf, i, mark);
      NameMark(b, p, buf, i, mark);
      if StepAt(b, p, buf, i, mark).Go? {
        var n := StepAt(b, p, buf, i, mark);
        LoopLosesNames(b, n.p, buf, if n.advance then i + 1 else i, n.mark);
      }
      hide Valid, StepAt, Rank, LosesNames, Drops;
      if p.state == SHeaderField && Drops(buf[i]) {
        LosesDropped(b, p, buf, i, mark);
      } else if StepAt(b, p, buf, i, mark).Go? && !StepAt(b, p, buf, i, mark).advance {
        LosesBack(b, p, buf, i, mark);
      } else {
        LosesStep(b, p, buf, i, mark);
      }
    }
  }

  lemma LosesDropped(b: Bytes, p: Parser, buf: Bytes, i: nat, mark: nat)
    requires Valid(b, p) && mark < i < |buf| && p.state == SHeaderField && Drops(buf[i])
    requires var n := StepAt(b, p, buf, i, mark); n.Go? ==>
              Valid(b, n.p) && n.mark <= i && n.advance && LosesNames(b, n.p, buf, i + 1, n.mark)
    ensures LosesNames(b, p, buf, i, mark)
  {
    var x := buf[i..];
    assert x[0] == buf[i] && x[1..] == buf[i + 1..];
    DroppedName(b, p, buf, i, mark);
    LoopNamesStep(b, p, buf, i, mark);
    RefNamesStep(b, p, x);
    NothingPending(buf, mark, i + 1);
    hide FieldBytes, StepAt, ByteStep, Valid, Drops, NoDrop, LoopNames, RefNames;
  }

  lemma LosesBack(b: Bytes, p: Parser, buf: Bytes, i: nat, mark: nat)
    requires Valid(b, p) && mark <= i < |buf| && !(p.state == SHeaderField && Drops(buf[i]))
    requires var n := StepAt(b, p, buf, i, mark);
             n.Go? && !n.advance && n.p.state == SPartData && p.state != SHeaderField
             && Valid(b, n.p) && n.mark <= i && LosesNames(b, n.p, buf, i, n.mark)
    ensures LosesNames(b, p, buf, i, mark)
  {
    var x, n := buf[i..], StepAt(b, p, buf, i, mark);
    assert x[0] == buf[i];
    StepSim(true, b, p, buf, i, mark);
    StepBack(b, p, n.p, x, n.events, true);
    BackNoDrop(b, p, n.p, x, n.events);
    LoopNamesStep(b, p, buf, i, mark);
    hide FieldBytes, StepAt, ByteStep, Valid, Drops, NoDrop, LoopNames, Loop;
    FieldBytesConcat(n.events, Ref(b, n.p, x).events);
    assert PendingAt(n.p.state, buf, i, i) == [] by { assert buf[i..i] == []; }
    NoFieldBytes();
  }

  lemma LosesStep(b: Bytes, p: Parser, buf: Bytes, i: nat, mark: nat)
    requires Valid(b, p) && mark <= i < |buf| && !(p.state == SHeaderField && Drops(buf[i]))
    requires var n := StepAt(b, p, buf, i, mark);
             n.Go? ==> n.advance && Valid(b, n.p) && n.mark <= i && LosesNames(b, n.p, buf, i + 1, n.mark)
    ensures LosesNames(b, p, buf, i, mark)
  {
    var x, n := buf[i..], StepAt(b, p, buf, i, mark);
    assert x[0] == buf[i] && x[1..] == buf[i + 1..];
    StepSim(true, b, p, buf, i, mark);
    LoopNamesStep(b, p, buf, i, mark);
    RefNamesStep(b, p, x);
    var before := PendingAt(p.state, buf, mark, i);
    NoFieldBytes();
    hide FieldBytes, StepAt, ByteStep, Valid, Drops, Equiv, Reported, LoopNames, RefNames, PendingAt;
    if n.Go? {
      ReportedNames(before, ByteStep(b, p, buf[i]).events, n.events, PendingAt(n.p.state, buf, n.mark, i + 1));
    } else {
      EquivFieldBytes([], before);
    }
  }

  lemma NoFieldBytes()
    ensures FieldBytes([]) == 0
  {
  }

  lemma NothingPending(buf: Bytes, mark: nat, i: nat)
    requires mark <= i <= |buf|
    ensures PendingAt(SHeadersAlmostDone, buf, mark, i) == [] && FieldBytes([]) == 0
  {
  }

  lemma NameMark(b: Bytes, p: Parser, buf: Bytes, i: nat, mark: nat)
    requires Valid(b, p) && mark <= i < |buf|
    ensures var n := StepAt(b, p, buf, i, mark); n.Go? && n.advance && n.p.state == SHeaderField ==> n.mark < i + 1
    ensures var n := StepAt(b, p, buf, i, mark); n.Go? && !n.advance ==>
              n.p.state == SPartData && p.state != SHeaderField
  {
  }

  lemma DroppedName(b: Bytes, p: Parser, buf: Bytes, i: nat, mark: nat)
    requires Valid(b, p) && mark < i < |buf| && p.state == SHeaderField && Drops(buf[i])
    ensures FieldBytes(PendingAt(p.state, buf, mark, i)) > 0 && FieldBytes([]) == 0
    ensures var q := p.(state := SHeadersAlmostDone);
            Valid(b, q) &&
            if buf[i] == CR then StepAt(b, p, buf, i, mark) == Go(q, true, mark, []) &&
                ByteStep(b, p, buf[i]) == Accept(q, [])
            else StepAt(b, p, buf, i, mark) == Stop(p) && ByteStep(b, p, buf[i]) == Refuse(p)
  {
    OneEvent(HeaderField(buf[mark..i]));
  }

  /** A step back changes nothing about dropped names. */
  lemma BackNoDrop(b: Bytes, p: Parser, q: Parser, x: Bytes, events: seq<Event>)
    requires Valid(b, p) && Valid(b, q) && x != [] && q.state == SPartData && p.state != SHeaderField
    requires ByteStep(b, p, x[0]) == Accept(DataByte(q, x[0]).p, events + DataByte(q, x[0]).events)
    ensures NoDrop(b, p, x) == NoDrop(b, q, x)
  {
    hide Drops, ByteStep, DataByte, Valid;
    DataIsByte(b, q, x[0]);
  }

  /** Every byte a chunk of its own. */
  function Singles(x: Bytes): (r: seq<Bytes>)
    ensures Flatten(r) == x
  {
    if x == [] then [] else [[x[0]]] + Singles(x[1..])
  }

  /** Fed one byte at a time, the parser makes exactly the callbacks of the reference. */
  lemma SingleByte(b: Bytes, p: Parser, c: Byte)
    requires Valid(b, p)
    ensures Execute(b, p, [c]) == match ByteStep(b, p, c)
                                  case Refuse(q) => Run(q, 0, [])
                                  case Accept(q, events) => Run(q, 1, events)
  {
    var buf := [c];
    assert buf[0..1] == [c] && buf[0..0] == [];
    StepValid(b, p, buf, 0, 0);
    match StepAt(b, p, buf, 0, 0)
    case Stop(q) =>
    case Go(q, advance, m, events) =>
      if advance {
        assert events + [] == events;
        assert Loop(b, q, buf, 1, m) == Run(q, 1, []);
      } else {
        SingleDataByte(b, q, c);
        BodyStepSim(false, b, p, buf, 0, 0);
      }
  }

  lemma SingleDataByte(b: Bytes, q: Parser, c: Byte)
    requires Valid(b, q) && q.state == SPartData
    ensures Loop(b, q, [c], 0, 0) == Run(DataByte(q, c).p, 1, DataByte(q, c).events)
  {
    var buf := [c];
    assert buf[0..1] == [c] && buf[0..0] == [];
    StepValid(b, q, buf, 0, 0);
    var n := StepAt(b, q, buf, 0, 0);
    assert Loop(b, n.p, buf, 1, n.mark) == Run(n.p, 1, []);
    assert n.events + [] == n.events;
  }

  lemma {:induction false} SinglesAreRef(b: Bytes, p: Parser, x: Bytes)
    requires Valid(b, p)
    ensures Feed(b, p, Singles(x)) == Ref(b, p, x)
    decreases |x|
  {
    if x != [] {
      SingleByte(b, p, x[0]);
      ByteValid(b, p, x[0]);
      hide ByteStep, Valid, Execute;
      assert Singles(x)[0] == [x[0]] && Singles(x)[1..] == Singles(x[1..]);
      if ByteStep(b, p, x[0]).Accept? {
        SinglesAreRef(b, ByteStep(b, p, x[0]).p, x[1..]);
      }
    }
  }

  /** All ways of cutting `x` give the same trace up to joining, header names included. */
  ghost predicate NamesIndependent(b: Bytes, p: Parser, x: Bytes)
    requires Valid(b, p)
  {
    forall chunks: seq<Bytes>, chunks': seq<Bytes> :: Flatten(chunks) == x && Flatten(chunks') == x ==>
      Normal(Feed(b, p, chunks).events) == Normal(Feed(b, p, chunks').events)
  }

  lemma NamesOutsideName(b: Bytes, p: Parser, x: Bytes)
    requires Valid(b, p) && p.state != SHeaderField
    ensures NamesIndependent(b, p, x) <==> NoDrop(b, p, x)
  {
    hide Valid, Normal;
    if NoDrop(b, p, x) {
      forall chunks: seq<Bytes>, chunks': seq<Bytes> | Flatten(chunks) == x && Flatten(chunks') == x
        ensures Normal(Feed(b, p, chunks).events) == Normal(Feed(b, p, chunks').events)
      {
        SameNormal(b, p, chunks, x);
        SameNormal(b, p, chunks', x);
      }
    } else {
      var whole := [x];
      assert Flatten(whole) == x;
      assert x[0..] == x;
      FeedOne(b, p, x);
      SinglesAreRef(b, p, x);
      LoopLosesNames(b, p, x, 0, 0);
      assert PendingAt(p.state, x, 0, 0) == [] by { assert x[0..0] == []; }
      NoFieldBytes();
      NormalKeeps(Feed(b, p, whole).events);
      NormalKeeps(Feed(b, p, Singles(x)).events);
    }
  }

  /** A parser resumed inside a name: as far as the rest of the input is concerned, it begins one. */
  function Entered(p: Parser): Parser {
    if p.state == SHeaderField then p.(state := SHeaderFieldStart) else p
  }

  lemma EnteredExecutes(b: Bytes, p: Parser, x: Bytes)
    requires Valid(b, p) && x != []
    ensures Valid(b, Entered(p)) && Execute(b, p, x) == Execute(b, Entered(p), x)
  {
    if p.state == SHeaderField {
      assert StepAt(b, p, x, 0, 0) == StepAt(b, Entered(p), x, 0, 0);
    }
  }

  lemma {:induction false} EnteredFeeds(b: Bytes, p: Parser, chunks: seq<Bytes>)
    requires Valid(b, p)
    ensures Valid(b, Entered(p)) && Feed(b, p, chunks).events == Feed(b, Entered(p), chunks).events
    decreases |chunks|
  {
    if chunks != [] {
      if chunks[0] == [] {
        EnteredFeeds(b, p, chunks[1..]);
      } else {
        EnteredExecutes(b, p, chunks[0]);
        hide Execute, Valid, Entered;
      }
    }
  }

  /** For every parser and every input: header names do not depend on the cuts if and only if no header
      line breaks off inside a name that the input has begun or gone on with. */
  lemma NamesIndependentIff(b: Bytes, p: Parser, x: Bytes)
    requires Valid(b, p)
    ensures Valid(b, Entered(p)) && (NamesIndependent(b, p, x) <==> NoDrop(b, Entered(p), x))
  {
    var q := Entered(p);
    assert q.state != SHeaderField;
    forall chunks: seq<Bytes> ensures Valid(b, q) && Feed(b, p, chunks).events == Feed(b, q, chunks).events {
      EnteredFeeds(b, p, chunks);
    }
    hide Valid, Feed, NoDrop, Entered, Normal;
    NamesOutsideName(b, q, x);
  }

  /** For instance the line "a" CR: in one piece the name is never reported, byte by byte it is. */
  lemma BrokenNameDependsOnCuts(b: Bytes, p: Parser)
    requires Valid(b, p) && p.state == SHeaderFieldStart
    ensures !NamesIndependent(b, p, [97, CR])
  {
    var x: Bytes := [97, CR];
    assert ByteStep(b, p, 97) == Accept(p.(state := SHeaderField), [HeaderField([97])]);
    assert x[1..] == [CR];
    ByteValid(b, p, 97);
    assert !NoDrop(b, p.(state := SHeaderField), [CR]);
    NamesIndependentIff(b, p, x);
  }

  lemma FeedOne(b: Bytes, p: Parser, x: Bytes)
    requires Valid(b, p)
    ensures FieldBytes(Feed(b, p, [x]).events) == LoopNames(b, p, x, 0, 0)
  {
    hide Valid, Loop, FieldBytes;
    assert [x][1..] == [];
    var r := Execute(b, p, x);
    assert r.events + [] == r.events;
  }

  lemma SameNormal(b: Bytes, p: Parser, chunks: seq<Bytes>, x: Bytes)
    requires Valid(b, p) && Flatten(chunks) == x && NoDrop(b, p, x)
    ensures Normal(Feed(b, p, chunks).events) == Normal(Ref(b, p, x).events)
  {
    hide Valid, Feed, Ref, Normal, View;
    FeedIsRef(true, b, p, chunks);
    EquivNormal(true, Feed(b, p, chunks).events, Ref(b, p, x).events);
    ViewAll(Feed(b, p, chunks).events);
    ViewAll(Ref(b, p, x).events);
  }
}
