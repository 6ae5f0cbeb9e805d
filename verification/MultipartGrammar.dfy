/**
 The shape of every trace: a prefix of
   (part_data_begin (field+ value+)* field* headers_complete part_data* part_data_end)+ body_end
 where field and value are header callbacks.
 */
module MultipartGrammar {
  import opened Prelude
  import opened Multipart
  import opened MultipartChunks

  /** Where in the grammar a trace has got to. */
  datatype Place = BeforeParts | NoHeader | InField | InValue | InBody | AfterPart | Done

  function PlaceStep(g: Place, e: Event): Option<Place> {
    match e
    case PartDataBegin => if g == BeforeParts || g == AfterPart then Some(NoHeader) else None
    case HeaderField(_) => if g == NoHeader || g == InField || g == InValue then Some(InField) else None
    case HeaderValue(_) => if g == InField || g == InValue then Some(InValue) else None
    case HeadersComplete => if g == NoHeader || g == InField || g == InValue then Some(InBody) else None
    case PartData(_) => if g == InBody then Some(InBody) else None
    case PartDataEnd => if g == InBody then Some(AfterPart) else None
    case BodyEnd => if g == AfterPart then Some(Done) else None
  }

  function Walk(g: Place, events: seq<Event>): Option<Place>
    decreases |events|
  {
    if events == [] then Some(g)
    else match PlaceStep(g, events[0])
      case None => None
      case Some(h) => Walk(h, events[1..])
  }

  /** The complete traces. */
  predicate Sentence(events: seq<Event>) {
    Walk(BeforeParts, events) == Some(Done)
  }

  lemma {:induction false} WalkConcat(g: Place, d: seq<Event>, e: seq<Event>)
    ensures Walk(g, d + e) == if Walk(g, d).None? then None else Walk(Walk(g, d).value, e)
    decreases |d|
  {
    if d == [] {
      assert d + e == e;
    } else {
      assert (d + e)[1..] == d[1..] + e;
      if PlaceStep(g, d[0]).Some? {
        WalkConcat(PlaceStep(g, d[0]).value, d[1..], e);
      }
    }
  }

  /** Every place can still be completed, so a trace that walks is a prefix of a complete one. */
  function Completion(g: Place): seq<Event> {
    match g
    case BeforeParts => [PartDataBegin, HeadersComplete, PartDataEnd, BodyEnd]
    case NoHeader => [HeadersComplete, PartDataEnd, BodyEnd]
    case InField => [HeadersComplete, PartDataEnd, BodyEnd]
    case InValue => [HeadersComplete, PartDataEnd, BodyEnd]
    case InBody => [PartDataEnd, BodyEnd]
    case AfterPart => [BodyEnd]
    case Done => []
  }

  lemma CompletionWalks(g: Place)
    ensures Walk(g, Completion(g)) == Some(Done)
  {
    var x, y, z := [BodyEnd], [PartDataEnd, BodyEnd], [HeadersComplete, PartDataEnd, BodyEnd];
    assert x[1..] == [] && y[1..] == x && z[1..] == y && Completion(BeforeParts)[1..] == z;
    assert Walk(AfterPart, x) == Some(Done);
    assert Walk(InBody, y) == Some(Done);
    assert Walk(NoHeader, z) == Some(Done) && Walk(InField, z) == Some(Done) && Walk(InValue, z) == Some(Done);
  }

  // ---------------------------------------------------------------------------
  // The parser's state knows its place
  // ---------------------------------------------------------------------------

  predicate Fits(s: State, g: Place) {
    match s
    case SStart => g == BeforeParts
    case SStartBoundary => g == BeforeParts
    case SHeaderFieldStart => g == NoHeader || g == InValue
    case SHeaderField => g == NoHeader || g == InField || g == InValue
    case SHeadersAlmostDone => g == NoHeader || g == InField || g == InValue
    case SHeaderValueStart => g == InField
    case SHeaderValue => g == InField || g == InValue
    case SHeaderValueAlmostDone => g == InValue
    case SPartDataStart => g == NoHeader || g == InField || g == InValue
    case SPartData => g == InBody
    case SPartDataAlmostBoundary => g == InBody
    case SPartDataBoundary => g == InBody
    case SPartDataAlmostEnd => g == AfterPart
    case SPartDataEnd => g == AfterPart
    case SPartDataFinalHyphen => g == AfterPart
    case SEnd => g == Done
  }

  lemma WalkOne(g: Place, e: Event)
    ensures Walk(g, [e]) == PlaceStep(g, e)
  {
    assert [e][1..] == [];
  }

  lemma StepFits(b: Bytes, p: Parser, g: Place, buf: Bytes, i: nat, mark: nat)
    requires Valid(b, p) && mark <= i < |buf| && Fits(p.state, g)
    ensures var n := StepAt(b, p, buf, i, mark);
            && (n.Stop? ==> Fits(n.p.state, g))
            && (n.Go? ==> Walk(g, n.events).Some? && Fits(n.p.state, Walk(g, n.events).value))
  {
    StepEvents(b, p, buf, i, mark);
    var n := StepAt(b, p, buf, i, mark);
    if p.state == SPartDataStart {
      WalkConcat(g, [HeadersComplete], n.events[1..]);
      WalkOne(g, HeadersComplete);
      assert n.events == [HeadersComplete] + n.events[1..];
      if n.events[1..] != [] { WalkOne(InBody, n.events[1]); }
    } else if n.Go? && n.events != [] {
      WalkOne(g, n.events[0]);
    }
    if p.state != SPartDataStart {
      hide Valid, StepAt;
      StepPlaces(b, p, g, buf, i, mark);
    }
  }

  /** A step makes at most one callback, and headers_complete before the first data of a part. */
  lemma StepEvents(b: Bytes, p: Parser, buf: Bytes, i: nat, mark: nat)
    requires Valid(b, p) && mark <= i < |buf|
    ensures var n := StepAt(b, p, buf, i, mark);
            n.Go? ==>
              if p.state == SPartDataStart
              then n.events != [] && n.events[0] == HeadersComplete && |n.events| <= 2
                   && (|n.events| == 2 ==> n.events[1..] == [n.events[1]] && n.events[1].PartData?)
              else |n.events| <= 1 && (n.events != [] ==> n.events == [n.events[0]])
    ensures p.state == SPartDataStart ==>
              StepAt(b, p, buf, i, mark).Go? && InBodyState(StepAt(b, p, buf, i, mark).p.state)
  {
  }

  predicate InBodyState(s: State) { s == SPartData || s == SPartDataAlmostBoundary }

  /** Where the callback of a step leads, and that the new state fits there. */
  lemma StepPlaces(b: Bytes, p: Parser, g: Place, buf: Bytes, i: nat, mark: nat)
    requires Valid(b, p) && mark <= i < |buf| && Fits(p.state, g) && p.state != SPartDataStart
    ensures var n := StepAt(b, p, buf, i, mark);
            && (n.Stop? ==> Fits(n.p.state, g))
            && (n.Go? && n.events == [] ==> Fits(n.p.state, g))
            && (n.Go? && n.events != [] ==>
                 PlaceStep(g, n.events[0]).Some? && Fits(n.p.state, PlaceStep(g, n.events[0]).value))
  {
  }

  lemma {:induction false} LoopFits(b: Bytes, p: Parser, g: Place, buf: Bytes, i: nat, mark: nat)
    requires Valid(b, p) && mark <= i <= |buf| && Fits(p.state, g)
    ensures var r := Loop(b, p, buf, i, mark);
            Walk(g, r.events).Some? && Fits(r.p.state, Walk(g, r.events).value)
    decreases |buf| - i, Rank(p.state)
  {
    if i < |buf| {
      StepValid(b, p, buf, i, mark);
      StepFits(b, p, g, buf, i, mark);
      hide Valid, StepAt, Fits;
      match StepAt(b, p, buf, i, mark)
      case Stop(q) =>
      case Go(q, advance, m, events) =>
        var h := Walk(g, events).value;
        LoopFits(b, q, h, buf, if advance then i + 1 else i, m);
        WalkConcat(g, events, Loop(b, q, buf, if advance then i + 1 else i, m).events);
    }
  }

  lemma {:induction false} FeedFits(b: Bytes, p: Parser, g: Place, chunks: seq<Bytes>)
    requires Valid(b, p) && Fits(p.state, g)
    ensures var r := Feed(b, p, chunks);
            Walk(g, r.events).Some? && Fits(r.p.state, Walk(g, r.events).value)
    decreases |chunks|
  {
    hide Valid, Loop, Fits;
    if chunks != [] {
      LoopFits(b, p, g, chunks[0], 0, 0);
      var r := Execute(b, p, chunks[0]);
      if r.consumed == |chunks[0]| {
        var h := Walk(g, r.events).value;
        FeedFits(b, r.p, h, chunks[1..]);
        WalkConcat(g, r.events, Feed(b, r.p, chunks[1..]).events);
      }
    }
  }

  /** For every input, however cut and however malformed, the trace is a prefix of a sentence of the
      grammar, and it is a whole sentence exactly when the parser has reached s_end. */
  lemma TraceShape(b: Bytes, p: Parser, chunks: seq<Bytes>)
    requires Valid(b, p) && p.state == SStart
    ensures var r := Feed(b, p, chunks);
            && (exists rest :: Sentence(r.events + rest))
            && (Sentence(r.events) <==> r.p.state == SEnd)
  {
    FeedFits(b, p, BeforeParts, chunks);
    var r := Feed(b, p, chunks);
    var g := Walk(BeforeParts, r.events).value;
    hide Valid, Feed, Walk;
    WalkConcat(BeforeParts, r.events, Completion(g));
    CompletionWalks(g);
    assert Sentence(r.events + Completion(g));
  }
}
