/**
 A parser object over a whole sequence of chunks, as its owner feeds it: the theorems about traces
 said of the object's own trace.
 */
module MultipartSession {
  import opened Prelude
  import opened Multipart
  import opened MultipartChunks
  import opened MultipartParser
  import opened MultipartRoundTrip
  import opened MultipartGrammar

  /** What is left of the feeding, put behind what has been done. */
  ghost predicate FedSoFar(all: Run, consumed: nat, events: seq<Event>, rest: Run) {
    all == Run(rest.p, consumed + rest.consumed, events + rest.events)
  }

  lemma FeedOneMore(b: Bytes, p: Parser, chunks: seq<Bytes>, all: Run, consumed: nat, events: seq<Event>)
    requires Valid(b, p) && chunks != [] && FedSoFar(all, consumed, events, Feed(b, p, chunks))
    ensures var r := Execute(b, p, chunks[0]);
            if r.consumed < |chunks[0]| then all == Run(r.p, consumed + r.consumed, events + r.events)
            else Valid(b, r.p) && FedSoFar(all, consumed + r.consumed, events + r.events, Feed(b, r.p, chunks[1..]))
  {
    hide Loop, Valid;
    var r := Execute(b, p, chunks[0]);
    if r.consumed == |chunks[0]| {
      var s := Feed(b, r.p, chunks[1..]);
      assert events + (r.events + s.events) == events + r.events + s.events;
    }
  }

  /** Chunk after chunk, until one is not accepted as a whole. */
  method FeedParser(parser: MultipartParser, chunks: seq<Bytes>) returns (consumed: nat)
    requires parser.Ok()
    modifies parser, parser.lookbehind
    ensures parser.Ok()
    ensures var r := Feed(parser.boundary, old(parser.Now()), chunks);
            parser.Now() == r.p && consumed == r.consumed && parser.trace == old(parser.trace) + r.events
  {
    hide Valid, Execute, Feed;
    ghost var all := Feed(parser.boundary, parser.Now(), chunks);
    ghost var events: seq<Event> := [];
    consumed := 0;
    var i := 0;
    assert chunks[0..] == chunks;
    while i < |chunks|
      invariant i <= |chunks| && parser.Ok() && parser.trace == old(parser.trace) + events
      invariant FedSoFar(all, consumed, events, Feed(parser.boundary, parser.Now(), chunks[i..]))
    {
      FeedOneMore(parser.boundary, parser.Now(), chunks[i..], all, consumed, events);
      ghost var r := Execute(parser.boundary, parser.Now(), chunks[i]);
      var n := parser.Parse(chunks[i]);
      consumed, events := consumed + n, events + r.events;
      if n < |chunks[i]| {
        return;
      }
      assert chunks[i..][1..] == chunks[i + 1..];
      i := i + 1;
    }
    FeedNoMore(parser.boundary, parser.Now());
    assert chunks[i..] == [] && events + [] == events;
  }

  lemma FeedNoMore(b: Bytes, p: Parser)
    requires Valid(b, p)
    ensures Feed(b, p, []) == Run(p, 0, [])
  {
  }

  /** A printed body, cut in any way: the parser's trace reports exactly the parts. */
  method ParsePrinted(boundary: Bytes, parts: seq<Part>, chunks: seq<Bytes>)
    returns (parser: MultipartParser, consumed: nat)
    requires boundary != [] && CR !in boundary
    requires parts != [] && forall i :: 0 <= i < |parts| ==> GoodPart(boundary, parts[i])
    requires Flatten(chunks) == Print(boundary, parts)
    ensures fresh(parser) && parser.state == SEnd && consumed == |Flatten(chunks)|
    ensures Normal(parser.trace) == Report(parts)
  {
    hide GoodPart, Valid, Feed, Print, Report, Normal, Flatten;
    parser := new MultipartParser(boundary);
    ghost var p := parser.Now();
    RoundTrip(boundary, p, parts, chunks);
    consumed := FeedParser(parser, chunks);
    assert [] + Feed(boundary, p, chunks).events == Feed(boundary, p, chunks).events;
  }

  /** Any input at all, cut in any way: the parser's trace is a prefix of a sentence of the grammar, and
      a whole one exactly when the parser is in s_end. */
  method ParseAnything(boundary: Bytes, chunks: seq<Bytes>) returns (parser: MultipartParser, consumed: nat)
    requires boundary != []
    ensures fresh(parser) && consumed <= |Flatten(chunks)|
    ensures exists rest :: Sentence(parser.trace + rest)
    ensures Sentence(parser.trace) <==> parser.state == SEnd
  {
    hide Valid, Feed, Sentence, Flatten;
    parser := new MultipartParser(boundary);
    ghost var p := parser.Now();
    TraceShape(boundary, p, chunks);
    consumed := FeedParser(parser, chunks);
    assert [] + Feed(boundary, p, chunks).events == Feed(boundary, p, chunks).events;
  }
}
