/**
 Print and parse: every non-empty list of parts, printed as a multipart body and fed to the parser
 in any chunks, is reported back part by part.
 */
module MultipartRoundTrip {
  import opened Prelude
  import opened Multipart
  import opened MultipartChunks
  import opened MultipartSearch

  datatype Header = Header(name: Bytes, spaces: nat, value: Bytes)
  datatype Part = Part(headers: seq<Header>, body: Bytes)

  ghost predicate GoodHeader(h: Header) {
    && (forall i :: 0 <= i < |h.name| ==>
          h.name[i] == 45 || 65 <= h.name[i] <= 90 || 97 <= h.name[i] <= 122)
    && CR !in h.value && (h.value != [] ==> h.value[0] != SPACE)
  }

  ghost predicate GoodPart(b: Bytes, part: Part) {
    (forall i :: 0 <= i < |part.headers| ==> GoodHeader(part.headers[i])) && !Occurs(Delimiter(b), part.body)
  }

  function Spaces(n: nat): Bytes {
    if n == 0 then [] else [SPACE] + Spaces(n - 1)
  }

  function PrintHeader(h: Header): Bytes {
    h.name + [COLON] + (Spaces(h.spaces) + (h.value + [CR] + [LF]))
  }

  function PrintHeaders(hs: seq<Header>): Bytes {
    if hs == [] then [CR, LF] else PrintHeader(hs[0]) + PrintHeaders(hs[1..])
  }

  function PrintParts(b: Bytes, parts: seq<Part>): Bytes
    requires parts != []
  {
    PrintHeaders(parts[0].headers) + (parts[0].body + Delimiter(b)
      + (if |parts| == 1 then [HYPHEN, HYPHEN] else [CR, LF] + PrintParts(b, parts[1..])))
  }

  function Print(b: Bytes, parts: seq<Part>): Bytes
    requires parts != []
  {
    b + [CR, LF] + PrintParts(b, parts)
  }

  /** The callbacks that report the parts, each datum in one piece. */
  function ReportHeaders(hs: seq<Header>): seq<Event> {
    if hs == [] then [] else [HeaderField(hs[0].name), HeaderValue(hs[0].value)] + ReportHeaders(hs[1..])
  }

  function ReportParts(parts: seq<Part>): seq<Event>
    requires parts != []
  {
    ReportHeaders(parts[0].headers) + ([HeadersComplete, PartData(parts[0].body), PartDataEnd]
      + (if |parts| == 1 then [BodyEnd] else [PartDataBegin] + ReportParts(parts[1..])))
  }

  function Report(parts: seq<Part>): seq<Event>
    requires parts != []
  {
    [PartDataBegin] + ReportParts(parts)
  }

  // ---------------------------------------------------------------------------
  // Parsing a segment
  // ---------------------------------------------------------------------------

  /** From `p` all of `x` is accepted, leads to state `s`, is reported as `events`, and drops no name. */
  ghost predicate Parses(b: Bytes, p: Parser, x: Bytes, s: State, events: seq<Event>)
    requires Valid(b, p)
  {
    var r := Ref(b, p, x);
    r.consumed == |x| && r.p.state == s && Equiv(true, r.events, events) && NoDrop(b, p, x)
  }

  lemma Sequence(b: Bytes, p: Parser, x: Bytes, s: State, events: seq<Event>, y: Bytes, t: State, more: seq<Event>)
    requires Valid(b, p) && Parses(b, p, x, s, events) && Parses(b, Ref(b, p, x).p, y, t, more)
    ensures Parses(b, p, x + y, t, events + more)
  {
    hide Equiv, Ref, NoDrop, Valid;
    RefConcat(b, p, x, y);
    NoDropConcat(b, p, x, y);
    EquivConcat(true, Ref(b, p, x).events, events, Ref(b, Ref(b, p, x).p, y).events, more);
  }

  lemma OneByte(b: Bytes, p: Parser, c: Byte)
    requires Valid(b, p) && ByteStep(b, p, c).Accept? && !(p.state == SHeaderField && Drops(c))
    ensures var n := ByteStep(b, p, c);
            Parses(b, p, [c], n.p.state, n.events) && Ref(b, p, [c]).p == n.p
  {
    hide ByteStep, Valid, Drops;
    RefOne(b, p, c);
    ByteValid(b, p, c);
    EquivSame(true, ByteStep(b, p, c).events);
    hide Equiv;
    assert [c][1..] == [];
    assert NoDrop(b, ByteStep(b, p, c).p, []);
    assert NoDrop(b, p, [c]);
  }

  /** The segment behind the first byte. */
  lemma ThenRest(b: Bytes, p: Parser, c: Byte, y: Bytes, t: State, more: seq<Event>)
    requires Valid(b, p) && ByteStep(b, p, c).Accept? && !(p.state == SHeaderField && Drops(c))
    requires Valid(b, ByteStep(b, p, c).p) && Parses(b, ByteStep(b, p, c).p, y, t, more)
    ensures Parses(b, p, [c] + y, t, ByteStep(b, p, c).events + more)
  {
    hide ByteStep, Valid, Drops, Parses;
    var n := ByteStep(b, p, c);
    OneByte(b, p, c);
    Sequence(b, p, [c], n.p.state, n.events, y, t, more);
  }

  lemma Nothing(b: Bytes, p: Parser)
    requires Valid(b, p)
    ensures Parses(b, p, [], p.state, [])
  {
    EquivSame(true, []);
  }

  lemma Reworded(b: Bytes, p: Parser, x: Bytes, s: State, events: seq<Event>, events': seq<Event>)
    requires Valid(b, p) && Parses(b, p, x, s, events) && Equiv(true, events, events')
    ensures Parses(b, p, x, s, events')
  {
    hide Equiv, Valid;
    EquivTrans(true, Ref(b, p, x).events, events, events');
  }

  // ---------------------------------------------------------------------------
  // The boundary line and the header lines
  // ---------------------------------------------------------------------------

  lemma {:induction false} RestOfBoundary(b: Bytes, p: Parser, x: Bytes)
    requires Valid(b, p) && p.state == SStartBoundary && p.index <= |b| && x == b[p.index..] + [CR, LF]
    ensures Parses(b, p, x, SHeaderFieldStart, [PartDataBegin])
    decreases |b| - p.index
  {
    ByteValid(b, p, x[0]);
    var n := ByteStep(b, p, x[0]);
    if p.index == |b| {
      ByteValid(b, n.p, LF);
      var m := ByteStep(b, n.p, LF);
      hide Parses;
      Nothing(b, m.p);
      ThenRest(b, n.p, LF, [], SHeaderFieldStart, []);
      ThenRest(b, p, CR, [LF] + [], SHeaderFieldStart, [PartDataBegin] + []);
      assert x == [CR] + ([LF] + []);
      assert [] + ([PartDataBegin] + []) == [PartDataBegin];
    } else {
      hide Parses;
      RestOfBoundary(b, n.p, x[1..]);
      ThenRest(b, p, x[0], x[1..], SHeaderFieldStart, [PartDataBegin]);
      assert x == [x[0]] + x[1..] && [] + [PartDataBegin] == [PartDataBegin];
    }
  }

  lemma BoundaryLine(b: Bytes, p: Parser)
    requires Valid(b, p) && p.state == SStart
    ensures Parses(b, p, b + [CR, LF], SHeaderFieldStart, [PartDataBegin])
  {
    var q := p.(index := 0, state := SStartBoundary);
    var x := b + [CR, LF];
    assert b[0..] == b;
    RestOfBoundary(b, q, x);
    SameFirstByte(b, p, q, x);
  }

  /** Two states that treat the next byte alike parse alike. */
  lemma SameFirstByte(b: Bytes, p: Parser, q: Parser, x: Bytes)
    requires Valid(b, p) && Valid(b, q) && x != [] && ByteStep(b, p, x[0]) == ByteStep(b, q, x[0])
    requires p.state != SHeaderField && q.state != SHeaderField
    ensures Ref(b, p, x) == Ref(b, q, x) && NoDrop(b, p, x) == NoDrop(b, q, x)
  {
    hide ByteStep, Valid;
    ByteValid(b, p, x[0]);
  }

  lemma {:induction false} NameParses(b: Bytes, p: Parser, name: Bytes)
    requires Valid(b, p) && (p.state == SHeaderFieldStart || p.state == SHeaderField)
    requires forall i :: 0 <= i < |name| ==> NameChar(name[i])
    ensures Parses(b, p, name + [COLON], SHeaderValueStart, [HeaderField(name)])
    decreases |name|
  {
    if name == [] {
      ByteValid(b, p, COLON);
      hide Parses;
      Nothing(b, ByteStep(b, p, COLON).p);
      ThenRest(b, p, COLON, [], SHeaderValueStart, []);
      assert name + [COLON] == [COLON] + [] && [HeaderField([])] + [] == [HeaderField(name)];
    } else {
      var c, rest := name[0], name[1..];
      ByteValid(b, p, c);
      var q := ByteStep(b, p, c).p;
      NameParses(b, q, rest);
      hide Parses, Equiv;
      ThenRest(b, p, c, rest + [COLON], SHeaderValueStart, [HeaderField(rest)]);
      var d, e := HeaderField([c]), HeaderField(rest);
      EquivJoin(true, d, e);
      assert [d] + [e] == [d, e] && [c] + rest == name;
      Reworded(b, p, [c] + (rest + [COLON]), SHeaderValueStart, [d] + [e], [HeaderField(name)]);
      assert name + [COLON] == [c] + (rest + [COLON]);
    }
  }

  lemma {:induction false} SpacesParse(b: Bytes, p: Parser, n: nat)
    requires Valid(b, p) && p.state == SHeaderValueStart
    ensures Parses(b, p, Spaces(n), SHeaderValueStart, []) && Ref(b, p, Spaces(n)).p == p
    decreases n
  {
    if n == 0 {
      Nothing(b, p);
    } else {
      assert ByteStep(b, p, SPACE) == Accept(p, []);
      SpacesParse(b, p, n - 1);
      ThenRest(b, p, SPACE, Spaces(n - 1), SHeaderValueStart, []);
      assert Spaces(n)[0] == SPACE && Spaces(n)[1..] == Spaces(n - 1);
      var none: seq<Event> := [];
      assert none + none == none;
    }
  }

  lemma {:induction false} ValueParses(b: Bytes, p: Parser, value: Bytes)
    requires Valid(b, p) && p.state == SHeaderValue && CR !in value
    ensures Parses(b, p, value + [CR], SHeaderValueAlmostDone, [HeaderValue(value)])
    decreases |value|
  {
    if value == [] {
      ByteValid(b, p, CR);
      hide Parses;
      Nothing(b, ByteStep(b, p, CR).p);
      ThenRest(b, p, CR, [], SHeaderValueAlmostDone, []);
      assert value + [CR] == [CR] + [] && [HeaderValue([])] + [] == [HeaderValue(value)];
    } else {
      var c, rest := value[0], value[1..];
      assert c in value;
      ByteValid(b, p, c);
      var q := ByteStep(b, p, c).p;
      ValueParses(b, q, rest);
      hide Parses, Equiv;
      ThenRest(b, p, c, rest + [CR], SHeaderValueAlmostDone, [HeaderValue(rest)]);
      var d, e := HeaderValue([c]), HeaderValue(rest);
      EquivJoin(true, d, e);
      assert [d] + [e] == [d, e] && [c] + rest == value;
      Reworded(b, p, [c] + (rest + [CR]), SHeaderValueAlmostDone, [d] + [e], [HeaderValue(value)]);
      assert value + [CR] == [c] + (rest + [CR]);
    }
  }

  lemma ValueLine(b: Bytes, p: Parser, value: Bytes)
    requires Valid(b, p) && p.state == SHeaderValueStart && CR !in value && (value != [] ==> value[0] != SPACE)
    ensures Parses(b, p, value + [CR] + [LF], SHeaderFieldStart, [HeaderValue(value)])
  {
    var q, x := p.(state := SHeaderValue), value + [CR];
    ValueParses(b, q, value);
    SameFirstByte(b, p, q, x);
    var r := Ref(b, p, x);
    assert ByteStep(b, r.p, LF) == Accept(r.p.(state := SHeaderFieldStart), []);
    OneByte(b, r.p, LF);
    hide Ref, NoDrop, Equiv, Valid, ByteStep;
    Sequence(b, p, x, SHeaderValueAlmostDone, [HeaderValue(value)], [LF], SHeaderFieldStart, []);
    assert [HeaderValue(value)] + [] == [HeaderValue(value)];
  }

  lemma HeaderParses(b: Bytes, p: Parser, h: Header)
    requires Valid(b, p) && p.state == SHeaderFieldStart && GoodHeader(h)
    ensures Parses(b, p, PrintHeader(h), SHeaderFieldStart, [HeaderField(h.name), HeaderValue(h.value)])
  {
    var x, y, z := h.name + [COLON], Spaces(h.spaces), h.value + [CR] + [LF];
    NameParses(b, p, h.name);
    var q := Ref(b, p, x).p;
    assert q.state == SHeaderValueStart;
    hide NoDrop, Equiv, Valid, ByteStep, Spaces;
    SpacesParse(b, q, h.spaces);
    ValueLine(b, q, h.value);
    hide Ref, Parses;
    Sequence(b, q, y, SHeaderValueStart, [], z, SHeaderFieldStart, [HeaderValue(h.value)]);
    Sequence(b, p, x, SHeaderValueStart, [HeaderField(h.name)], y + z, SHeaderFieldStart, [] + [HeaderValue(h.value)]);
    assert [HeaderField(h.name)] + ([] + [HeaderValue(h.value)]) == [HeaderField(h.name), HeaderValue(h.value)];
  }

  lemma TwoBytes(b: Bytes, p: Parser, c: Byte, d: Byte, q: Parser, r: Parser, e: seq<Event>, f: seq<Event>)
    requires Valid(b, p) && ByteStep(b, p, c) == Accept(q, e) && Valid(b, q) && ByteStep(b, q, d) == Accept(r, f)
    requires p.state != SHeaderField && q.state != SHeaderField
    ensures Parses(b, p, [c, d], r.state, e + f) && Ref(b, p, [c, d]).p == r
  {
    hide ByteStep, Valid;
    ByteValid(b, q, d);
    OneByte(b, p, c);
    OneByte(b, q, d);
    Sequence(b, p, [c], q.state, e, [d], r.state, f);
    RefConcat(b, p, [c], [d]);
    RefOne(b, p, c);
    RefOne(b, q, d);
    assert [c] + [d] == [c, d];
  }

  lemma {:induction false} HeadersParse(b: Bytes, p: Parser, hs: seq<Header>)
    requires Valid(b, p) && p.state == SHeaderFieldStart && forall i :: 0 <= i < |hs| ==> GoodHeader(hs[i])
    ensures Parses(b, p, PrintHeaders(hs), SPartDataStart, ReportHeaders(hs))
    decreases |hs|
  {
    if hs == [] {
      var q := p.(state := SHeadersAlmostDone);
      var none: seq<Event> := [];
      TwoBytes(b, p, CR, LF, q, p.(state := SPartDataStart), none, none);
      assert none + none == none;
    } else {
      var x := PrintHeader(hs[0]);
      HeaderParses(b, p, hs[0]);
      var q := Ref(b, p, x).p;
      assert q.state == SHeaderFieldStart;
      hide Parses, Valid, PrintHeader, GoodHeader;
      HeadersParse(b, q, hs[1..]);
      Sequence(b, p, x, SHeaderFieldStart, [HeaderField(hs[0].name), HeaderValue(hs[0].value)],
          PrintHeaders(hs[1..]), SPartDataStart, ReportHeaders(hs[1..]));
    }
  }

  // ---------------------------------------------------------------------------
  // Bodies
  // ---------------------------------------------------------------------------

  /** Behind a body without a delimiter, the printed delimiter is the first one. */
  lemma PrintedDelimiterIsFirst(d: Bytes, body: Bytes)
    requires OnlyFirstIsCR(d) && !Occurs(d, body)
    ensures FirstAt(d, body + d, |body|)
  {
    var x := body + d;
    assert x[|body|..|body| + |d|] == d;
    forall k ensures k < |body| ==> !OccursAt(d, x, k) {
      if k < |body| && OccursAt(d, x, k) {
        if k + |d| <= |body| {
          assert x[k..k + |d|] == body[k..k + |d|];
          assert OccursAt(d, body, k);
        } else {
          OverlapRepeatsFirst(d, body, k);
        }
      }
    }
  }

  lemma OverlapRepeatsFirst(d: Bytes, body: Bytes, k: nat)
    requires k < |body| < k + |d| && OccursAt(d, body + d, k)
    ensures d[|body| - k] == d[0]
  {
    assert (body + d)[k..k + |d|][|body| - k] == (body + d)[|body|];
  }

  lemma BodyParses(b: Bytes, p: Parser, body: Bytes)
    requires Valid(b, p) && p.state == SPartDataStart && CR !in b && !Occurs(Delimiter(b), body)
    ensures Parses(b, p, body + Delimiter(b), SPartDataAlmostEnd, [HeadersComplete, PartData(body), PartDataEnd])
  {
    var d, x := Delimiter(b), body + Delimiter(b);
    DelimiterShape(b);
    PrintedDelimiterIsFirst(d, body);
    assert x[..|body|] == body;
    PartToDelimiter(true, b, p, x, |body|);
    BeforeFirst(d, x, |body|);
    var q := p.(state := SPartData);
    assert ByteStep(b, p, x[0]) == Accept(DataByte(q, x[0]).p, [HeadersComplete] + DataByte(q, x[0]).events);
    var y, c := x[..|x| - 1], x[|x| - 1];
    assert x == y + [c];
    BodyDropsNothing(b, q, y);
    NoDelimiter(b, q, y);
    hide NoDrop, Valid, Ref, ByteStep, Equiv;
    SearchStepNoDrop(b, Ref(b, q, y).p, c);
    NoDropConcat(b, q, y, [c]);
    BackNoDrop(b, p, q, x, [HeadersComplete]);
  }

  // ---------------------------------------------------------------------------
  // All parts
  // ---------------------------------------------------------------------------

  lemma LastLine(b: Bytes, p: Parser)
    requires Valid(b, p) && p.state == SPartDataAlmostEnd
    ensures Parses(b, p, [HYPHEN, HYPHEN], SEnd, [BodyEnd])
  {
    var q := p.(state := SPartDataFinalHyphen);
    TwoBytes(b, p, HYPHEN, HYPHEN, q, p.(state := SEnd), [], [BodyEnd]);
    assert [] + [BodyEnd] == [BodyEnd];
  }

  lemma NextLine(b: Bytes, p: Parser)
    requires Valid(b, p) && p.state == SPartDataAlmostEnd
    ensures Parses(b, p, [CR, LF], SHeaderFieldStart, [PartDataBegin])
    ensures Valid(b, Ref(b, p, [CR, LF]).p)
  {
    var q := p.(state := SPartDataEnd);
    TwoBytes(b, p, CR, LF, q, p.(state := SHeaderFieldStart), [], [PartDataBegin]);
    assert [] + [PartDataBegin] == [PartDataBegin];
  }

  lemma {:induction false} PartsParse(b: Bytes, p: Parser, parts: seq<Part>)
    requires Valid(b, p) && p.state == SHeaderFieldStart && CR !in b
    requires parts != [] && forall i :: 0 <= i < |parts| ==> GoodPart(b, parts[i])
    ensures Parses(b, p, PrintParts(b, parts), SEnd, ReportParts(parts))
    decreases |parts|
  {
    var part := parts[0];
    assert GoodPart(b, part);
    var heads, data := PrintHeaders(part.headers), part.body + Delimiter(b);
    HeadersParse(b, p, part.headers);
    var q := Ref(b, p, heads).p;
    BodyParses(b, q, part.body);
    var r := Ref(b, q, data).p;
    var report := [HeadersComplete, PartData(part.body), PartDataEnd];
    if |parts| == 1 {
      LastLine(b, r);
      hide Parses, Valid, Ref, PrintHeaders, ReportHeaders, GoodPart;
      Sequence(b, q, data, SPartDataAlmostEnd, report, [HYPHEN, HYPHEN], SEnd, [BodyEnd]);
      Sequence(b, p, heads, SPartDataStart, ReportHeaders(part.headers), data + [HYPHEN, HYPHEN], SEnd,
          report + [BodyEnd]);
    } else {
      NextLine(b, r);
      var s, rest := Ref(b, r, [CR, LF]).p, parts[1..];
      PartsParse(b, s, rest);
      hide Parses, Valid, Ref, PrintHeaders, ReportHeaders, GoodPart;
      var more, events := PrintParts(b, rest), ReportParts(rest);
      Sequence(b, r, [CR, LF], SHeaderFieldStart, [PartDataBegin], more, SEnd, events);
      Sequence(b, q, data, SPartDataAlmostEnd, report, [CR, LF] + more, SEnd, [PartDataBegin] + events);
      Sequence(b, p, heads, SPartDataStart, ReportHeaders(part.headers), data + ([CR, LF] + more), SEnd,
          report + ([PartDataBegin] + events));
    }
  }

  /** No two neighbouring callbacks could be joined. */
  ghost predicate Unjoined(events: seq<Event>) {
    forall i :: 0 <= i < |events| - 1 ==> !Joinable(events[i], events[i + 1])
  }

  lemma {:induction false} UnjoinedIsNormal(t: seq<Event>, events: seq<Event>)
    requires Unjoined(t + events)
    ensures JoinAll(t, events) == t + events
    decreases |events|
  {
    if events == [] {
      assert t + events == t;
    } else {
      var e, rest := events[0], events[1..];
      assert t + events == (t + [e]) + rest;
      if t != [] {
        assert (t + events)[|t| - 1] == t[|t| - 1] && (t + events)[|t| - 1 + 1] == e;
      }
      UnjoinedIsNormal(t + [e], rest);
    }
  }

  lemma UnjoinedConcat(d: seq<Event>, e: seq<Event>)
    requires Unjoined(d) && Unjoined(e)
    requires d != [] && e != [] ==> !Joinable(d[|d| - 1], e[0])
    ensures Unjoined(d + e)
  {
  }

  lemma {:induction false} HeadersUnjoined(hs: seq<Header>)
    ensures var r := ReportHeaders(hs);
            Unjoined(r) && (r != [] ==> r[0].HeaderField? && r[|r| - 1].HeaderValue?)
    decreases |hs|
  {
    if hs != [] {
      HeadersUnjoined(hs[1..]);
      UnjoinedConcat([HeaderField(hs[0].name), HeaderValue(hs[0].value)], ReportHeaders(hs[1..]));
    }
  }

  lemma {:induction false} ReportUnjoined(parts: seq<Part>)
    requires parts != []
    ensures Unjoined([PartDataBegin] + ReportParts(parts))
    decreases |parts|
  {
    var hs, part := ReportHeaders(parts[0].headers), [HeadersComplete, PartData(parts[0].body), PartDataEnd];
    var tail := if |parts| == 1 then [BodyEnd] else [PartDataBegin] + ReportParts(parts[1..]);
    if |parts| > 1 { ReportUnjoined(parts[1..]); }
    HeadersUnjoined(parts[0].headers);
    UnjoinedConcat(part, tail);
    UnjoinedConcat(hs, part + tail);
    UnjoinedConcat([PartDataBegin], hs + (part + tail));
  }

  /** Round trip: for every non-empty list of parts and every way of cutting the printed body into
      chunks, the parser accepts every byte, ends in s_end, and reports exactly those parts in order. */
  lemma RoundTrip(b: Bytes, p: Parser, parts: seq<Part>, chunks: seq<Bytes>)
    requires Valid(b, p) && p.state == SStart && CR !in b
    requires parts != [] && forall i :: 0 <= i < |parts| ==> GoodPart(b, parts[i])
    requires Flatten(chunks) == Print(b, parts)
    ensures var f := Feed(b, p, chunks);
            && f.consumed == |Flatten(chunks)| && f.p.state == SEnd
            && Normal(f.events) == Report(parts)
  {
    var x, line := Print(b, parts), b + [CR, LF];
    BoundaryLine(b, p);
    var q := Ref(b, p, line).p;
    PartsParse(b, q, parts);
    Sequence(b, p, line, SHeaderFieldStart, [PartDataBegin], PrintParts(b, parts), SEnd, ReportParts(parts));
    assert Parses(b, p, x, SEnd, Report(parts));
    SameNormal(b, p, chunks, x);
    FeedIsRef(true, b, p, chunks);
    hide Equiv, Ref, Feed, Valid, NoDrop, View;
    EquivNormal(true, Ref(b, p, x).events, Report(parts));
    ViewAll(Ref(b, p, x).events);
    ViewAll(Report(parts));
    ReportUnjoined(parts);
    UnjoinedIsNormal([], Report(parts));
    assert [] + Report(parts) == Report(parts);
  }
}
