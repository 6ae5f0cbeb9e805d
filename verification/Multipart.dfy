/**
 web_threads/src/tcp_logic/multipart_parser.c: the resumable multipart parser.  Callbacks append
 to a trace and return 0.  The state s_uninitialized is never assigned, so it and the default
 branch are not represented.
 */
module Multipart {

  type Byte = b: int | 0 <= b < 256
  type Bytes = seq<Byte>

  const CR: Byte := 13
  const LF: Byte := 10
  const SPACE: Byte := 32
  const HYPHEN: Byte := 45
  const COLON: Byte := 58

  datatype State =
    | SStart | SStartBoundary
    | SHeaderFieldStart | SHeaderField | SHeadersAlmostDone
    | SHeaderValueStart | SHeaderValue | SHeaderValueAlmostDone
    | SPartDataStart | SPartData | SPartDataAlmostBoundary | SPartDataBoundary
    | SPartDataAlmostEnd | SPartDataEnd | SPartDataFinalHyphen
    | SEnd

  datatype Event =
    | PartDataBegin
    | HeaderField(bytes: Bytes)
    | HeaderValue(bytes: Bytes)
    | HeadersComplete
    | PartData(bytes: Bytes)
    | PartDataEnd
    | BodyEnd

  /** What survives between two calls of execute. */
  datatype Parser = Parser(state: State, index: nat, look: Bytes)

  function ToLower(c: Byte): Byte {
    if 65 <= c <= 90 then c + 32 else c
  }

  /** Letters and '-'. */
  predicate NameChar(c: Byte) {
    c == HYPHEN || 97 <= ToLower(c) <= 122
  }

  function Delimiter(b: Bytes): Bytes {
    [CR, LF] + b
  }

  /** The buffer behind the boundary is large enough, and while a delimiter is being matched it
      holds exactly what has been matched. */
  ghost predicate Valid(b: Bytes, p: Parser) {
    && |b| > 0
    && |p.look| == |b| + 9
    && (p.state == SStartBoundary ==> p.index <= |b| + 1)
    && (p.state == SPartDataAlmostBoundary ==> p.look[0] == CR)
    && (p.state == SPartDataBoundary ==> p.index < |b| && p.look[..2 + p.index] == Delimiter(b)[..2 + p.index])
  }

  // ---------------------------------------------------------------------------
  // One iteration of the loop
  // ---------------------------------------------------------------------------

  datatype Next =
    | Stop(p: Parser)
    | Go(p: Parser, advance: bool, mark: nat, events: seq<Event>)

  function BoundaryStep(b: Bytes, p: Parser, c: Byte, mark: nat): Next
    requires Valid(b, p) && p.index <= |b| + 1
  {
    if p.index == |b| then
      if c != CR then Stop(p) else Go(p.(index := p.index + 1), true, mark, [])
    else if p.index == |b| + 1 then
      if c != LF then Stop(p) else Go(p.(index := 0, state := SHeaderFieldStart), true, mark, [PartDataBegin])
    else if c != b[p.index] then Stop(p)
    else Go(p.(index := p.index + 1), true, mark, [])
  }

  function FieldStep(p: Parser, buf: Bytes, i: nat, mark: nat): Next
    requires mark <= i < |buf|
  {
    var c := buf[i];
    if c == CR then Go(p.(state := SHeadersAlmostDone), true, mark, [])
    else if c == COLON then Go(p.(state := SHeaderValueStart), true, mark, [HeaderField(buf[mark..i])])
    else if !NameChar(c) then Stop(p)
    else Go(p, true, mark, if i == |buf| - 1 then [HeaderField(buf[mark..i + 1])] else [])
  }

  function ValueStep(p: Parser, buf: Bytes, i: nat, mark: nat): Next
    requires mark <= i < |buf|
  {
    if buf[i] == CR then Go(p.(state := SHeaderValueAlmostDone), true, mark, [HeaderValue(buf[mark..i])])
    else Go(p, true, mark, if i == |buf| - 1 then [HeaderValue(buf[mark..i + 1])] else [])
  }

  function DataStep(b: Bytes, p: Parser, buf: Bytes, i: nat, mark: nat): Next
    requires Valid(b, p) && mark <= i < |buf|
  {
    if buf[i] == CR then
      Go(p.(state := SPartDataAlmostBoundary, look := p.look[0 := CR]), true, i, [PartData(buf[mark..i])])
    else Go(p, true, mark, if i == |buf| - 1 then [PartData(buf[mark..i + 1])] else [])
  }

  /** One pass through the switch; `advance` is false when the byte is to be looked at again. */
  function StepAt(b: Bytes, p: Parser, buf: Bytes, i: nat, mark: nat): Next
    requires Valid(b, p) && mark <= i < |buf|
  {
    var c := buf[i];
    match p.state
    case SStart => BoundaryStep(b, p.(index := 0, state := SStartBoundary), c, mark)
    case SStartBoundary => BoundaryStep(b, p, c, mark)
    case SHeaderFieldStart => FieldStep(p.(state := SHeaderField), buf, i, i)
    case SHeaderField => FieldStep(p, buf, i, mark)
    case SHeadersAlmostDone => if c != LF then Stop(p) else Go(p.(state := SPartDataStart), true, mark, [])
    case SHeaderValueStart =>
      if c == SPACE then Go(p, true, mark, []) else ValueStep(p.(state := SHeaderValue), buf, i, i)
    case SHeaderValue => ValueStep(p, buf, i, mark)
    case SHeaderValueAlmostDone => if c != LF then Stop(p) else Go(p.(state := SHeaderFieldStart), true, mark, [])
    case SPartDataStart =>
      var n := DataStep(b, p.(state := SPartData), buf, i, i);
      n.(events := [HeadersComplete] + n.events)
    case SPartData => DataStep(b, p, buf, i, mark)
    case SPartDataAlmostBoundary =>
      if c == LF then Go(p.(state := SPartDataBoundary, look := p.look[1 := LF], index := 0), true, mark, [])
      else Go(p.(state := SPartData), false, i, [PartData(p.look[..1])])
    case SPartDataBoundary =>
      if b[p.index] != c then Go(p.(state := SPartData), false, i, [PartData(p.look[..2 + p.index])])
      else
        var q := p.(look := p.look[2 + p.index := c], index := p.index + 1);
        if q.index == |b| then Go(q.(state := SPartDataAlmostEnd), true, mark, [PartDataEnd])
        else Go(q, true, mark, [])
    case SPartDataAlmostEnd =>
      if c == HYPHEN then Go(p.(state := SPartDataFinalHyphen), true, mark, [])
      else if c == CR then Go(p.(state := SPartDataEnd), true, mark, [])
      else Stop(p)
    case SPartDataFinalHyphen =>
      if c == HYPHEN then Go(p.(state := SEnd), true, mark, [BodyEnd]) else Stop(p)
    case SPartDataEnd =>
      if c == LF then Go(p.(state := SHeaderFieldStart), true, mark, [PartDataBegin]) else Stop(p)
    case SEnd => Go(p, true, mark, [])
  }

  /** A byte is looked at again only in s_part_data, which always consumes it. */
  function Rank(s: State): nat {
    if s == SPartDataAlmostBoundary || s == SPartDataBoundary then 1 else 0
  }

  lemma MatchedMore(b: Bytes, look: Bytes, n: nat)
    requires 0 < |b| && |look| == |b| + 9 && n < |b| && look[..2 + n] == Delimiter(b)[..2 + n]
    ensures look[2 + n := b[n]][..2 + (n + 1)] == Delimiter(b)[..2 + (n + 1)]
  {
    var l := look[2 + n := b[n]];
    assert l[..2 + (n + 1)] == look[..2 + n] + [b[n]];
    assert Delimiter(b)[..2 + (n + 1)] == Delimiter(b)[..2 + n] + [b[n]];
  }

  lemma StepValid(b: Bytes, p: Parser, buf: Bytes, i: nat, mark: nat)
    requires Valid(b, p) && mark <= i < |buf|
    ensures var n := StepAt(b, p, buf, i, mark);
            && Valid(b, n.p)
            && (n.Go? ==> n.mark <= i && (!n.advance ==> Rank(n.p.state) < Rank(p.state)))
  {
    if p.state == SPartDataAlmostBoundary {
      assert p.look[1 := LF][..2] == [CR, LF] == Delimiter(b)[..2];
    } else if p.state == SPartDataBoundary {
      if b[p.index] == buf[i] {
        MatchedMore(b, p.look, p.index);
      }
      hide Delimiter;
    } else {
      hide Delimiter;
    }
  }

  // ---------------------------------------------------------------------------
  // A whole call
  // ---------------------------------------------------------------------------

  datatype Run = Run(p: Parser, consumed: nat, events: seq<Event>)

  /** The loop from position `i` with `mark` set; termination is by bytes left, then rank. */
  function Loop(b: Bytes, p: Parser, buf: Bytes, i: nat, mark: nat): (r: Run)
    requires Valid(b, p) && mark <= i <= |buf|
    ensures Valid(b, r.p) && i <= r.consumed <= |buf|
    decreases |buf| - i, Rank(p.state)
  {
    if i == |buf| then Run(p, |buf|, [])
    else
      StepValid(b, p, buf, i, mark);
      match StepAt(b, p, buf, i, mark)
      case Stop(q) => Run(q, i, [])
      case Go(q, advance, m, events) =>
        var r := Loop(b, q, buf, if advance then i + 1 else i, m);
        r.(events := events + r.events)
  }

  function Execute(b: Bytes, p: Parser, buf: Bytes): Run
    requires Valid(b, p)
  {
    Loop(b, p, buf, 0, 0)
  }
}
