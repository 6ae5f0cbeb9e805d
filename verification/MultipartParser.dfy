/**
 The parser object: one loop over the chunk that updates state, index and the lookbehind buffer in
 place and steps back one byte when a partial delimiter match fails.
 */
module MultipartParser {
  import opened Multipart

  class MultipartParser {
    const boundary: Bytes
    const lookbehind: array<Byte>
    var state: State
    var index: nat
    ghost var trace: seq<Event>

    ghost function Now(): Parser
      reads this, lookbehind
    {
      Parser(state, index, lookbehind[..])
    }

    ghost predicate Ok()
      reads this, lookbehind
    {
      Valid(boundary, Now())
    }

    constructor (boundary: Bytes)
      requires boundary != []
      ensures Ok() && this.boundary == boundary && state == SStart && index == 0 && trace == [] && fresh(lookbehind)
    {
      this.boundary := boundary;
      lookbehind := new Byte[|boundary| + 9](i => 0);
      state, index, trace := SStart, 0, [];
    }

    /** The state s_start_boundary. */
    method BoundaryByte(c: Byte) returns (stop: bool)
      requires Ok() && index <= |boundary| + 1
      modifies this`state, this`index, this`trace
      ensures var n := BoundaryStep(boundary, old(Now()), c, 0);
              stop == n.Stop? && Now() == n.p && trace == if n.Stop? then old(trace) else old(trace) + n.events
    {
      stop := false;
      if index == |boundary| {
        if c != CR { return true; }
        index := index + 1;
      } else if index == |boundary| + 1 {
        if c != LF { return true; }
        index := 0;
        trace := trace + [PartDataBegin];
        state := SHeaderFieldStart;
      } else {
        if c != boundary[index] { return true; }
        index := index + 1;
      }
    }

    /** The state s_header_field. */
    method FieldByte(buf: Bytes, i: nat, mark: nat) returns (stop: bool)
      requires mark <= i < |buf|
      modifies this`state, this`trace
      ensures var n := FieldStep(old(Now()), buf, i, mark);
              stop == n.Stop? && Now() == n.p && trace == if n.Stop? then old(trace) else old(trace) + n.events
    {
      var c, isLast := buf[i], i == |buf| - 1;
      stop := false;
      if c == CR {
        state := SHeadersAlmostDone;
      } else if c == COLON {
        trace := trace + [HeaderField(buf[mark..i])];
        state := SHeaderValueStart;
      } else if !NameChar(c) {
        stop := true;
      } else if isLast {
        trace := trace + [HeaderField(buf[mark..i + 1])];
      }
    }

    /** The state s_header_value. */
    method ValueByte(buf: Bytes, i: nat, mark: nat)
      requires mark <= i < |buf|
      modifies this`state, this`trace
      ensures var n := ValueStep(old(Now()), buf, i, mark);
              Now() == n.p && trace == old(trace) + n.events
    {
      if buf[i] == CR {
        trace := trace + [HeaderValue(buf[mark..i])];
        state := SHeaderValueAlmostDone;
      } else if i == |buf| - 1 {
        trace := trace + [HeaderValue(buf[mark..i + 1])];
      }
    }

    /** The state s_part_data. */
    method DataByte(buf: Bytes, i: nat, mark: nat) returns (newMark: nat)
      requires Ok() && mark <= i < |buf|
      modifies this`state, this`trace, lookbehind
      ensures var n := DataStep(boundary, old(Now()), buf, i, mark);
              Now() == n.p && trace == old(trace) + n.events && newMark == n.mark
    {
      newMark := mark;
      if buf[i] == CR {
        trace := trace + [PartData(buf[mark..i])];
        newMark := i;
        state := SPartDataAlmostBoundary;
        lookbehind[0] := CR;
      } else if i == |buf| - 1 {
        trace := trace + [PartData(buf[mark..i + 1])];
      }
    }

    /** The states that match the delimiter. */
    method MatchByte(c: Byte, i: nat, mark: nat) returns (advance: bool, newMark: nat)
      requires Ok() && (state == SPartDataAlmostBoundary || state == SPartDataBoundary)
      modifies this`state, this`index, this`trace, lookbehind
      ensures forall buf: Bytes :: mark <= i < |buf| && buf[i] == c ==>
                var n := StepAt(boundary, old(Now()), buf, i, mark);
                n.Go? && Now() == n.p && trace == old(trace) + n.events && advance == n.advance && newMark == n.mark
    {
      advance, newMark := true, mark;
      if state == SPartDataAlmostBoundary {
        if c == LF {
          state := SPartDataBoundary;
          lookbehind[1] := LF;
          index := 0;
          return;
        }
        trace := trace + [PartData(lookbehind[..1])];
      } else {
        if boundary[index] == c {
          lookbehind[2 + index] := c;
          index := index + 1;
          if index == |boundary| {
            trace := trace + [PartDataEnd];
            state := SPartDataAlmostEnd;
          }
          return;
        }
        trace := trace + [PartData(lookbehind[..2 + index])];
      }
      state := SPartData;
      advance, newMark := false, i;
    }

    /** One pass through the switch. */
    method Switch(buf: Bytes, i: nat, mark: nat) returns (stop: bool, advance: bool, newMark: nat)
      requires Ok() && mark <= i < |buf|
      modifies this, lookbehind
      ensures var n := StepAt(boundary, old(Now()), buf, i, mark);
              && stop == n.Stop? && Now() == n.p
              && (n.Go? ==> trace == old(trace) + n.events && advance == n.advance && newMark == n.mark)
              && (n.Stop? ==> trace == old(trace))
    {
      hide Valid;
      var c := buf[i];
      stop, advance, newMark := false, true, mark;
      match state {
        case SStart =>
          index, state := 0, SStartBoundary;
          StartValid(boundary, old(Now()));
          stop := BoundaryByte(c);
        case SStartBoundary =>
          BoundaryIndex(boundary, Now());
          stop := BoundaryByte(c);
        case SHeaderFieldStart =>
          newMark := i;
          state := SHeaderField;
          stop := FieldByte(buf, i, newMark);
        case SHeaderField =>
          stop := FieldByte(buf, i, mark);
        case SHeadersAlmostDone =>
          if c != LF { stop := true; } else { state := SPartDataStart; }
        case SHeaderValueStart =>
          if c != SPACE {
            newMark := i;
            state := SHeaderValue;
            ValueByte(buf, i, newMark);
          }
        case SHeaderValue =>
          ValueByte(buf, i, mark);
        case SHeaderValueAlmostDone =>
          if c != LF { stop := true; } else { state := SHeaderFieldStart; }
        case SPartDataStart =>
          trace := trace + [HeadersComplete];
          state := SPartData;
          DataValid(boundary, old(Now()));
          newMark := DataByte(buf, i, i);
        case SPartData =>
          newMark := DataByte(buf, i, mark);
        case SPartDataAlmostBoundary =>
          advance, newMark := MatchByte(c, i, mark);
        case SPartDataBoundary =>
          advance, newMark := MatchByte(c, i, mark);
        case SPartDataAlmostEnd =>
          if c == HYPHEN {
            state := SPartDataFinalHyphen;
          } else if c == CR {
            state := SPartDataEnd;
          } else {
            stop := true;
          }
        case SPartDataFinalHyphen =>
          if c == HYPHEN {
            trace := trace + [BodyEnd];
            state := SEnd;
          } else {
            stop := true;
          }
        case SPartDataEnd =>
          if c == LF {
            state := SHeaderFieldStart;
            trace := trace + [PartDataBegin];
          } else {
            stop := true;
          }
        case SEnd =>
      }
    }

    /** Parse one chunk; the result is how many of its bytes were accepted. */
    method Parse(buf: Bytes) returns (consumed: nat)
      requires Ok()
      modifies this, lookbehind
      ensures Ok()
      ensures var r := Execute(boundary, old(Now()), buf);
              Now() == r.p && consumed == r.consumed && trace == old(trace) + r.events
    {
      hide Valid, StepAt, Rank;
      var i: nat, mark: nat := 0, 0;
      ghost var all := Execute(boundary, Now(), buf);
      ghost var sofar: seq<Event> := [];
      while i < |buf|
        invariant Ok() && mark <= i <= |buf|
        invariant trace == old(trace) + sofar
        invariant all == Prefixed(sofar, Loop(boundary, Now(), buf, i, mark))
        decreases |buf| - i, Rank(state)
      {
        ghost var p := Now();
        StepValid(boundary, p, buf, i, mark);
        LoopStep(boundary, p, buf, i, mark, sofar);
        var stop, advance, newMark := Switch(buf, i, mark);
        if stop {
          return i;
        }
        sofar := sofar + StepAt(boundary, p, buf, i, mark).events;
        mark := newMark;
        if advance {
          i := i + 1;
        }
      }
      consumed := |buf|;
    }
  }

  function Prefixed(events: seq<Event>, r: Run): Run {
    r.(events := events + r.events)
  }

  lemma LoopStep(b: Bytes, p: Parser, buf: Bytes, i: nat, mark: nat, sofar: seq<Event>)
    requires Valid(b, p) && mark <= i < |buf|
    ensures match StepAt(b, p, buf, i, mark)
            case Stop(q) => Loop(b, p, buf, i, mark) == Run(q, i, [])
            case Go(q, advance, m, events) =>
              && Valid(b, q) && m <= i
              && Prefixed(sofar, Loop(b, p, buf, i, mark)) ==
                 Prefixed(sofar + events, Loop(b, q, buf, if advance then i + 1 else i, m))
  {
    StepValid(b, p, buf, i, mark);
    hide StepAt, Valid;
    match StepAt(b, p, buf, i, mark)
    case Stop(q) =>
    case Go(q, advance, m, events) =>
      var r := Loop(b, q, buf, if advance then i + 1 else i, m);
      assert sofar + (events + r.events) == sofar + events + r.events;
  }

  lemma StartValid(b: Bytes, p: Parser)
    requires Valid(b, p) && p.state == SStart
    ensures Valid(b, p.(index := 0, state := SStartBoundary))
  {
  }

  lemma DataValid(b: Bytes, p: Parser)
    requires Valid(b, p)
    ensures Valid(b, p.(state := SPartData))
  {
  }

  lemma BoundaryIndex(b: Bytes, p: Parser)
    requires Valid(b, p) && p.state == SStartBoundary
    ensures p.index <= |b| + 1
  {
  }
}
