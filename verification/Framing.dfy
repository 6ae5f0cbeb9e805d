/**
 The framing loop of ProtoLogic::OnRecvClientData on one connection's receive buffer, as a
 function of the buffer, and what it makes of a stream of frames cut into reads.
 */
module Framing {
  import opened Prelude
  import opened Crc32
  import opened MsgCodec

  /** Why the loop stopped.  ShortRead stands for the case in which IsWholeMsg would be asked to
      look at fewer than the four bytes it reads; the source has no defined behaviour there. */
  datatype Stop = Drained | Waiting | BadLength | BadChecksum | ShortRead

  datatype Outcome = Outcome(msgs: seq<Msg>, rest: seq<bv8>, stop: Stop)

  /** Deliver whole messages from the front of `buf` until one is incomplete, invalid or corrupt. */
  function Loop(ctx: CodecCtx, buf: seq<bv8>): Outcome
    decreases |buf|
  {
    if |buf| < LEN_FIELD then Outcome([], buf, ShortRead)
    else match IsWholeMsg(ctx, buf)
      case InvalidMsgLen => Outcome([], [], BadLength)
      case NotAWholeMsg => Outcome([], buf, Waiting)
      case WholeMsg(total) =>
        match DecodeMsg(ctx.doChecksum, buf[LEN_FIELD..LEN_FIELD + total])
        case ChecksumMismatch => Outcome([], buf, BadChecksum)
        case Decoded(m) =>
          var left := buf[LEN_FIELD + total..];
          if left == [] then Outcome([m], [], Drained)
          else
            var o := Loop(ctx, left);
            Outcome([m] + o.msgs, o.rest, o.stop)
  }

  /** The loop is looking at fewer bytes than a length field has, and refuses the length they make
      together with the bytes that happen to lie behind the buffer. */
  predicate RefusedLook(ctx: CodecCtx, o: Outcome, beyond: seq<bv8>)
    requires |beyond| >= LEN_FIELD
  {
    o.stop == ShortRead && IsWholeMsg(ctx, o.rest + beyond).InvalidMsgLen?
  }

  /** What becomes of a short look: a length that is not refused is waited for, the buffer being so short. */
  function Settled(ctx: CodecCtx, o: Outcome, beyond: seq<bv8>): Outcome
    requires |beyond| >= LEN_FIELD
  {
    if RefusedLook(ctx, o, beyond) then Outcome(o.msgs, [], BadLength)
    else if o.stop == ShortRead then o.(stop := Waiting)
    else o
  }

  /** Successive reads, each non-empty, and what lies behind the buffer at each of them. */
  predicate Reads(chunks: seq<seq<bv8>>, beyonds: seq<seq<bv8>>) {
    && |chunks| == |beyonds|
    && (forall i :: 0 <= i < |chunks| ==> chunks[i] != [])
    && (forall i :: 0 <= i < |beyonds| ==> |beyonds[i]| >= LEN_FIELD)
  }

  /** A connection fed with successive reads; once it is closed, nothing more is received. */
  function Receive(ctx: CodecCtx, buf: seq<bv8>, chunks: seq<seq<bv8>>, beyonds: seq<seq<bv8>>): Outcome
    requires Reads(chunks, beyonds)
    decreases |chunks|
  {
    if chunks == [] then Outcome([], buf, if buf == [] then Drained else Waiting)
    else
      var o := Settled(ctx, Loop(ctx, buf + chunks[0]), beyonds[0]);
      if o.stop == BadLength || chunks[1..] == [] then o
      else Prefixed(o.msgs, Receive(ctx, o.rest, chunks[1..], beyonds[1..]))
  }

  function Prefixed(msgs: seq<Msg>, o: Outcome): Outcome {
    Outcome(msgs + o.msgs, o.rest, o.stop)
  }

  // ---------------------------------------------------------------------------
  // Any bytes, cut in any way
  // ---------------------------------------------------------------------------

  /** One iteration of the loop. */
  lemma LoopUnfolded(ctx: CodecCtx, d: seq<bv8>)
    requires |d| >= LEN_FIELD
    ensures match IsWholeMsg(ctx, d)
            case InvalidMsgLen => Loop(ctx, d) == Outcome([], [], BadLength)
            case NotAWholeMsg => Loop(ctx, d) == Outcome([], d, Waiting)
            case WholeMsg(total) =>
              && MIN_TOTAL_MSG_LEN <= total && LEN_FIELD + total <= |d|
              && match DecodeMsg(ctx.doChecksum, d[LEN_FIELD..LEN_FIELD + total])
                 case ChecksumMismatch => Loop(ctx, d) == Outcome([], d, BadChecksum)
                 case Decoded(m) =>
                   var left := d[LEN_FIELD + total..];
                   Loop(ctx, d) == if left == [] then Outcome([m], [], Drained) else Prefixed([m], Loop(ctx, left))
  {
    hide DecodeMsg, GetLen;
  }

  lemma WholeMore(ctx: CodecCtx, buf: seq<bv8>, more: seq<bv8>)
    requires |buf| >= LEN_FIELD
    ensures IsWholeMsg(ctx, buf) != NotAWholeMsg ==> IsWholeMsg(ctx, buf + more) == IsWholeMsg(ctx, buf)
  {
    hide GetLen;
    assert (buf + more)[..4] == buf[..4];
    SameLen(buf + more, buf);
  }

  lemma BytesBehind(buf: seq<bv8>, more: seq<bv8>, i: nat, end: nat)
    requires i <= end <= |buf|
    ensures (buf + more)[i..end] == buf[i..end] && (buf + more)[end..] == buf[end..] + more
  {
  }

  /** The loop on more bytes: an invalid length stays where it is; otherwise the loop goes on from what
      it had left. */
  lemma {:induction false} LoopMore(ctx: CodecCtx, buf: seq<bv8>, more: seq<bv8>)
    requires buf != [] && more != []
    ensures var o := Loop(ctx, buf);
            if o.stop == BadLength then Loop(ctx, buf + more) == o
            else Loop(ctx, buf + more) == Prefixed(o.msgs, Loop(ctx, o.rest + more))
    decreases |buf|
  {
    hide DecodeMsg, IsWholeMsg, Loop;
    var p := Loop(ctx, buf + more);
    assert Prefixed([], p) == p by { assert [] + p.msgs == p.msgs; }
    if |buf| < LEN_FIELD {
      ShortLoopIs(ctx, buf);
    } else {
      LoopUnfolded(ctx, buf);
      LoopUnfolded(ctx, buf + more);
      WholeMore(ctx, buf, more);
      if IsWholeMsg(ctx, buf).WholeMsg? {
        var end := LEN_FIELD + IsWholeMsg(ctx, buf).total;
        BytesBehind(buf, more, LEN_FIELD, end);
        var left := buf[end..];
        if left == [] {
          assert left + more == more && [] + more == more;
        } else {
          LoopMore(ctx, left, more);
          PrefixedTwice(ctx, buf[LEN_FIELD..end], left, more);
        }
      }
    }
  }

  /** The message in front and the messages behind it, delivered together or one after the other. */
  lemma PrefixedTwice(ctx: CodecCtx, frame: seq<bv8>, left: seq<bv8>, more: seq<bv8>)
    requires |frame| >= MIN_TOTAL_MSG_LEN
    ensures match DecodeMsg(ctx.doChecksum, frame)
            case ChecksumMismatch => true
            case Decoded(m) =>
              var o := Loop(ctx, left);
              var p := Loop(ctx, o.rest + more);
              Prefixed([m], Prefixed(o.msgs, p)) == Prefixed(Prefixed([m], o).msgs, p)
  {
    hide DecodeMsg, Loop;
    match DecodeMsg(ctx.doChecksum, frame)
    case ChecksumMismatch =>
    case Decoded(m) =>
      var o := Loop(ctx, left);
      var p := Loop(ctx, o.rest + more);
      assert [m] + (o.msgs + p.msgs) == [m] + o.msgs + p.msgs;
  }

  /** How many reads are taken: all of them, unless a short look is refused.  A matter of the bytes
      received alone, whatever has been delivered already. */
  function ReadsTaken(ctx: CodecCtx, raw: seq<bv8>, chunks: seq<seq<bv8>>, beyonds: seq<seq<bv8>>): (k: nat)
    requires Reads(chunks, beyonds)
    ensures k <= |chunks| && (chunks != [] ==> k >= 1)
    decreases |chunks|
  {
    if chunks == [] then 0
    else if RefusedLook(ctx, Loop(ctx, raw + chunks[0]), beyonds[0]) then 1
    else 1 + ReadsTaken(ctx, raw + chunks[0], chunks[1..], beyonds[1..])
  }

  /** The bytes received with the first `k` reads. */
  function Received(raw: seq<bv8>, chunks: seq<seq<bv8>>, k: nat): seq<bv8>
    requires k <= |chunks|
  {
    raw + Flatten(chunks[..k])
  }

  lemma ReceivedStep(raw: seq<bv8>, chunks: seq<seq<bv8>>, k: nat)
    requires 1 <= k <= |chunks|
    ensures Received(raw, chunks, k) == Received(raw + chunks[0], chunks[1..], k - 1)
    ensures Received(raw, chunks, 0) == raw
  {
    assert chunks[..k][0] == chunks[0] && chunks[..k][1..] == chunks[1..][..k - 1];
    assert Flatten(chunks[..k]) == chunks[0] + Flatten(chunks[1..][..k - 1]);
    assert raw + (chunks[0] + Flatten(chunks[1..][..k - 1])) == raw + chunks[0] + Flatten(chunks[1..][..k - 1]);
    assert chunks[..0] == [];
  }

  /** No short look before the last read taken is refused, and a read is left out only after one. */
  lemma {:induction false} TakenStops(ctx: CodecCtx, raw: seq<bv8>, chunks: seq<seq<bv8>>, beyonds: seq<seq<bv8>>,
                                      i: nat)
    requires Reads(chunks, beyonds) && i < |chunks|
    ensures var k := ReadsTaken(ctx, raw, chunks, beyonds);
            && (i + 1 < k ==> !RefusedLook(ctx, Loop(ctx, Received(raw, chunks, i + 1)), beyonds[i]))
            && (i + 1 == k < |chunks| ==> RefusedLook(ctx, Loop(ctx, Received(raw, chunks, i + 1)), beyonds[i]))
    decreases |chunks|
  {
    hide Loop, RefusedLook, Received;
    ReceivedStep(raw, chunks, i + 1);
    ReceivedStep(raw, chunks, 1);
    if |chunks| > 1 { ReceivedStep(raw + chunks[0], chunks[1..], 1); }
    ReceivedNone(raw + chunks[0], chunks[1..]);
    if i > 0 {
      TakenStops(ctx, raw + chunks[0], chunks[1..], beyonds[1..], i - 1);
    }
  }

  lemma ReceivedNone(raw: seq<bv8>, chunks: seq<seq<bv8>>)
    ensures Received(raw, chunks, 0) == raw
  {
    assert chunks[..0] == [];
  }

  /** `msgs` have been delivered from `raw`, and `left` is what a receiver still keeps of it. */
  ghost predicate Behind(ctx: CodecCtx, msgs: seq<Msg>, raw: seq<bv8>, left: seq<bv8>) {
    forall more :: more != [] ==> Loop(ctx, raw + more) == Prefixed(msgs, Loop(ctx, left + more))
  }

  lemma BehindStep(ctx: CodecCtx, msgs: seq<Msg>, raw: seq<bv8>, left: seq<bv8>, c: seq<bv8>)
    requires Behind(ctx, msgs, raw, left) && c != [] && Loop(ctx, left + c).stop != BadLength
    ensures var o := Loop(ctx, left + c); Behind(ctx, msgs + o.msgs, raw + c, o.rest)
  {
    hide Loop;
    var o := Loop(ctx, left + c);
    forall more | more != [] ensures Loop(ctx, raw + c + more) == Prefixed(msgs + o.msgs, Loop(ctx, o.rest + more)) {
      LoopMore(ctx, left + c, more);
      assert raw + c + more == raw + (c + more) && left + c + more == left + (c + more);
      var p := Loop(ctx, o.rest + more);
      assert msgs + (o.msgs + p.msgs) == msgs + o.msgs + p.msgs;
    }
  }

  /** A refused length, once received, stays refused. */
  lemma BadLengthStays(ctx: CodecCtx, buf: seq<bv8>, more: seq<bv8>)
    requires buf != [] && Loop(ctx, buf).stop == BadLength
    ensures Loop(ctx, buf + more) == Loop(ctx, buf)
  {
    if more == [] { assert buf + more == buf; } else { LoopMore(ctx, buf, more); }
  }

  lemma {:induction false} ReceiveBehind(ctx: CodecCtx, msgs: seq<Msg>, raw: seq<bv8>, left: seq<bv8>,
                                         chunks: seq<seq<bv8>>, beyonds: seq<seq<bv8>>)
    requires Reads(chunks, beyonds) && chunks != [] && Behind(ctx, msgs, raw, left)
    ensures var k := ReadsTaken(ctx, raw, chunks, beyonds);
            Prefixed(msgs, Receive(ctx, left, chunks, beyonds)) ==
            Settled(ctx, Loop(ctx, Received(raw, chunks, k)), beyonds[k - 1])
    decreases |chunks|
  {
    hide Loop, Received, IsWholeMsg;
    var c, k := chunks[0], ReadsTaken(ctx, raw, chunks, beyonds);
    var o := Loop(ctx, left + c);
    assert Loop(ctx, raw + c) == Prefixed(msgs, o);
    ReceivedStep(raw, chunks, 1);
    ReceivedNone(raw + c, chunks[1..]);
    ReceivedStep(raw, chunks, k);
    if RefusedLook(ctx, o, beyonds[0]) || (chunks[1..] == [] && o.stop != BadLength) {
    } else if o.stop == BadLength {
      StillRefused(ctx, raw + c, chunks[1..], k - 1);
    } else {
      BehindStep(ctx, msgs, raw, left, c);
      hide Behind;
      ReceiveBehind(ctx, msgs + o.msgs, raw + c, o.rest, chunks[1..], beyonds[1..]);
      var p := Receive(ctx, o.rest, chunks[1..], beyonds[1..]);
      assert msgs + (o.msgs + p.msgs) == msgs + o.msgs + p.msgs;
    }
  }

  lemma StillRefused(ctx: CodecCtx, raw: seq<bv8>, chunks: seq<seq<bv8>>, k: nat)
    requires k <= |chunks| && raw != [] && Loop(ctx, raw).stop == BadLength
    ensures Loop(ctx, Received(raw, chunks, k)) == Loop(ctx, raw)
  {
    hide Loop;
    BadLengthStays(ctx, raw, Flatten(chunks[..k]));
  }

  /** For arbitrary bytes, every cut of them into reads and whatever lies behind the buffer at each:
      receiving them is running the loop once over everything the reads taken have brought. */
  lemma ReceiveIsLoop(ctx: CodecCtx, buf: seq<bv8>, chunks: seq<seq<bv8>>, beyonds: seq<seq<bv8>>)
    requires Reads(chunks, beyonds) && chunks != []
    ensures var k := ReadsTaken(ctx, buf, chunks, beyonds);
            Receive(ctx, buf, chunks, beyonds) == Settled(ctx, Loop(ctx, Received(buf, chunks, k)), beyonds[k - 1])
  {
    hide Loop, Receive, ReadsTaken, Received, Settled;
    forall more | more != [] ensures Loop(ctx, buf + more) == Prefixed([], Loop(ctx, buf + more)) {
      assert [] + Loop(ctx, buf + more).msgs == Loop(ctx, buf + more).msgs;
    }
    ReceiveBehind(ctx, [], buf, buf, chunks, beyonds);
    var o := Receive(ctx, buf, chunks, beyonds);
    assert [] + o.msgs == o.msgs;
  }

  /** Whatever the bytes, two ways of cutting them deliver the same messages, keep the same bytes and
      end alike, unless a short look was refused. */
  lemma CutsDoNotMatter(ctx: CodecCtx, buf: seq<bv8>, chunks: seq<seq<bv8>>, beyonds: seq<seq<bv8>>,
                        chunks': seq<seq<bv8>>, beyonds': seq<seq<bv8>>)
    requires Reads(chunks, beyonds) && Reads(chunks', beyonds') && Flatten(chunks) == Flatten(chunks')
    requires forall i :: 0 <= i < |chunks| ==> !RefusedLook(ctx, Loop(ctx, Received(buf, chunks, i + 1)), beyonds[i])
    requires forall i :: 0 <= i < |chunks'| ==> !RefusedLook(ctx, Loop(ctx, Received(buf, chunks', i + 1)), beyonds'[i])
    ensures Receive(ctx, buf, chunks, beyonds) == Receive(ctx, buf, chunks', beyonds')
  {
    hide Loop, Receive, RefusedLook, Received;
    AllTaken(ctx, buf, chunks, beyonds);
    AllTaken(ctx, buf, chunks', beyonds');
    NoReadsNoBytes(chunks);
    NoReadsNoBytes(chunks');
  }

  lemma NoReadsNoBytes(chunks: seq<seq<bv8>>)
    requires forall i :: 0 <= i < |chunks| ==> chunks[i] != []
    ensures Flatten(chunks) == [] <==> chunks == []
  {
  }

  /** When no short look is refused, the outcome is that of all the bytes, with a short one waited for. */
  lemma AllTaken(ctx: CodecCtx, buf: seq<bv8>, chunks: seq<seq<bv8>>, beyonds: seq<seq<bv8>>)
    requires Reads(chunks, beyonds)
    requires forall i :: 0 <= i < |chunks| ==> !RefusedLook(ctx, Loop(ctx, Received(buf, chunks, i + 1)), beyonds[i])
    ensures var o := Loop(ctx, buf + Flatten(chunks));
            Receive(ctx, buf, chunks, beyonds) ==
            if chunks == [] then Outcome([], buf, if buf == [] then Drained else Waiting)
            else if o.stop == ShortRead then o.(stop := Waiting) else o
  {
    hide Loop, RefusedLook;
    if chunks != [] {
      var k := ReadsTaken(ctx, buf, chunks, beyonds);
      TakenStops(ctx, buf, chunks, beyonds, k - 1);
      assert chunks[..|chunks|] == chunks;
      ReceiveIsLoop(ctx, buf, chunks, beyonds);
    }
  }

  // ---------------------------------------------------------------------------
  // Streams of frames
  // ---------------------------------------------------------------------------

  /** The frames of `ms` one behind the other: length fields true, checksum fields holding `sums`. */
  function Stream(ms: seq<Msg>, sums: seq<bv32>): seq<bv8>
    requires |ms| == |sums|
  {
    if ms == [] then [] else FrameWith(sums[0], ms[0]) + Stream(ms[1..], sums[1..])
  }

  /** The checksum fields the encoder sends. */
  function Sums(doChecksum: bool, ms: seq<Msg>): (sums: seq<bv32>)
    ensures |sums| == |ms|
    ensures forall i :: 0 <= i < |ms| ==> sums[i] == FrameChecksum(doChecksum, Payload(ms[i]))
  {
    seq(|ms|, i requires 0 <= i < |ms| => FrameChecksum(doChecksum, Payload(ms[i])))
  }

  function Size(m: Msg): nat {
    MIN_DATA_LEN + |m.body|
  }

  /** How many frames lie wholly within the first `n` bytes of the stream. */
  function Complete(ms: seq<Msg>, n: nat): (k: nat)
    ensures k <= |ms|
  {
    if ms == [] || n < Size(ms[0]) then 0 else 1 + Complete(ms[1..], n - Size(ms[0]))
  }

  /** How many bytes of the next frame follow them. */
  function TailLen(ms: seq<Msg>, n: nat): (t: nat)
    ensures t <= n
  {
    if ms == [] || n < Size(ms[0]) then n else TailLen(ms[1..], n - Size(ms[0]))
  }

  /** The stored checksum is one the receiver accepts. */
  predicate Intact(ctx: CodecCtx, m: Msg, sum: bv32) {
    ctx.doChecksum ==> sum == Checksum(Payload(m), 0)
  }

  /** How many frames come before the first one that is not intact. */
  function IntactPrefix(ctx: CodecCtx, ms: seq<Msg>, sums: seq<bv32>): (g: nat)
    requires |ms| == |sums|
    ensures g <= |ms|
    ensures forall i :: 0 <= i < g ==> Intact(ctx, ms[i], sums[i])
    ensures g < |ms| ==> !Intact(ctx, ms[g], sums[g])
  {
    if ms == [] || !Intact(ctx, ms[0], sums[0]) then 0 else 1 + IntactPrefix(ctx, ms[1..], sums[1..])
  }

  /** A frame that is not intact lies wholly within the first `n` bytes. */
  predicate Blocked(ctx: CodecCtx, ms: seq<Msg>, sums: seq<bv32>, n: nat)
    requires |ms| == |sums|
  {
    IntactPrefix(ctx, ms, sums) < Complete(ms, n)
  }

  /** The loop would look at a 1 to 3 byte remainder. */
  predicate ShortTail(ms: seq<Msg>, n: nat) {
    1 <= TailLen(ms, n) <= 3
  }

  ghost predicate AllInLimit(ctx: CodecCtx, ms: seq<Msg>) {
    forall i :: 0 <= i < |ms| ==> InLimit(ctx, ms[i])
  }

  lemma InFirst(ms: seq<Msg>, n: nat)
    requires ms == [] || n < Size(ms[0])
    ensures Complete(ms, n) == 0 && TailLen(ms, n) == n && ms[0..] == ms
  {
  }

  lemma PastFirst(ms: seq<Msg>, n: nat)
    requires ms != [] && n >= Size(ms[0])
    ensures Complete(ms, n) == 1 + Complete(ms[1..], n - Size(ms[0]))
    ensures TailLen(ms, n) == TailLen(ms[1..], n - Size(ms[0]))
  {
  }

  /** Where frame `h` starts. */
  function Offset(ms: seq<Msg>, h: nat): nat
    requires h <= |ms|
  {
    if h == 0 then 0 else Size(ms[0]) + Offset(ms[1..], h - 1)
  }

  lemma {:induction false} OffsetAdd(ms: seq<Msg>, k: nat, h: nat)
    requires k + h <= |ms|
    ensures Offset(ms, k + h) == Offset(ms, k) + Offset(ms[k..], h)
  {
    if k == 0 {
      assert ms[0..] == ms;
    } else {
      OffsetAdd(ms[1..], k - 1, h);
      assert ms[1..][k - 1..] == ms[k..];
    }
  }

  lemma {:induction false} StreamFrom(ms: seq<Msg>, sums: seq<bv32>, h: nat)
    requires |ms| == |sums| && h <= |ms|
    ensures |Stream(ms, sums)| == Offset(ms, h) + |Stream(ms[h..], sums[h..])|
    ensures Stream(ms, sums)[Offset(ms, h)..] == Stream(ms[h..], sums[h..])
  {
    hide FrameWith;
    if h == 0 {
      assert ms[0..] == ms && sums[0..] == sums;
    } else {
      StreamFrom(ms[1..], sums[1..], h - 1);
      assert ms[1..][h - 1..] == ms[h..] && sums[1..][h - 1..] == sums[h..];
    }
  }

  /** The unfinished tail begins where the complete frames end. */
  lemma {:induction false} TailStarts(ms: seq<Msg>, n: nat)
    ensures Offset(ms, Complete(ms, n)) == n - TailLen(ms, n)
    ensures Complete(ms, n) < |ms| ==> TailLen(ms, n) < Size(ms[Complete(ms, n)])
    decreases |ms|
  {
    if ms != [] && n >= Size(ms[0]) {
      TailStarts(ms[1..], n - Size(ms[0]));
    }
  }

  lemma OffsetBefore(ms: seq<Msg>, h: nat, n: nat)
    requires h <= Complete(ms, n)
    ensures Offset(ms, h) <= n
  {
    TailStarts(ms, n);
    OffsetAdd(ms, h, Complete(ms, n) - h);
  }

  /** How many messages have arrived in full before the first frame that is not intact. */
  function Deliverable(ctx: CodecCtx, ms: seq<Msg>, sums: seq<bv32>, n: nat): (h: nat)
    requires |ms| == |sums|
    ensures h <= |ms| && Offset(ms, h) <= n
  {
    var g, k := IntactPrefix(ctx, ms, sums), Complete(ms, n);
    var h := if g < k then g else k;
    OffsetBefore(ms, h, n);
    h
  }

  /** The messages that count as delivered: frames with the right checksum, all there, up to one that is
      not all there or has a wrong checksum. */
  lemma DeliverableExactly(ctx: CodecCtx, ms: seq<Msg>, sums: seq<bv32>, n: nat)
    requires |ms| == |sums|
    ensures var h := Deliverable(ctx, ms, sums, n);
            && (forall i :: 0 <= i < h ==> !ctx.doChecksum || sums[i] == Checksum(Payload(ms[i]), 0))
            && |Stream(ms[..h], sums[..h])| <= n
            && (h == |ms| || n < |Stream(ms[..h], sums[..h])| + 16 + |ms[h].body|
                || (ctx.doChecksum && sums[h] != Checksum(Payload(ms[h]), 0)))
  {
    hide Stream, Checksum, Payload;
    var h := Deliverable(ctx, ms, sums, n);
    TailStarts(ms, n);
    StreamFrom(ms[..h], sums[..h], h);
    NothingBehind(ms[..h], sums[..h]);
    OffsetTaken(ms, h);
    assert forall i :: 0 <= i < h ==> Intact(ctx, ms[i], sums[i]);
    assert h < Complete(ms, n) ==> !Intact(ctx, ms[h], sums[h]);
  }

  lemma {:induction false} OffsetTaken(ms: seq<Msg>, h: nat)
    requires h <= |ms|
    ensures Offset(ms[..h], h) == Offset(ms, h)
  {
    if h > 0 {
      OffsetTaken(ms[1..], h - 1);
      assert ms[..h][1..] == ms[1..][..h - 1];
    }
  }

  /** What a receiver should have made of the first `n` bytes: those messages are delivered, and
      everything behind them is still in the buffer. */
  function Expected(ctx: CodecCtx, ms: seq<Msg>, sums: seq<bv32>, n: nat): Outcome
    requires |ms| == |sums| && n <= |Stream(ms, sums)|
  {
    var h := Deliverable(ctx, ms, sums, n);
    StreamFrom(ms, sums, h);
    Outcome(ms[..h], Stream(ms[h..], sums[h..])[..n - Offset(ms, h)],
            if Blocked(ctx, ms, sums, n) then BadChecksum else if TailLen(ms, n) == 0 then Drained else Waiting)
  }

  // ---------------------------------------------------------------------------
  // The loop on a stream
  // ---------------------------------------------------------------------------

  /** A whole frame in front: it is delivered and the loop goes on behind it, or it stays for good. */
  lemma LoopPastFrame(ctx: CodecCtx, m: Msg, sum: bv32, y: seq<bv8>)
    requires InLimit(ctx, m)
    ensures var x := FrameWith(sum, m) + y;
            Loop(ctx, x) ==
            if !Intact(ctx, m, sum) then Outcome([], x, BadChecksum)
            else if y == [] then Outcome([m], [], Drained)
            else Outcome([m] + Loop(ctx, y).msgs, Loop(ctx, y).rest, Loop(ctx, y).stop)
  {
    hide FrameWith, DecodeMsg, IsWholeMsg, Checksum;
    var f := FrameWith(sum, m);
    var x := f + y;
    assert x[..|x|] == x;
    WholeFrame(ctx, sum, m, y, |x|);
    assert x[LEN_FIELD..|f|] == f[LEN_FIELD..] && x[|f|..] == y;
    DecodeFrameWith(ctx.doChecksum, sum, m);
  }

  /** Part of a frame in front: the loop waits, provided it can see the length field. */
  lemma LoopInFrame(ctx: CodecCtx, m: Msg, sum: bv32, rest: seq<bv8>, n: nat)
    requires InLimit(ctx, m) && 1 <= n < Size(m)
    ensures var x := (FrameWith(sum, m) + rest)[..n];
            Loop(ctx, x) == Outcome([], x, if n <= 3 then ShortRead else Waiting)
  {
    hide FrameWith, DecodeMsg, IsWholeMsg;
    if n >= 4 {
      WholeFrame(ctx, sum, m, rest, n);
    }
  }

  /** What is expected of a stream, told from what is expected behind its first frame. */
  lemma ExpectedPastFirst(ctx: CodecCtx, ms: seq<Msg>, sums: seq<bv32>, n: nat)
    requires |ms| == |sums| && ms != [] && Size(ms[0]) <= n <= |Stream(ms, sums)| && Intact(ctx, ms[0], sums[0])
    ensures n - Size(ms[0]) <= |Stream(ms[1..], sums[1..])|
    ensures var e := Expected(ctx, ms[1..], sums[1..], n - Size(ms[0]));
            Expected(ctx, ms, sums, n) == Outcome([ms[0]] + e.msgs, e.rest, e.stop)
    ensures Blocked(ctx, ms, sums, n) <==> Blocked(ctx, ms[1..], sums[1..], n - Size(ms[0]))
    ensures ShortTail(ms, n) <==> ShortTail(ms[1..], n - Size(ms[0]))
  {
    hide Stream, Complete, TailLen, IntactPrefix, Intact, Offset, Size;
    StreamFrom(ms, sums, 1);
    OffsetFirst(ms, 1);
    DeliverablePastFirst(ctx, ms, sums, n);
    hide Deliverable, Blocked;
    var h := Deliverable(ctx, ms, sums, n);
    OffsetFirst(ms, h);
    PastFirst(ms, n);
    DropOne(ms, sums, h);
  }

  lemma DeliverablePastFirst(ctx: CodecCtx, ms: seq<Msg>, sums: seq<bv32>, n: nat)
    requires |ms| == |sums| && ms != [] && Size(ms[0]) <= n && Intact(ctx, ms[0], sums[0])
    ensures Deliverable(ctx, ms, sums, n) == 1 + Deliverable(ctx, ms[1..], sums[1..], n - Size(ms[0]))
    ensures Blocked(ctx, ms, sums, n) <==> Blocked(ctx, ms[1..], sums[1..], n - Size(ms[0]))
  {
    PastFirst(ms, n);
    IntactFirst(ctx, ms, sums);
  }

  lemma DropOne(ms: seq<Msg>, sums: seq<bv32>, h: nat)
    requires 1 <= h <= |ms| == |sums|
    ensures ms[..h] == [ms[0]] + ms[1..][..h - 1]
    ensures ms[h..] == ms[1..][h - 1..] && sums[h..] == sums[1..][h - 1..]
  {
  }

  lemma OffsetFirst(ms: seq<Msg>, h: nat)
    requires 1 <= h <= |ms|
    ensures Offset(ms, h) == Size(ms[0]) + Offset(ms[1..], h - 1) && Offset(ms[1..], 0) == 0
  {
  }

  lemma IntactFirst(ctx: CodecCtx, ms: seq<Msg>, sums: seq<bv32>)
    requires |ms| == |sums| && ms != []
    ensures IntactPrefix(ctx, ms, sums) ==
            if Intact(ctx, ms[0], sums[0]) then 1 + IntactPrefix(ctx, ms[1..], sums[1..]) else 0
  {
  }

  /** What the loop does to the first `n` bytes of a stream of in-limit frames, for every `n`. */
  lemma {:induction false} LoopOnStream(ctx: CodecCtx, ms: seq<Msg>, sums: seq<bv32>, n: nat)
    requires |ms| == |sums|
    requires AllInLimit(ctx, ms) && 1 <= n <= |Stream(ms, sums)|
    ensures Loop(ctx, Stream(ms, sums)[..n]) ==
            if !Blocked(ctx, ms, sums, n) && ShortTail(ms, n) then Expected(ctx, ms, sums, n).(stop := ShortRead)
            else Expected(ctx, ms, sums, n)
    decreases |ms|
  {
    hide FrameWith, Loop, Intact, Expected, Blocked, ShortTail;
    var m, sum, ms', sums' := ms[0], sums[0], ms[1..], sums[1..];
    var f, s := FrameWith(sum, m), Stream(ms', sums');
    if n < |f| {
      LoopInFrame(ctx, m, sum, s, n);
      ExpectedInFirst(ctx, ms, sums, n);
    } else {
      var y := s[..n - |f|];
      assert (f + s)[..n] == f + y;
      LoopPastFrame(ctx, m, sum, y);
      if !Intact(ctx, m, sum) {
        ExpectedBlocked(ctx, ms, sums, n);
      } else {
        ExpectedPastFirst(ctx, ms, sums, n);
        if y == [] { ExpectedNothing(ctx, ms', sums'); } else { LoopOnStream(ctx, ms', sums', n - |f|); }
      }
    }
  }

  lemma ExpectedInFirst(ctx: CodecCtx, ms: seq<Msg>, sums: seq<bv32>, n: nat)
    requires |ms| == |sums|
    requires ms != [] && 1 <= n < Size(ms[0])
    ensures n <= |Stream(ms, sums)| && Expected(ctx, ms, sums, n) == Outcome([], Stream(ms, sums)[..n], Waiting)
    ensures !Blocked(ctx, ms, sums, n) && (ShortTail(ms, n) <==> n <= 3)
  {
    InFirst(ms, n);
    assert ms[..0] == [];
  }

  lemma ExpectedBlocked(ctx: CodecCtx, ms: seq<Msg>, sums: seq<bv32>, n: nat)
    requires |ms| == |sums|
    requires ms != [] && Size(ms[0]) <= n <= |Stream(ms, sums)| && !Intact(ctx, ms[0], sums[0])
    ensures Blocked(ctx, ms, sums, n) && Expected(ctx, ms, sums, n) == Outcome([], Stream(ms, sums)[..n], BadChecksum)
  {
    PastFirst(ms, n);
    assert ms[..0] == [];
  }

  lemma ExpectedNothing(ctx: CodecCtx, ms: seq<Msg>, sums: seq<bv32>)
    requires |ms| == |sums|
    ensures Expected(ctx, ms, sums, 0) == Outcome([], [], Drained) && !Blocked(ctx, ms, sums, 0) && !ShortTail(ms, 0)
  {
    assert ms[..0] == [];
  }

  // ---------------------------------------------------------------------------
  // A stream cut into reads
  // ---------------------------------------------------------------------------

  lemma ExpectedIs(ctx: CodecCtx, ms: seq<Msg>, sums: seq<bv32>, n: nat)
    requires |ms| == |sums| && n <= |Stream(ms, sums)|
    ensures var h, e := Deliverable(ctx, ms, sums, n), Expected(ctx, ms, sums, n);
            && n - Offset(ms, h) <= |Stream(ms[h..], sums[h..])|
            && e.msgs == ms[..h] && e.rest == Stream(ms[h..], sums[h..])[..n - Offset(ms, h)]
            && e.stop == (if Blocked(ctx, ms, sums, n) then BadChecksum
                          else if TailLen(ms, n) == 0 then Drained else Waiting)
  {
    hide Stream, Offset, Complete, TailLen, IntactPrefix, Deliverable, Blocked;
    StreamFrom(ms, sums, Deliverable(ctx, ms, sums, n));
  }

  /** A read that ends at offset `n`, 1 to 3 bytes into a frame the loop looks at, is refused: the bytes
      that happen to lie behind it complete its length field to an invalid length. */
  predicate Refused(ctx: CodecCtx, ms: seq<Msg>, sums: seq<bv32>, n: nat, beyond: seq<bv8>)
    requires |ms| == |sums| && n <= |Stream(ms, sums)| && |beyond| >= LEN_FIELD
  {
    && !Blocked(ctx, ms, sums, n) && ShortTail(ms, n)
    && IsWholeMsg(ctx, Expected(ctx, ms, sums, n).rest + beyond).InvalidMsgLen?
  }

  lemma SettledOnStream(ctx: CodecCtx, ms: seq<Msg>, sums: seq<bv32>, n: nat, beyond: seq<bv8>)
    requires |ms| == |sums| && AllInLimit(ctx, ms) && 1 <= n <= |Stream(ms, sums)| && |beyond| >= LEN_FIELD
    ensures RefusedLook(ctx, Loop(ctx, Stream(ms, sums)[..n]), beyond) <==> Refused(ctx, ms, sums, n, beyond)
    ensures Settled(ctx, Loop(ctx, Stream(ms, sums)[..n]), beyond) ==
            if Refused(ctx, ms, sums, n, beyond) then Outcome(Expected(ctx, ms, sums, n).msgs, [], BadLength)
            else Expected(ctx, ms, sums, n)
  {
    hide *;
    LoopOnStream(ctx, ms, sums, n);
    ExpectedIs(ctx, ms, sums, n);
    ShortIsWaiting(ctx, ms, sums, n);
    SettledCases(ctx, ms, sums, n, beyond, Loop(ctx, Stream(ms, sums)[..n]));
  }

  lemma ShortIsWaiting(ctx: CodecCtx, ms: seq<Msg>, sums: seq<bv32>, n: nat)
    requires |ms| == |sums| && n <= |Stream(ms, sums)|
    ensures !Blocked(ctx, ms, sums, n) && ShortTail(ms, n) ==> Expected(ctx, ms, sums, n).stop == Waiting
  {
    hide Stream, Blocked, Deliverable;
  }

  lemma SettledCases(ctx: CodecCtx, ms: seq<Msg>, sums: seq<bv32>, n: nat, beyond: seq<bv8>, o: Outcome)
    requires |ms| == |sums| && n <= |Stream(ms, sums)| && |beyond| >= LEN_FIELD
    requires var e, short := Expected(ctx, ms, sums, n), !Blocked(ctx, ms, sums, n) && ShortTail(ms, n);
             o == (if short then e.(stop := ShortRead) else e) && e.stop != ShortRead && (short ==> e.stop == Waiting)
    ensures RefusedLook(ctx, o, beyond) <==> Refused(ctx, ms, sums, n, beyond)
    ensures Settled(ctx, o, beyond) ==
            if Refused(ctx, ms, sums, n, beyond) then Outcome(Expected(ctx, ms, sums, n).msgs, [], BadLength)
            else Expected(ctx, ms, sums, n)
  {
    hide Stream, Blocked, Expected, ShortTail, IsWholeMsg;
  }

  /** The reads carry the first bytes of a stream. */
  ghost predicate Carries(ms: seq<Msg>, sums: seq<bv32>, chunks: seq<seq<bv8>>, n: nat)
    requires |ms| == |sums|
  {
    n <= |Stream(ms, sums)| && Flatten(chunks) == Stream(ms, sums)[..n]
  }

  /** Where read `i` ends. */
  function CutAt(chunks: seq<seq<bv8>>, i: nat): nat
    requires i < |chunks|
  {
    |Flatten(chunks[..i + 1])|
  }

  lemma CarriesPrefix(ms: seq<Msg>, sums: seq<bv32>, chunks: seq<seq<bv8>>, n: nat, i: nat)
    requires |ms| == |sums| && Carries(ms, sums, chunks, n) && i < |chunks| && chunks[0] != []
    ensures 1 <= CutAt(chunks, i) <= n && Received([], chunks, i + 1) == Stream(ms, sums)[..CutAt(chunks, i)]
    ensures i + 1 == |chunks| ==> CutAt(chunks, i) == n
  {
    hide Stream;
    var a, b := chunks[..i + 1], chunks[i + 1..];
    assert chunks == a + b && a[0] == chunks[0];
    FlattenConcat(a, b);
    if b == [] { assert Flatten(b) == []; }
    PrefixOfPrefix(Stream(ms, sums), Flatten(a), Flatten(b), n);
    assert [] + Flatten(a) == Flatten(a);
  }

  lemma PrefixOfPrefix(s: seq<bv8>, a: seq<bv8>, b: seq<bv8>, n: nat)
    requires n <= |s| && a + b == s[..n]
    ensures |a| + |b| == n && a == s[..|a|]
  {
    assert a == (a + b)[..|a|];
  }

  /** No read is refused for ending inside a length field. */
  ghost predicate NoneRefused(ctx: CodecCtx, ms: seq<Msg>, sums: seq<bv32>, chunks: seq<seq<bv8>>,
                              beyonds: seq<seq<bv8>>, n: nat)
    requires |ms| == |sums| && Reads(chunks, beyonds) && Carries(ms, sums, chunks, n)
  {
    forall i :: 0 <= i < |chunks| ==> CutAt(chunks, i) <= n && !Refused(ctx, ms, sums, CutAt(chunks, i), beyonds[i])
  }

  /** Framing, for every stream of in-limit frames, every cut of it into non-empty reads and whatever
      lies behind the buffer at each: either the messages that have arrived in full before the first
      frame whose stored checksum is not that of its payload are delivered, in order, and everything
      behind them is kept; or a read is refused, and the connection is closed with the messages up to
      that read delivered.  The first holds if and only if no read is refused. */
  lemma FramingAnyCut(ctx: CodecCtx, ms: seq<Msg>, sums: seq<bv32>, chunks: seq<seq<bv8>>, beyonds: seq<seq<bv8>>,
                      n: nat)
    requires |ms| == |sums| && AllInLimit(ctx, ms) && Reads(chunks, beyonds) && Carries(ms, sums, chunks, n)
    ensures var o := Receive(ctx, [], chunks, beyonds);
            && (o == Expected(ctx, ms, sums, n) <==> NoneRefused(ctx, ms, sums, chunks, beyonds, n))
            && (o != Expected(ctx, ms, sums, n) ==> ClosedAt(ctx, ms, sums, chunks, beyonds, n, o))
  {
    hide Loop, Receive, ReadsTaken, Stream, Expected, Refused, NoneRefused, ClosedAt, CutAt, Complete, AllInLimit;
    hide RefusedLook, Settled, Received, Flatten;
    if chunks == [] {
      NoReads(ctx, ms, sums, chunks, beyonds, n);
    } else {
      var o, k := Receive(ctx, [], chunks, beyonds), ReadsTaken(ctx, [], chunks, beyonds);
      ReceiveIsLoop(ctx, [], chunks, beyonds);
      CarriesPrefix(ms, sums, chunks, n, k - 1);
      var n' := CutAt(chunks, k - 1);
      SettledOnStream(ctx, ms, sums, n', beyonds[k - 1]);
      TakenStops(ctx, [], chunks, beyonds, k - 1);
      ExpectedIs(ctx, ms, sums, n);
      if Refused(ctx, ms, sums, n', beyonds[k - 1]) {
        RefusedCloses(ctx, ms, sums, chunks, beyonds, n, k - 1, o);
      } else {
        AllTakenNoneRefused(ctx, ms, sums, chunks, beyonds, n);
      }
    }
  }

  lemma NoReads(ctx: CodecCtx, ms: seq<Msg>, sums: seq<bv32>, chunks: seq<seq<bv8>>, beyonds: seq<seq<bv8>>, n: nat)
    requires |ms| == |sums| && Reads(chunks, beyonds) && Carries(ms, sums, chunks, n) && chunks == []
    ensures n <= |Stream(ms, sums)| && Receive(ctx, [], chunks, beyonds) == Expected(ctx, ms, sums, n)
    ensures NoneRefused(ctx, ms, sums, chunks, beyonds, n)
  {
    hide Stream, Expected, Refused;
    ExpectedNothing(ctx, ms, sums);
  }

  lemma AllTakenNoneRefused(ctx: CodecCtx, ms: seq<Msg>, sums: seq<bv32>, chunks: seq<seq<bv8>>,
                            beyonds: seq<seq<bv8>>, n: nat)
    requires |ms| == |sums| && AllInLimit(ctx, ms) && Reads(chunks, beyonds) && Carries(ms, sums, chunks, n)
    requires chunks != [] && ReadsTaken(ctx, [], chunks, beyonds) == |chunks|
    requires n >= 1 && !Refused(ctx, ms, sums, n, beyonds[|chunks| - 1])
    ensures NoneRefused(ctx, ms, sums, chunks, beyonds, n)
  {
    hide Stream, Loop, Refused, ReadsTaken, CutAt, AllInLimit, Expected, RefusedLook, Flatten;
    forall i | 0 <= i < |chunks|
      ensures CutAt(chunks, i) <= n && !Refused(ctx, ms, sums, CutAt(chunks, i), beyonds[i])
    {
      CarriesPrefix(ms, sums, chunks, n, i);
      TakenStops(ctx, [], chunks, beyonds, i);
      SettledOnStream(ctx, ms, sums, CutAt(chunks, i), beyonds[i]);
    }
  }

  /** `o` is a connection closed at some refused read. */
  ghost predicate ClosedAt(ctx: CodecCtx, ms: seq<Msg>, sums: seq<bv32>, chunks: seq<seq<bv8>>,
                           beyonds: seq<seq<bv8>>, n: nat, o: Outcome)
    requires |ms| == |sums| && Reads(chunks, beyonds) && Carries(ms, sums, chunks, n)
  {
    exists i :: 0 <= i < |chunks| && CutAt(chunks, i) <= n && Refused(ctx, ms, sums, CutAt(chunks, i), beyonds[i])
                && o == Outcome(ms[..Complete(ms, CutAt(chunks, i))], [], BadLength)
  }

  lemma RefusedCloses(ctx: CodecCtx, ms: seq<Msg>, sums: seq<bv32>, chunks: seq<seq<bv8>>, beyonds: seq<seq<bv8>>,
                      n: nat, i: nat, o: Outcome)
    requires |ms| == |sums| && Reads(chunks, beyonds) && Carries(ms, sums, chunks, n)
    requires i < |chunks| && CutAt(chunks, i) <= n && Refused(ctx, ms, sums, CutAt(chunks, i), beyonds[i])
    requires o == Outcome(Expected(ctx, ms, sums, CutAt(chunks, i)).msgs, [], BadLength)
    ensures ClosedAt(ctx, ms, sums, chunks, beyonds, n, o) && !NoneRefused(ctx, ms, sums, chunks, beyonds, n)
  {
    hide Stream, Complete, TailLen, IntactPrefix, Offset, IsWholeMsg;
  }

  /** When the reads carry the whole stream, all messages are delivered if and only if no read is refused
      and checksums are off or every stored checksum is right; and unless a read is refused, exactly
      those before the first wrong one are. */
  lemma DeliversAllIffIntact(ctx: CodecCtx, ms: seq<Msg>, sums: seq<bv32>, chunks: seq<seq<bv8>>,
                             beyonds: seq<seq<bv8>>)
    requires |ms| == |sums| && AllInLimit(ctx, ms) && Reads(chunks, beyonds)
    requires Carries(ms, sums, chunks, |Stream(ms, sums)|)
    ensures var o := Receive(ctx, [], chunks, beyonds);
            var none := NoneRefused(ctx, ms, sums, chunks, beyonds, |Stream(ms, sums)|);
            && (none ==> o.msgs == ms[..IntactPrefix(ctx, ms, sums)])
            && (o.msgs == ms <==>
                none && (!ctx.doChecksum || forall i :: 0 <= i < |ms| ==> sums[i] == Checksum(Payload(ms[i]), 0)))
            && (o.msgs == ms <==> o == Outcome(ms, [], Drained))
  {
    hide *;
    var n, g := |Stream(ms, sums)|, IntactPrefix(ctx, ms, sums);
    FramingAnyCut(ctx, ms, sums, chunks, beyonds, n);
    ExpectedAll(ctx, ms, sums);
    AllIntactIff(ctx, ms, sums);
    assert g < |ms| ==> |ms[..g]| < |ms|;
    assert ms[..|ms|] == ms;
    var o := Receive(ctx, [], chunks, beyonds);
    if o != Expected(ctx, ms, sums, n) {
      ClosedIsShort(ctx, ms, sums, chunks, beyonds, n, o);
    }
  }

  /** A connection closed inside a frame has not delivered that frame. */
  lemma ClosedIsShort(ctx: CodecCtx, ms: seq<Msg>, sums: seq<bv32>, chunks: seq<seq<bv8>>, beyonds: seq<seq<bv8>>,
                      n: nat, o: Outcome)
    requires |ms| == |sums| && Reads(chunks, beyonds) && Carries(ms, sums, chunks, n)
    requires ClosedAt(ctx, ms, sums, chunks, beyonds, n, o)
    ensures |o.msgs| < |ms|
  {
    hide Stream, IsWholeMsg, Expected, Blocked, Complete, TailLen;
    var i :| 0 <= i < |chunks| && CutAt(chunks, i) <= n && Refused(ctx, ms, sums, CutAt(chunks, i), beyonds[i])
             && o == Outcome(ms[..Complete(ms, CutAt(chunks, i))], [], BadLength);
    TailIsInFrame(ms, sums, CutAt(chunks, i));
  }

  lemma TailIsInFrame(ms: seq<Msg>, sums: seq<bv32>, n: nat)
    requires |ms| == |sums| && n <= |Stream(ms, sums)| && TailLen(ms, n) > 0
    ensures Complete(ms, n) < |ms|
  {
    hide Stream, Complete, TailLen, Offset;
    TailStarts(ms, n);
    StreamFrom(ms, sums, Complete(ms, n));
    NothingBehind(ms, sums);
  }

  lemma NothingBehind(ms: seq<Msg>, sums: seq<bv32>)
    requires |ms| == |sums|
    ensures Stream(ms[|ms|..], sums[|ms|..]) == []
  {
  }

  lemma AllIntactIff(ctx: CodecCtx, ms: seq<Msg>, sums: seq<bv32>)
    requires |ms| == |sums|
    ensures IntactPrefix(ctx, ms, sums) == |ms| <==>
            !ctx.doChecksum || forall i :: 0 <= i < |ms| ==> sums[i] == Checksum(Payload(ms[i]), 0)
  {
    hide Checksum, Payload;
    var g := IntactPrefix(ctx, ms, sums);
    if g < |ms| { assert !Intact(ctx, ms[g], sums[g]); }
  }

  lemma ExpectedAll(ctx: CodecCtx, ms: seq<Msg>, sums: seq<bv32>)
    requires |ms| == |sums|
    ensures var e, g := Expected(ctx, ms, sums, |Stream(ms, sums)|), IntactPrefix(ctx, ms, sums);
            e.msgs == ms[..g] && (g == |ms| ==> e.rest == [] && e.stop == Drained)
  {
    hide Stream, Offset, Complete, TailLen;
    AllComplete(ms, sums);
    TailStarts(ms, |Stream(ms, sums)|);
  }

  lemma {:induction false} AllComplete(ms: seq<Msg>, sums: seq<bv32>)
    requires |ms| == |sums|
    ensures Complete(ms, |Stream(ms, sums)|) == |ms| && TailLen(ms, |Stream(ms, sums)|) == 0
  {
    hide FrameWith;
    if ms != [] {
      AllComplete(ms[1..], sums[1..]);
    }
  }

  /** What the encoder sends is intact, so all of it arrives, with checksums on or off and whatever lies
      behind the buffer, if no read ends 1 to 3 bytes into a frame. */
  lemma FramingComplete(ctx: CodecCtx, ms: seq<Msg>, chunks: seq<seq<bv8>>, beyonds: seq<seq<bv8>>)
    requires AllInLimit(ctx, ms) && Reads(chunks, beyonds)
    requires Flatten(chunks) == Stream(ms, Sums(ctx.doChecksum, ms))
    requires forall i :: 0 <= i < |chunks| ==> !ShortTail(ms, CutAt(chunks, i))
    ensures Receive(ctx, [], chunks, beyonds) == Outcome(ms, [], Drained)
  {
    hide Loop, Receive, Stream, Reads, ShortTail, CutAt, Flatten;
    var sums := Sums(ctx.doChecksum, ms);
    var s := Stream(ms, sums);
    assert s[..|s|] == s;
    forall i | 0 <= i < |chunks| ensures CutAt(chunks, i) <= |s| {
      NonEmptyFirst(chunks, beyonds);
      CarriesPrefix(ms, sums, chunks, |s|, i);
    }
    WellCut(ctx, ms, sums, chunks, beyonds, |s|);
    DeliversAllIffIntact(ctx, ms, sums, chunks, beyonds);
  }

  lemma NonEmptyFirst(chunks: seq<seq<bv8>>, beyonds: seq<seq<bv8>>)
    requires Reads(chunks, beyonds) && chunks != []
    ensures chunks[0] != []
  {
  }

  lemma WellCut(ctx: CodecCtx, ms: seq<Msg>, sums: seq<bv32>, chunks: seq<seq<bv8>>, beyonds: seq<seq<bv8>>, n: nat)
    requires |ms| == |sums| && Reads(chunks, beyonds) && Carries(ms, sums, chunks, n)
    requires forall i :: 0 <= i < |chunks| ==> CutAt(chunks, i) <= n && !ShortTail(ms, CutAt(chunks, i))
    ensures NoneRefused(ctx, ms, sums, chunks, beyonds, n)
  {
    hide Stream, CutAt, ShortTail;
  }

  // ---------------------------------------------------------------------------
  // Reads that end inside a length field
  // ---------------------------------------------------------------------------

  /** What the missing bytes of a length field are worth: one, two or three of them. */
  function Missing(i: nat): nat
    requires 1 <= i <= 3
  {
    if i == 3 then 0x100 else if i == 2 then 0x1_0000 else 0x100_0000
  }

  /** The value of the first 4 - i bytes of `beyond`. */
  function LowPart(beyond: seq<bv8>, i: nat): nat
    requires 1 <= i <= 3 && |beyond| >= LEN_FIELD
  {
    if i == 3 then beyond[0] as nat
    else if i == 2 then beyond[0] as nat * 0x100 + beyond[1] as nat
    else beyond[0] as nat * 0x1_0000 + beyond[1] as nat * 0x100 + beyond[2] as nat
  }

  /** The length seen when only `i` bytes of the length field of `n` are there: the missing bytes are
      those that happen to lie behind the buffer. */
  lemma SeenLength(n: nat, i: nat, beyond: seq<bv8>)
    requires n < WORD_LIMIT && 1 <= i <= 3 && |beyond| >= LEN_FIELD
    ensures GetLen(PutLen(n)[..i] + beyond) == n - n % Missing(i) + LowPart(beyond, i)
  {
    hide PutLen, GetLen;
    var f := PutLen(n);
    var x := f[..i] + beyond;
    LenFieldBytes(n);
    LenOf(x);
    Parts(n);
    match i
    case 1 => assert x[0] == f[0] && x[1] == beyond[0] && x[2] == beyond[1] && x[3] == beyond[2];
    case 2 => assert x[0] == f[0] && x[1] == f[1] && x[2] == beyond[0] && x[3] == beyond[1];
    case 3 => assert x[0] == f[0] && x[1] == f[1] && x[2] == f[2] && x[3] == beyond[0];
  }

  lemma LenOf(x: seq<bv8>)
    requires |x| >= 4
    ensures GetLen(x) == x[0] as nat * 0x100_0000 + x[1] as nat * 0x1_0000 + x[2] as nat * 0x100 + x[3] as nat
  {
  }

  lemma Parts(n: nat)
    requires n < WORD_LIMIT
    ensures n - n % 0x100_0000 == (n / 0x100_0000) % 256 * 0x100_0000
    ensures n - n % 0x1_0000 == (n / 0x100_0000) % 256 * 0x100_0000 + (n / 0x1_0000) % 256 * 0x1_0000
    ensures n - n % 0x100 ==
            (n / 0x100_0000) % 256 * 0x100_0000 + (n / 0x1_0000) % 256 * 0x1_0000 + (n / 0x100) % 256 * 0x100
  {
    LenDigits(n);
    Remainders(n);
    assert n % WORD_LIMIT == n;
  }

  lemma LenFieldBytes(n: nat)
    ensures PutLen(n)[0] as nat == (n / 0x100_0000) % 256
    ensures PutLen(n)[1] as nat == (n / 0x1_0000) % 256
    ensures PutLen(n)[2] as nat == (n / 0x100) % 256
  {
    ByteValue((n / 0x100_0000) % 256);
    ByteValue((n / 0x1_0000) % 256);
    ByteValue((n / 0x100) % 256);
  }

  lemma Remainders(n: nat)
    ensures n % 0x1_0000 == (n / 0x100) % 256 * 0x100 + n % 256
    ensures n % 0x100_0000 == (n / 0x1_0000) % 256 * 0x1_0000 + (n / 0x100) % 256 * 0x100 + n % 256
  {
    var a, b := n / 0x100, n / 0x1_0000;
    DigitUp(n, 0x100);
    DigitUp(n, 0x1_0000);
    assert n == 256 * a + n % 256 && a == 256 * b + a % 256 && b == 256 * (n / 0x100_0000) + b % 256;
  }

  /** A frame cut after its first `i` bytes: the connection is closed if and only if the length seen is
      out of range. */
  lemma ShortCut(ctx: CodecCtx, m: Msg, sum: bv32, i: nat, beyond: seq<bv8>)
    requires InLimit(ctx, m) && 1 <= i <= 3 && |beyond| >= LEN_FIELD
    ensures var x, n := FrameWith(sum, m)[..i], MIN_TOTAL_MSG_LEN + |m.body|;
            var seen := n - n % Missing(i) + LowPart(beyond, i);
            Settled(ctx, Loop(ctx, x), beyond) ==
            if MIN_TOTAL_MSG_LEN <= seen <= MIN_TOTAL_MSG_LEN + ctx.maxBodyLen then Outcome([], x, Waiting)
            else Outcome([], [], BadLength)
  {
    var n := MIN_TOTAL_MSG_LEN + |m.body|;
    var x := FrameWith(sum, m)[..i];
    assert x == PutLen(n)[..i];
    hide PutLen, GetLen, FrameWith;
    SeenLength(n, i, beyond);
  }

  /** The string that holds the buffer ends in a zero byte, so a read that ends three bytes into a frame
      always shows the length without its last byte: the connection is closed if and only if the length
      is below 256. */
  lemma ThirdByteCut(ctx: CodecCtx, m: Msg, sum: bv32, beyond: seq<bv8>)
    requires InLimit(ctx, m) && |beyond| >= LEN_FIELD && beyond[0] == 0
    ensures var x := FrameWith(sum, m)[..3];
            Settled(ctx, Loop(ctx, x), beyond) ==
            if MIN_TOTAL_MSG_LEN + |m.body| < 256 then Outcome([], [], BadLength) else Outcome([], x, Waiting)
  {
    hide Settled, Loop, FrameWith;
    ShortCut(ctx, m, sum, 3, beyond);
  }

  /** The same inside a stream: a read that ends three bytes into a frame is refused if and only if that
      frame's length is below 256. */
  lemma ThirdByteRefused(ctx: CodecCtx, ms: seq<Msg>, sums: seq<bv32>, n: nat, beyond: seq<bv8>)
    requires |ms| == |sums| && AllInLimit(ctx, ms) && n <= |Stream(ms, sums)| && |beyond| >= LEN_FIELD && beyond[0] == 0
    requires !Blocked(ctx, ms, sums, n) && TailLen(ms, n) == 3
    ensures Complete(ms, n) < |ms|
    ensures Refused(ctx, ms, sums, n, beyond) <==> MIN_TOTAL_MSG_LEN + |ms[Complete(ms, n)].body| < 256
  {
    hide Stream, Complete, TailLen, Offset, IntactPrefix, Loop, FrameWith, IsWholeMsg;
    var k := Complete(ms, n);
    TailIsInFrame(ms, sums, n);
    TailStarts(ms, n);
    ExpectedIs(ctx, ms, sums, n);
    FrontOfStream(ms[k..], sums[k..], 3);
    ThirdByteCut(ctx, ms[k], sums[k], beyond);
    ShortLoopIs(ctx, FrameWith(sums[k], ms[k])[..3]);
  }

  lemma FrontOfStream(ms: seq<Msg>, sums: seq<bv32>, i: nat)
    requires |ms| == |sums| && ms != [] && i <= Size(ms[0])
    ensures i <= |Stream(ms, sums)| && Stream(ms, sums)[..i] == FrameWith(sums[0], ms[0])[..i]
  {
    hide FrameWith;
  }

  lemma ShortLoopIs(ctx: CodecCtx, x: seq<bv8>)
    requires |x| < LEN_FIELD
    ensures Loop(ctx, x) == Outcome([], x, ShortRead)
  {
  }

  // ---------------------------------------------------------------------------
  // Frames damaged on the way
  // ---------------------------------------------------------------------------

  /** A frame with a wrong checksum is answered but never removed from the buffer: whatever else
      arrives, it is answered again. */
  lemma CorruptFrameBlocks(ctx: CodecCtx, buf: seq<bv8>, more: seq<bv8>)
    requires Loop(ctx, buf) == Outcome([], buf, BadChecksum)
    ensures Loop(ctx, buf + more) == Outcome([], buf + more, BadChecksum)
  {
    hide DecodeMsg, GetLen;
    assert (buf + more)[..4] == buf[..4];
    SameLen(buf + more, buf);
    var total := GetLen(buf);
    assert (buf + more)[LEN_FIELD..LEN_FIELD + total] == buf[LEN_FIELD..LEN_FIELD + total];
  }

  lemma {:induction false} CorruptFrameBlocksForever(ctx: CodecCtx, buf: seq<bv8>, chunks: seq<seq<bv8>>,
                                                     beyonds: seq<seq<bv8>>)
    requires Loop(ctx, buf) == Outcome([], buf, BadChecksum) && Reads(chunks, beyonds)
    ensures chunks != [] ==> Receive(ctx, buf, chunks, beyonds) == Outcome([], buf + Flatten(chunks), BadChecksum)
    decreases |chunks|
  {
    hide Loop;
    if chunks != [] {
      CorruptFrameBlocks(ctx, buf, chunks[0]);
      CorruptFrameBlocksForever(ctx, buf + chunks[0], chunks[1..], beyonds[1..]);
      assert buf + chunks[0] + Flatten(chunks[1..]) == buf + Flatten(chunks);
    }
  }

  /** `bad` is the frame of `m` with a non-empty change within four consecutive bytes behind its
      checksum field. */
  ghost predicate ChangedWithinFour(m: Msg, bad: seq<bv8>, first: nat) {
    && |bad| == |Frame(true, m)| && bad != Frame(true, m) && first >= LEN_FIELD + CHECKSUM_FIELD
    && forall k :: 0 <= k < |bad| && bad[k] != Frame(true, m)[k] ==> first <= k < first + 4
  }

  /** Every such frame blocks its connection for good: whatever was queued behind it and whatever is
      read later, nothing more is delivered. */
  lemma ChangedFrameBlocks(ctx: CodecCtx, m: Msg, bad: seq<bv8>, first: nat, rest: seq<bv8>,
                           chunks: seq<seq<bv8>>, beyonds: seq<seq<bv8>>)
    requires ctx.doChecksum && InLimit(ctx, m) && ChangedWithinFour(m, bad, first) && Reads(chunks, beyonds)
    ensures Loop(ctx, bad + rest) == Outcome([], bad + rest, BadChecksum)
    ensures chunks != [] ==>
              Receive(ctx, bad + rest, chunks, beyonds) == Outcome([], bad + rest + Flatten(chunks), BadChecksum)
  {
    hide Loop, Receive;
    ChangedFrameStops(ctx, m, bad, first);
    CorruptFrameBlocks(ctx, bad, rest);
    CorruptFrameBlocksForever(ctx, bad + rest, chunks, beyonds);
  }

  lemma ChangedFrameStops(ctx: CodecCtx, m: Msg, bad: seq<bv8>, first: nat)
    requires ctx.doChecksum && InLimit(ctx, m) && ChangedWithinFour(m, bad, first)
    ensures Loop(ctx, bad) == Outcome([], bad, BadChecksum)
  {
    hide Frame, DecodeMsg, GetLen, IsWholeMsg, FrameChecksum;
    var f := Frame(true, m);
    var b := bad[LEN_FIELD..];
    ChangedFrameIsWhole(ctx, m, bad);
    ChangeBehind(f, bad, first, LEN_FIELD);
    FourByteChangeRejected(m, b, first - LEN_FIELD);
    assert bad[LEN_FIELD..|bad|] == b;
  }

  lemma ChangeBehind(f: seq<bv8>, bad: seq<bv8>, first: nat, at: nat)
    requires |bad| == |f| && bad != f && at <= first && at <= |f|
    requires forall k :: 0 <= k < |bad| && bad[k] != f[k] ==> first <= k < first + 4
    ensures bad[at..] != f[at..]
    ensures forall k :: 0 <= k < |bad[at..]| && bad[at..][k] != f[at..][k] ==> first - at <= k < first - at + 4
  {
    assert bad[..at] == f[..at];
    assert bad == bad[..at] + bad[at..] && f == f[..at] + f[at..];
  }

  /** The change is behind the length field. */
  lemma ChangedFrameIsWhole(ctx: CodecCtx, m: Msg, bad: seq<bv8>)
    requires InLimit(ctx, m) && |bad| == |Frame(true, m)|
    requires forall k :: 0 <= k < LEN_FIELD ==> bad[k] == Frame(true, m)[k]
    ensures IsWholeMsg(ctx, bad) == WholeMsg(MIN_TOTAL_MSG_LEN + |m.body|)
  {
    hide Frame, FrameWith, GetLen;
    var f, stored := Frame(true, m), FrameChecksum(true, Payload(m));
    FrameIs(true, m);
    assert f + [] == f && f[..|f|] == f;
    WholeFrame(ctx, stored, m, [], |f|);
    assert bad[..4] == f[..4];
    SameLen(bad, f);
  }

  lemma FrameIs(sum: bool, m: Msg)
    ensures Frame(sum, m) == FrameWith(FrameChecksum(sum, Payload(m)), m)
  {
  }
}
