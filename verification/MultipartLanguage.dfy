/**
 Exactly which inputs the parser takes to s_end: the language is described on the bytes alone, by
 searching forward, and knows nothing of states, marks or lookbehind.
 */
module MultipartLanguage {
  import opened Prelude
  import opened Multipart
  import opened MultipartChunks
  import opened MultipartSearch
  import opened MultipartRoundTrip

  // ---------------------------------------------------------------------------
  // Refused bytes
  // ---------------------------------------------------------------------------

  /** The byte at which a call stops, state by state: everything else is accepted. */
  lemma RefusedBytes(b: Bytes, p: Parser, buf: Bytes, i: nat, mark: nat)
    requires Valid(b, p) && mark <= i < |buf|
    ensures var c, refused := buf[i], StepAt(b, p, buf, i, mark).Stop?;
            match p.state
            case SStart => refused <==> c != b[0]
            case SStartBoundary =>
              refused <==> c != if p.index < |b| then b[p.index] else if p.index == |b| then 13 else 10
            case SHeaderFieldStart =>
              refused <==> !(c == 13 || c == 58 || c == 45 || 65 <= c <= 90 || 97 <= c <= 122)
            case SHeaderField =>
              refused <==> !(c == 13 || c == 58 || c == 45 || 65 <= c <= 90 || 97 <= c <= 122)
            case SHeadersAlmostDone => refused <==> c != 10
            case SHeaderValueAlmostDone => refused <==> c != 10
            case SPartDataAlmostEnd => refused <==> c != 45 && c != 13
            case SPartDataFinalHyphen => refused <==> c != 45
            case SPartDataEnd => refused <==> c != 10
            case _ => !refused
  {
  }

  // ---------------------------------------------------------------------------
  // The language
  // ---------------------------------------------------------------------------

  /** How many letters and hyphens the bytes begin with. */
  function NameRun(x: Bytes): (k: nat)
    ensures k <= |x|
    ensures forall i :: 0 <= i < k ==> x[i] == 45 || 65 <= x[i] <= 90 || 97 <= x[i] <= 122
    ensures k < |x| ==> !(x[k] == 45 || 65 <= x[k] <= 90 || 97 <= x[k] <= 122)
  {
    if x != [] && (x[0] == 45 || 65 <= x[0] <= 90 || 97 <= x[0] <= 122) then 1 + NameRun(x[1..]) else 0
  }

  /** How many bytes come before the first CR. */
  function ToCR(x: Bytes): (k: nat)
    ensures k <= |x|
    ensures forall i :: 0 <= i < k ==> x[i] != 13
    ensures k < |x| ==> x[k] == 13
  {
    if x == [] || x[0] == 13 then 0 else 1 + ToCR(x[1..])
  }

  /** Header lines, name ':' anything CR LF, up to a line of letters and hyphens alone; then a part. */
  ghost predicate HeadersOk(b: Bytes, x: Bytes)
    decreases |x|, 2
  {
    var k := NameRun(x);
    && k < |x|
    && ((x[k] == 13 && k + 1 < |x| && x[k + 1] == 10 && DataOk(b, x[k + 2..]))
        || (x[k] == 58 && ValueOk(b, x[k + 1..])))
  }

  ghost predicate ValueOk(b: Bytes, x: Bytes)
    decreases |x|, 3
  {
    var m := ToCR(x);
    m + 1 < |x| && x[m + 1] == 10 && HeadersOk(b, x[m + 2..])
  }

  /** Anything up to the first CR LF boundary. */
  ghost predicate DataOk(b: Bytes, x: Bytes)
    decreases |x|, 1
  {
    exists j :: FirstAt([13, 10] + b, x, j) && AfterOk(b, x[j + |b| + 2..])
  }

  /** The end of the body, after which anything may follow, or the next part. */
  ghost predicate AfterOk(b: Bytes, x: Bytes)
    decreases |x|, 0
  {
    |x| >= 2 && ((x[0] == 45 && x[1] == 45) || (x[0] == 13 && x[1] == 10 && HeadersOk(b, x[2..])))
  }

  ghost predicate BodyOk(b: Bytes, x: Bytes) {
    |x| >= |b| + 2 && x[..|b|] == b && x[|b|] == 13 && x[|b| + 1] == 10 && HeadersOk(b, x[|b| + 2..])
  }

  // ---------------------------------------------------------------------------
  // The reference machine recognises it
  // ---------------------------------------------------------------------------

  predicate Ends(b: Bytes, p: Parser, x: Bytes)
    requires Valid(b, p)
  {
    Ref(b, p, x).p.state == SEnd
  }

  lemma EndsStep(b: Bytes, p: Parser, x: Bytes)
    requires Valid(b, p) && x != []
    ensures match ByteStep(b, p, x[0])
            case Refuse(q) => Ends(b, p, x) <==> q.state == SEnd
            case Accept(q, _) => Valid(b, q) && (Ends(b, p, x) <==> Ends(b, q, x[1..]))
  {
    ByteValid(b, p, x[0]);
  }

  lemma EndsNow(b: Bytes, p: Parser)
    requires Valid(b, p)
    ensures Ends(b, p, []) <==> p.state == SEnd
  {
  }

  lemma {:induction false} EndStays(b: Bytes, p: Parser, x: Bytes)
    requires Valid(b, p) && p.state == SEnd
    ensures Ends(b, p, x) && Ref(b, p, x).consumed == |x|
    decreases |x|
  {
    if x != [] {
      EndsStep(b, p, x);
      EndStays(b, p, x[1..]);
    }
  }

  lemma {:induction false} NameEnds(b: Bytes, p: Parser, x: Bytes)
    requires Valid(b, p) && (p.state == SHeaderFieldStart || p.state == SHeaderField) && CR !in b
    ensures Ends(b, p, x) <==> HeadersOk(b, x)
    decreases |x|, 2
  {
    if x == [] {
      EndsNow(b, p);
    } else {
      EndsStep(b, p, x);
      var c := x[0];
      if c == CR {
        var q := p.(state := SHeadersAlmostDone);
        assert ByteStep(b, p, c) == Accept(q, []);
        if |x| > 1 {
          EndsStep(b, q, x[1..]);
          if x[1] == LF {
            assert ByteStep(b, q, x[1]) == Accept(q.(state := SPartDataStart), []);
            assert x[1..][1..] == x[2..];
            DataEnds(b, q.(state := SPartDataStart), x[2..]);
          }
        } else {
          EndsNow(b, q);
        }
      } else if c == COLON {
        assert ByteStep(b, p, c) == Accept(p.(state := SHeaderValueStart), [HeaderField([])]);
        ValueEnds(b, p.(state := SHeaderValueStart), x[1..]);
      } else if NameChar(c) {
        assert ByteStep(b, p, c) == Accept(p.(state := SHeaderField), [HeaderField([c])]);
        NameEnds(b, p.(state := SHeaderField), x[1..]);
        HeadersSkip(b, x);
      }
    }
  }

  lemma HeadersSkip(b: Bytes, x: Bytes)
    requires x != [] && (x[0] == 45 || 65 <= x[0] <= 90 || 97 <= x[0] <= 122)
    ensures HeadersOk(b, x) <==> HeadersOk(b, x[1..])
  {
    var y, k := x[1..], NameRun(x);
    assert k == 1 + NameRun(y);
    assert k < |x| ==> x[k] == y[k - 1] && x[k + 1..] == y[k..];
    assert k + 1 < |x| ==> x[k + 1] == y[k] && x[k + 2..] == y[k + 1..];
  }

  lemma {:induction false} ValueEnds(b: Bytes, p: Parser, x: Bytes)
    requires Valid(b, p) && (p.state == SHeaderValueStart || p.state == SHeaderValue) && CR !in b
    ensures Ends(b, p, x) <==> ValueOk(b, x)
    decreases |x|, 3
  {
    if x == [] {
      EndsNow(b, p);
    } else {
      EndsStep(b, p, x);
      var c := x[0];
      if c == CR {
        var q := p.(state := SHeaderValueAlmostDone);
        assert ByteStep(b, p, c) == Accept(q, [HeaderValue([])]);
        if |x| > 1 {
          EndsStep(b, q, x[1..]);
          if x[1] == LF {
            assert ByteStep(b, q, x[1]) == Accept(q.(state := SHeaderFieldStart), []);
            assert x[1..][1..] == x[2..];
            NameEnds(b, q.(state := SHeaderFieldStart), x[2..]);
          }
        } else {
          EndsNow(b, q);
        }
      } else {
        ValueEnds(b, ByteStep(b, p, c).p, x[1..]);
        ValueSkip(b, x);
      }
    }
  }

  lemma ValueSkip(b: Bytes, x: Bytes)
    requires x != [] && x[0] != 13
    ensures ValueOk(b, x) <==> ValueOk(b, x[1..])
  {
    var y, m := x[1..], ToCR(x);
    assert m == 1 + ToCR(y);
    assert m + 1 < |x| ==> x[m + 1] == y[m] && x[m + 2..] == y[m + 1..];
  }

  lemma {:induction false} DataEnds(b: Bytes, p: Parser, x: Bytes)
    requires Valid(b, p) && p.state == SPartDataStart && CR !in b
    ensures Ends(b, p, x) <==> DataOk(b, x)
    decreases |x|, 1
  {
    hide Ends, AfterOk;
    if x == [] {
      EndsNow(b, p);
    } else if Occurs(Delimiter(b), x) {
      var j := FirstOf(Delimiter(b), x);
      var r := FoundEnds(b, p, x, j);
      hide Valid;
      AfterEnds(b, r, x[j + |b| + 2..]);
      OnlyFirst(Delimiter(b), x, j);
    } else {
      NotFoundEnds(b, p, x);
      assert forall j :: FirstAt(Delimiter(b), x, j) ==> OccursAt(Delimiter(b), x, j);
    }
  }

  lemma StartEnds(b: Bytes, p: Parser, x: Bytes)
    requires Valid(b, p) && p.state == SPartDataStart && x != []
    ensures var q := p.(state := SPartData); Valid(b, q) && (Ends(b, p, x) <==> Ends(b, q, x))
  {
    var q := p.(state := SPartData);
    assert ByteStep(b, p, x[0]) == Accept(DataByte(q, x[0]).p, [HeadersComplete] + DataByte(q, x[0]).events);
    hide ByteStep, DataByte;
    StepBack(b, p, q, x, [HeadersComplete], false);
  }

  /** The parser behind the first delimiter. */
  lemma FoundEnds(b: Bytes, p: Parser, x: Bytes, j: nat) returns (r: Parser)
    requires Valid(b, p) && p.state == SPartDataStart && CR !in b && FirstAt(Delimiter(b), x, j)
    ensures Valid(b, r) && r.state == SPartDataAlmostEnd && j + |b| + 2 <= |x|
    ensures Ends(b, p, x) <==> Ends(b, r, x[j + |b| + 2..])
  {
    StartEnds(b, p, x);
    var first, rest := DataUntilDelimiter(false, b, p.(state := SPartData), x, j);
    r := first.p;
    hide Valid, Equiv, Ref;
  }

  lemma NotFoundEnds(b: Bytes, p: Parser, x: Bytes)
    requires Valid(b, p) && p.state == SPartDataStart && CR !in b && x != [] && !Occurs(Delimiter(b), x)
    ensures !Ends(b, p, x)
  {
    StartEnds(b, p, x);
    NoDelimiter(b, p.(state := SPartData), x);
  }

  lemma FirstOf(d: Bytes, x: Bytes) returns (j: nat)
    requires Occurs(d, x)
    ensures FirstAt(d, x, j)
  {
    var k :| OccursAt(d, x, k);
    j := 0;
    while !OccursAt(d, x, j)
      invariant 0 <= j <= k && forall i :: i < j ==> !OccursAt(d, x, i)
      decreases k - j
    {
      j := j + 1;
    }
  }

  lemma OnlyFirst(d: Bytes, x: Bytes, j: nat)
    requires FirstAt(d, x, j)
    ensures forall k :: FirstAt(d, x, k) ==> k == j
  {
    forall k | FirstAt(d, x, k) ensures k == j {
      assert OccursAt(d, x, k) && OccursAt(d, x, j);
    }
  }

  lemma {:induction false} AfterEnds(b: Bytes, p: Parser, x: Bytes)
    requires Valid(b, p) && p.state == SPartDataAlmostEnd && CR !in b
    ensures Ends(b, p, x) <==> AfterOk(b, x)
    decreases |x|, 0
  {
    hide Ends, HeadersOk;
    if |x| < 2 {
      ShortAfter(b, p, x);
    } else if x[0] == HYPHEN && x[1] == HYPHEN {
      var q, r := p.(state := SPartDataFinalHyphen), p.(state := SEnd);
      TwoSteps(b, p, q, r, x, [], [BodyEnd]);
      EndStays(b, r, x[2..]);
    } else if x[0] == CR && x[1] == LF {
      var q, r := p.(state := SPartDataEnd), p.(state := SHeaderFieldStart);
      TwoSteps(b, p, q, r, x, [], [PartDataBegin]);
      NameEnds(b, r, x[2..]);
    } else {
      OtherAfter(b, p, x);
    }
  }

  lemma TwoSteps(b: Bytes, p: Parser, q: Parser, r: Parser, x: Bytes, e: seq<Event>, f: seq<Event>)
    requires Valid(b, p) && |x| >= 2 && ByteStep(b, p, x[0]) == Accept(q, e)
    requires Valid(b, q) && ByteStep(b, q, x[1]) == Accept(r, f)
    ensures Valid(b, r) && (Ends(b, p, x) <==> Ends(b, r, x[2..]))
  {
    EndsStep(b, p, x);
    EndsStep(b, q, x[1..]);
    hide Ends, ByteStep, Valid;
    assert x[1..][1..] == x[2..];
  }

  lemma ShortAfter(b: Bytes, p: Parser, x: Bytes)
    requires Valid(b, p) && p.state == SPartDataAlmostEnd && |x| < 2
    ensures !Ends(b, p, x)
  {
    if x == [] {
      EndsNow(b, p);
    } else {
      EndsStep(b, p, x);
      if ByteStep(b, p, x[0]).Accept? { EndsNow(b, ByteStep(b, p, x[0]).p); }
    }
  }

  lemma OtherAfter(b: Bytes, p: Parser, x: Bytes)
    requires Valid(b, p) && p.state == SPartDataAlmostEnd && |x| >= 2
    requires !(x[0] == 45 && x[1] == 45) && !(x[0] == 13 && x[1] == 10)
    ensures !Ends(b, p, x)
  {
    EndsStep(b, p, x);
    var n := ByteStep(b, p, x[0]);
    if n.Accept? { EndsStep(b, n.p, x[1..]); }
  }

  lemma {:induction false} BoundaryEnds(b: Bytes, p: Parser, x: Bytes)
    requires Valid(b, p) && p.state == SStartBoundary && p.index <= |b| && CR !in b
    ensures Ends(b, p, x) <==>
            var n := |b| - p.index;
            |x| >= n + 2 && x[..n] == b[p.index..] && x[n] == 13 && x[n + 1] == 10 && HeadersOk(b, x[n + 2..])
    decreases |x|
  {
    var n := |b| - p.index;
    if x == [] {
      EndsNow(b, p);
    } else {
      EndsStep(b, p, x);
      if n > 0 {
        assert b[p.index..][0] == b[p.index];
        if x[0] == b[p.index] {
          BoundaryEnds(b, p.(index := p.index + 1), x[1..]);
          ShiftOne(b[p.index..], x, n);
          assert b[p.index..][1..] == b[p.index + 1..];
        } else if |x| >= n + 2 {
          assert x[..n][0] == x[0];
        }
      } else if x[0] == CR {
        var q := p.(index := p.index + 1);
        assert ByteStep(b, p, x[0]) == Accept(q, []);
        assert x[..0] == [] == b[p.index..];
        if |x| == 1 {
          EndsNow(b, q);
        } else {
          EndsStep(b, q, x[1..]);
          assert x[1..][1..] == x[2..];
          if x[1] == LF { NameEnds(b, q.(index := 0, state := SHeaderFieldStart), x[2..]); }
        }
      }
    }
  }

  lemma ShiftOne(t: Bytes, x: Bytes, n: nat)
    requires x != [] && |t| == n > 0 && x[0] == t[0]
    ensures |x| >= n ==> (x[..n] == t <==> x[1..][..n - 1] == t[1..])
    ensures |x| >= n + 2 ==> x[1..][n - 1] == x[n] && x[1..][n] == x[n + 1] && x[1..][n + 1..] == x[n + 2..]
  {
    if |x| >= n {
      assert x[..n] == [x[0]] + x[1..][..n - 1];
      assert t == [t[0]] + t[1..];
    }
  }

  /** For every input and every cut of it into chunks, a new parser ends in s_end if and only if the input
      is a body of the language; it has then consumed every byte. */
  lemma AcceptsExactly(b: Bytes, p: Parser, chunks: seq<Bytes>)
    requires Valid(b, p) && p.state == SStart && CR !in b
    ensures Feed(b, p, chunks).p.state == SEnd <==> BodyOk(b, Flatten(chunks))
    ensures BodyOk(b, Flatten(chunks)) ==> Feed(b, p, chunks).consumed == |Flatten(chunks)|
  {
    var x, q := Flatten(chunks), p.(index := 0, state := SStartBoundary);
    FeedIsRef(false, b, p, chunks);
    if x == [] {
      EndsNow(b, p);
    } else {
      assert ByteStep(b, p, x[0]) == ByteStep(b, q, x[0]);
      SameFirstByte(b, p, q, x);
      BoundaryEnds(b, q, x);
      assert b[0..] == b;
      EndedIsConsumed(b, p, x);
    }
  }

  /** A refused byte never leaves the parser in s_end. */
  lemma {:induction false} EndedIsConsumed(b: Bytes, p: Parser, x: Bytes)
    requires Valid(b, p)
    ensures Ends(b, p, x) ==> Ref(b, p, x).consumed == |x|
    decreases |x|
  {
    if x != [] {
      ByteValid(b, p, x[0]);
      match ByteStep(b, p, x[0])
      case Refuse(q) => RefusedIsNoEnd(b, p, x[0]);
      case Accept(q, _) => EndedIsConsumed(b, q, x[1..]);
    }
  }

  lemma RefusedIsNoEnd(b: Bytes, p: Parser, c: Byte)
    requires Valid(b, p) && ByteStep(b, p, c).Refuse?
    ensures ByteStep(b, p, c).p.state != SEnd
  {
  }

  // ---------------------------------------------------------------------------
  // One body, byte by byte
  // ---------------------------------------------------------------------------

  /** With boundary "b", the bytes of b CR LF A-B: v CR LF CR LF hi CR LF b-- report the header A-B with
      value v and the data hi, however they are cut. */
  lemma WholeBody(p: Parser, chunks: seq<Bytes>)
    requires Valid([98], p) && p.state == SStart
    requires Flatten(chunks) ==
             [98, 13, 10, 65, 45, 66, 58, 32, 118, 13, 10, 13, 10, 104, 105, 13, 10, 98, 45, 45]
    ensures var f := Feed([98], p, chunks);
            && f.p.state == SEnd && f.consumed == 20
            && Normal(f.events) ==
               [PartDataBegin, HeaderField([65, 45, 66]), HeaderValue([118]), HeadersComplete,
                PartData([104, 105]), PartDataEnd, BodyEnd]
  {
    var h := Header([65, 45, 66], 1, [118]);
    var part := Part([h], [104, 105]);
    WholeBodyPrinted(h, part);
    assert |Delimiter([98])| == 3;
    assert !Occurs(Delimiter([98]), part.body);
    assert GoodHeader(h);
    assert GoodPart([98], part);
    RoundTrip([98], p, [part], chunks);
  }

  lemma WholeBodyPrinted(h: Header, part: Part)
    requires h == Header([65, 45, 66], 1, [118]) && part == Part([h], [104, 105])
    ensures Print([98], [part]) ==
            [98, 13, 10, 65, 45, 66, 58, 32, 118, 13, 10, 13, 10, 104, 105, 13, 10, 98, 45, 45]
    ensures Report([part]) ==
            [PartDataBegin, HeaderField([65, 45, 66]), HeaderValue([118]), HeadersComplete,
             PartData([104, 105]), PartDataEnd, BodyEnd]
  {
    assert [h][1..] == [];
    assert Spaces(0) == [] && Spaces(1) == [32];
    assert PrintHeader(h) == [65, 45, 66, 58, 32, 118, 13, 10];
    assert PrintHeaders([h][1..]) == [13, 10];
    assert PrintHeaders([h]) == [65, 45, 66, 58, 32, 118, 13, 10, 13, 10];
    assert ReportHeaders([h][1..]) == [];
    assert ReportHeaders([h]) == [HeaderField([65, 45, 66]), HeaderValue([118])];
  }
}
