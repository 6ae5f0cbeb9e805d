/**
 The data reported for a part is exactly the input up to the first CR LF boundary.  The parser has
 no failure table: after a failed partial match it starts again at the byte that failed.  That is
 correct because the boundary contains no CR, so a delimiter cannot begin inside a partial match.
 */
module MultipartSearch {
  import opened Prelude
  import opened Multipart
  import opened MultipartChunks

  // ---------------------------------------------------------------------------
  // Partial matches
  // ---------------------------------------------------------------------------

  /** `d` begins with CR and contains no other. */
  ghost predicate OnlyFirstIsCR(d: Bytes) {
    |d| > 1 && d[0] == CR && forall j :: 0 < j < |d| ==> d[j] != CR
  }

  /** The last `k` bytes of `y` are the first `k` of `d`. */
  ghost predicate EndsWith(d: Bytes, y: Bytes, k: nat) {
    k <= |y| && k <= |d| && y[|y| - k..] == d[..k]
  }

  /** `h` is the length of the longest end of `y` that begins `d`, and it is not all of `d`. */
  ghost predicate Longest(d: Bytes, y: Bytes, h: nat) {
    h < |d| && EndsWith(d, y, h) && forall k :: h < k <= |d| ==> !EndsWith(d, y, k)
  }

  ghost predicate OccursAt(d: Bytes, x: Bytes, j: int) {
    0 <= j && j + |d| <= |x| && x[j..j + |d|] == d
  }

  ghost predicate Occurs(d: Bytes, x: Bytes) {
    exists j :: OccursAt(d, x, j)
  }

  ghost predicate FirstAt(d: Bytes, x: Bytes, j: int) {
    OccursAt(d, x, j) && forall k :: k < j ==> !OccursAt(d, x, k)
  }

  lemma EndsWithSnoc(d: Bytes, y: Bytes, c: Byte, k: nat)
    ensures EndsWith(d, y + [c], k + 1) <==> k < |d| && d[k] == c && EndsWith(d, y, k)
  {
    if k < |d| && k <= |y| {
      assert (y + [c])[|y + [c]| - (k + 1)..] == y[|y| - k..] + [c];
      assert d[..k + 1] == d[..k] + [d[k]];
    }
  }

  lemma EndsWithNothing(d: Bytes, y: Bytes)
    ensures EndsWith(d, y, 0)
  {
    assert y[|y|..] == d[..0];
  }

  /** A shorter end that also begins `d` would put a CR inside `d`. */
  lemma NoShorter(d: Bytes, y: Bytes, h: nat, k: nat)
    requires OnlyFirstIsCR(d) && EndsWith(d, y, h) && 0 < k < h
    ensures !EndsWith(d, y, k)
  {
    EndsWithAt(d, y, h, h - k);
    if EndsWith(d, y, k) {
      EndsWithAt(d, y, k, 0);
    }
  }

  lemma EndsWithAt(d: Bytes, y: Bytes, k: nat, t: nat)
    requires EndsWith(d, y, k) && t < k
    ensures y[|y| - k + t] == d[t]
  {
    assert y[|y| - k..][t] == d[..k][t];
  }

  /** The next byte continues the match. */
  lemma MatchGoesOn(d: Bytes, y: Bytes, h: nat, c: Byte)
    requires Longest(d, y, h) && d[h] == c
    ensures EndsWith(d, y + [c], h + 1)
    ensures h + 1 < |d| ==> Longest(d, y + [c], h + 1)
  {
    EndsWithSnoc(d, y, c, h);
    forall k | h + 1 < k <= |d| ensures !EndsWith(d, y + [c], k) {
      EndsWithSnoc(d, y, c, k - 1);
    }
  }

  /** The next byte breaks the match: only that byte itself can begin a delimiter. */
  lemma MatchBreaks(d: Bytes, y: Bytes, h: nat, c: Byte)
    requires OnlyFirstIsCR(d) && Longest(d, y, h) && d[h] != c
    ensures Longest(d, y + [c], if c == CR then 1 else 0)
  {
    EndsWithNothing(d, y);
    EndsWithNothing(d, y + [c]);
    EndsWithSnoc(d, y, c, 0);
    forall k | 1 < k <= |d| ensures !EndsWith(d, y + [c], k) {
      EndsWithSnoc(d, y, c, k - 1);
      if k - 1 < h { NoShorter(d, y, h, k - 1); }
    }
  }

  /** An occurrence ends at the last byte exactly when the longest match is one byte short of it. */
  lemma CompletesIff(d: Bytes, y: Bytes, h: nat, c: Byte)
    requires Longest(d, y, h)
    ensures EndsWith(d, y + [c], |d|) <==> h + 1 == |d| && d[h] == c
  {
    EndsWithSnoc(d, y, c, |d| - 1);
  }

  // ---------------------------------------------------------------------------
  // The parser keeps the longest match in its state
  // ---------------------------------------------------------------------------

  predicate InData(s: State) {
    s == SPartData || s == SPartDataAlmostBoundary || s == SPartDataBoundary
  }

  /** How much of the delimiter the state stands for. */
  function Matched(p: Parser): nat {
    match p.state
    case SPartDataAlmostBoundary => 1
    case SPartDataBoundary => 2 + p.index
    case _ => 0
  }

  function DataOf(events: seq<Event>): Bytes {
    if events == [] then [] else (if events[0].PartData? then events[0].bytes else []) + DataOf(events[1..])
  }

  ghost predicate OnlyData(events: seq<Event>) {
    forall i :: 0 <= i < |events| ==> events[i].PartData?
  }

  lemma {:induction false} DataConcat(d: seq<Event>, e: seq<Event>)
    ensures DataOf(d + e) == DataOf(d) + DataOf(e)
    decreases |d|
  {
    if d == [] {
      assert d + e == e;
    } else {
      assert (d + e)[1..] == d[1..] + e;
      DataConcat(d[1..], e);
    }
  }

  lemma DataOfOne(e: Event)
    ensures DataOf([e]) == if e.PartData? then e.bytes else []
  {
    assert [e][1..] == [];
  }

  lemma DataOfTwo(d: Bytes, e: Bytes)
    ensures DataOf([PartData(d)] + [PartData(e)]) == d + e
  {
    DataConcat([PartData(d)], [PartData(e)]);
    DataOfOne(PartData(d));
    DataOfOne(PartData(e));
  }

  lemma DelimiterShape(b: Bytes)
    requires |b| > 0 && CR !in b
    ensures OnlyFirstIsCR(Delimiter(b)) && |Delimiter(b)| == |b| + 2
  {
  }

  /** One byte of part data: nothing is lost, duplicated or reordered between what is reported and what
      is held back. */
  lemma SearchByte(b: Bytes, p: Parser, c: Byte)
    requires Valid(b, p) && InData(p.state) && CR !in b
    ensures Matched(p) < |Delimiter(b)|
    ensures var d, h, n := Delimiter(b), Matched(p), ByteStep(b, p, c);
            && n.Accept?
            && (if d[h] == c && h + 1 == |d| then n.p.state == SPartDataAlmostEnd && n.events == [PartDataEnd]
                else
                  && InData(n.p.state) && OnlyData(n.events)
                  && Matched(n.p) == (if d[h] == c then h + 1 else if c == CR then 1 else 0)
                  && DataOf(n.events) + d[..Matched(n.p)] == d[..h] + [c])
            && (p.state == SPartData ==> n.events != [])
  {
    var d, h := Delimiter(b), Matched(p);
    DataOfOne(PartData([]));
    DataOfOne(PartData([c]));
    assert d[..1] == [CR] && d[..0] == [];
    if p.state == SPartDataAlmostBoundary {
      if c != LF {
        DataOfTwo([CR], []);
        DataOfTwo([CR], [c]);
      } else {
        assert d[..2] == [CR] + [LF];
      }
    } else if p.state == SPartDataBoundary {
      if d[h] != c {
        DataOfTwo(d[..h], []);
        DataOfTwo(d[..h], [c]);
      } else {
        assert d[..h + 1] == d[..h] + [c];
      }
    }
  }

  lemma RefOne(b: Bytes, p: Parser, c: Byte)
    requires Valid(b, p)
    ensures Ref(b, p, [c]) == match ByteStep(b, p, c)
                              case Refuse(q) => Run(q, 0, [])
                              case Accept(q, events) => Run(q, 1, events)
  {
    ByteValid(b, p, c);
    hide ByteStep, Valid;
    assert [c][1..] == [];
    match ByteStep(b, p, c)
    case Refuse(q) =>
    case Accept(q, events) => assert events + [] == events;
  }

  /** The state after part data `y` that contains no delimiter. */
  ghost predicate Scanned(b: Bytes, y: Bytes, r: Run) {
    && Valid(b, r.p) && r.consumed == |y| && InData(r.p.state) && OnlyData(r.events)
    && Longest(Delimiter(b), y, Matched(r.p))
    && DataOf(r.events) + Delimiter(b)[..Matched(r.p)] == y
  }

  lemma RefSnoc(b: Bytes, p: Parser, y: Bytes, c: Byte)
    requires Valid(b, p) && Ref(b, p, y).consumed == |y| && ByteStep(b, Ref(b, p, y).p, c).Accept?
    ensures var r := Ref(b, p, y); var n := ByteStep(b, r.p, c);
            Ref(b, p, y + [c]) == Run(n.p, |y| + 1, r.events + n.events)
  {
    var r := Ref(b, p, y);
    RefConcat(b, p, y, [c]);
    RefOne(b, r.p, c);
  }

  lemma HeldBytes(data: Bytes, held: Bytes, y: Bytes, more: Bytes, held': Bytes, c: Byte)
    requires data + held == y && more + held' == held + [c]
    ensures data + more + held' == y + [c]
  {
    assert data + (more + held') == data + (held + [c]);
    assert data + more + held' == data + (more + held');
    assert data + held + [c] == data + (held + [c]);
  }

  /** One more byte of part data: either the delimiter is complete, or nothing is lost. */
  lemma ScannedSnoc(b: Bytes, p: Parser, y: Bytes, c: Byte)
    requires Valid(b, p) && CR !in b && Scanned(b, y, Ref(b, p, y))
    ensures var d, r, s := Delimiter(b), Ref(b, p, y), Ref(b, p, y + [c]);
            if EndsWith(d, y + [c], |d|)
            then s.consumed == |y| + 1 && s.p.state == SPartDataAlmostEnd && s.events == r.events + [PartDataEnd]
                 && DataOf(r.events) + d == y + [c]
            else Scanned(b, y + [c], s)
  {
    hide ByteStep, Valid, Ref, DataOf, Longest, EndsWith, Delimiter, Matched, OnlyFirstIsCR;
    var d, r, s := Delimiter(b), Ref(b, p, y), Ref(b, p, y + [c]);
    var h := Matched(r.p);
    ValidBoundary(b, p);
    DelimiterShape(b);
    SearchByte(b, r.p, c);
    RefSnoc(b, p, y, c);
    CompletesIff(d, y, h, c);
    var n := ByteStep(b, r.p, c);
    if d[h] == c {
      MatchGoesOn(d, y, h, c);
    } else {
      MatchBreaks(d, y, h, c);
    }
    if d[h] == c && h + 1 == |d| {
      assert d == d[..h] + [c];
      HeldBytes(DataOf(r.events), d[..h], y, [], d, c);
      assert DataOf(r.events) + [] == DataOf(r.events) && [] + d == d;
    } else {
      DataConcat(r.events, n.events);
      HeldBytes(DataOf(r.events), d[..h], y, DataOf(n.events), d[..Matched(n.p)], c);
    }
  }

  lemma ValidBoundary(b: Bytes, p: Parser)
    requires Valid(b, p)
    ensures |b| > 0
  {
  }

  lemma NoneInShorter(d: Bytes, x: Bytes, n: nat)
    requires n <= |x| && !Occurs(d, x)
    ensures !Occurs(d, x[..n])
  {
    forall j ensures OccursAt(d, x[..n], j) ==> OccursAt(d, x, j) {
      PrefixOccurs(d, x, n, j);
    }
  }

  lemma PrefixOccurs(d: Bytes, x: Bytes, n: nat, j: int)
    requires n <= |x|
    ensures OccursAt(d, x[..n], j) ==> OccursAt(d, x, j)
  {
    if 0 <= j && j + |d| <= n {
      assert x[..n][j..j + |d|] == x[j..j + |d|];
    }
  }

  lemma EndIsOccurrence(d: Bytes, x: Bytes)
    requires EndsWith(d, x, |d|)
    ensures OccursAt(d, x, |x| - |d|)
  {
    assert d[..|d|] == d && x[|x| - |d|..] == x[|x| - |d|..|x|];
  }

  /** Part data without a delimiter: all of it is accepted, and what is reported followed by what is
      held back is the input. */
  lemma {:induction false} NoDelimiter(b: Bytes, p: Parser, x: Bytes)
    requires Valid(b, p) && p.state == SPartData && CR !in b && !Occurs(Delimiter(b), x)
    ensures Scanned(b, x, Ref(b, p, x))
    decreases |x|
  {
    var d := Delimiter(b);
    if x == [] {
      EndsWithNothing(d, x);
      assert d[..0] == [];
    } else {
      var y, c := x[..|x| - 1], x[|x| - 1];
      assert x == y + [c];
      NoneInShorter(d, x, |x| - 1);
      NoDelimiter(b, p, y);
      hide Scanned, Valid, Ref;
      ScannedSnoc(b, p, y, c);
      if EndsWith(d, x, |d|) {
        EndIsOccurrence(d, x);
      }
    }
  }

  lemma SearchStepNoDrop(b: Bytes, p: Parser, c: Byte)
    requires Valid(b, p) && InData(p.state)
    ensures NoDrop(b, p, [c])
  {
    ByteValid(b, p, c);
    hide ByteStep, Valid;
    assert [c][1..] == [];
  }

  lemma {:induction false} BodyDropsNothing(b: Bytes, p: Parser, x: Bytes)
    requires Valid(b, p) && p.state == SPartData && CR !in b && !Occurs(Delimiter(b), x)
    ensures NoDrop(b, p, x)
    decreases |x|
  {
    if x != [] {
      var y, c := x[..|x| - 1], x[|x| - 1];
      assert x == y + [c];
      NoneInShorter(Delimiter(b), x, |x| - 1);
      NoDelimiter(b, p, y);
      BodyDropsNothing(b, p, y);
      hide NoDrop, Valid, Ref;
      SearchStepNoDrop(b, Ref(b, p, y).p, c);
      NoDropConcat(b, p, y, [c]);
    }
  }

  // ---------------------------------------------------------------------------
  // Up to the first delimiter
  // ---------------------------------------------------------------------------

  lemma BeforeFirst(d: Bytes, x: Bytes, j: nat)
    requires FirstAt(d, x, j) && |x| == j + |d| && |d| > 0
    ensures !Occurs(d, x[..|x| - 1]) && EndsWith(d, x, |d|)
  {
    var y := x[..|x| - 1];
    forall k ensures OccursAt(d, y, k) ==> OccursAt(d, x, k) {
      PrefixOccurs(d, x, |x| - 1, k);
    }
    assert forall k :: OccursAt(d, y, k) ==> k < j && OccursAt(d, x, k);
    assert d[..|d|] == d;
  }

  /** All data callbacks of a part together are one callback with all the data. */
  lemma {:induction false} DataJoined(names: bool, events: seq<Event>)
    requires OnlyData(events) && events != []
    ensures Equiv(names, events, [PartData(DataOf(events))])
    decreases |events|
  {
    hide Equiv;
    var e, rest := events[0], events[1..];
    assert events == [e] + rest;
    DataOfOne(e);
    if rest == [] {
      EquivSame(names, events);
      assert events == [PartData(DataOf(events))];
    } else {
      DataJoined(names, rest);
      var d := PartData(DataOf(rest));
      EquivSame(names, [e]);
      EquivConcat(names, [e], [e], rest, [d]);
      assert [e] + [d] == [e, d];
      EquivJoin(names, e, d);
      EquivTrans(names, events, [e, d], [Longer(e, d.bytes)]);
    }
  }

  lemma FirstByteReports(b: Bytes, p: Parser, x: Bytes)
    requires Valid(b, p) && p.state == SPartData && x != []
    ensures Ref(b, p, x).events != []
  {
    ByteValid(b, p, x[0]);
    DataIsByte(b, p, x[0]);
  }

  lemma DataSplit(r: Bytes, d: Bytes, x: Bytes, j: nat)
    requires r + d == x && |x| == j + |d|
    ensures r == x[..j]
  {
  }

  /** An input that ends with its first delimiter. */
  lemma DataToDelimiter(names: bool, b: Bytes, p: Parser, x: Bytes, j: nat)
    requires Valid(b, p) && p.state == SPartData && CR !in b
    requires FirstAt(Delimiter(b), x, j) && |x| == j + |Delimiter(b)|
    ensures var r := Ref(b, p, x);
            && r.consumed == |x| && r.p.state == SPartDataAlmostEnd
            && Equiv(names, r.events, [PartData(x[..j]), PartDataEnd])
  {
    var d := Delimiter(b);
    DelimiterShape(b);
    BeforeFirst(d, x, j);
    var y, c := x[..|x| - 1], x[|x| - 1];
    assert x == y + [c];
    NoDelimiter(b, p, y);
    ScannedSnoc(b, p, y, c);
    FirstByteReports(b, p, y);
    var r := Ref(b, p, y);
    hide Equiv, Ref, Valid, ByteStep;
    DataSplit(DataOf(r.events), d, x, j);
    DataJoined(names, r.events);
    EquivSame(names, [PartDataEnd]);
    EquivConcat(names, r.events, [PartData(x[..j])], [PartDataEnd], [PartDataEnd]);
    assert [PartData(x[..j])] + [PartDataEnd] == [PartData(x[..j]), PartDataEnd];
  }

  /** The same from the end of the headers. */
  lemma PartToDelimiter(names: bool, b: Bytes, p: Parser, x: Bytes, j: nat)
    requires Valid(b, p) && p.state == SPartDataStart && CR !in b
    requires FirstAt(Delimiter(b), x, j) && |x| == j + |Delimiter(b)|
    ensures var r := Ref(b, p, x);
            && r.consumed == |x| && r.p.state == SPartDataAlmostEnd
            && Equiv(names, r.events, [HeadersComplete, PartData(x[..j]), PartDataEnd])
  {
    var q := p.(state := SPartData);
    assert ByteStep(b, p, x[0]) == Accept(DataByte(q, x[0]).p, [HeadersComplete] + DataByte(q, x[0]).events);
    StepBack(b, p, q, x, [HeadersComplete], names);
    hide Equiv, Ref, Valid, ByteStep;
    DataToDelimiter(names, b, q, x, j);
    EquivSame(names, [HeadersComplete]);
    EquivConcat(names, [HeadersComplete], [HeadersComplete], Ref(b, q, x).events, [PartData(x[..j]), PartDataEnd]);
    assert [HeadersComplete] + [PartData(x[..j]), PartDataEnd] == [HeadersComplete, PartData(x[..j]), PartDataEnd];
  }

  lemma FirstInPrefix(d: Bytes, x: Bytes, j: nat)
    requires FirstAt(d, x, j)
    ensures j + |d| <= |x| && FirstAt(d, x[..j + |d|], j) && x[..j + |d|][..j] == x[..j]
  {
    var y := x[..j + |d|];
    assert y[j..j + |d|] == x[j..j + |d|];
    forall k | k < j ensures !OccursAt(d, y, k) { PrefixOccurs(d, x, j + |d|, k); }
  }

  /** What the reference does with `x` from `p`: `r` on the first part of it, `s` on the rest. */
  ghost predicate InTwo(b: Bytes, p: Parser, x: Bytes, n: nat, r: Run, s: Run)
    requires Valid(b, p)
  {
    && n <= |x| && r == Ref(b, p, x[..n]) && r.consumed == n && s == Ref(b, r.p, x[n..])
    && Ref(b, p, x) == Run(s.p, n + s.consumed, r.events + s.events)
  }

  lemma RefInTwo(b: Bytes, p: Parser, x: Bytes, n: nat)
    requires Valid(b, p) && n <= |x| && Ref(b, p, x[..n]).consumed == n
    ensures var r := Ref(b, p, x[..n]); InTwo(b, p, x, n, r, Ref(b, r.p, x[n..]))
  {
    hide Ref, Valid;
    assert x == x[..n] + x[n..];
    RefConcat(b, p, x[..n], x[n..]);
  }

  /** From s_part_data, whatever follows the delimiter: the data reported up to the end of the first
      delimiter are exactly the bytes before it, and the parser goes on behind it. */
  lemma DataUntilDelimiter(names: bool, b: Bytes, p: Parser, x: Bytes, j: nat) returns (r: Run, s: Run)
    requires Valid(b, p) && p.state == SPartData && CR !in b && FirstAt(Delimiter(b), x, j)
    ensures InTwo(b, p, x, j + |Delimiter(b)|, r, s)
    ensures r.p.state == SPartDataAlmostEnd && Equiv(names, r.events, [PartData(x[..j]), PartDataEnd])
  {
    hide Ref, Valid, Equiv;
    var n := j + |Delimiter(b)|;
    FirstInPrefix(Delimiter(b), x, j);
    DataToDelimiter(names, b, p, x[..n], j);
    RefInTwo(b, p, x, n);
    r := Ref(b, p, x[..n]);
    s := Ref(b, r.p, x[n..]);
  }

  /** The same from the end of the headers. */
  lemma PartUntilDelimiter(names: bool, b: Bytes, p: Parser, x: Bytes, j: nat) returns (r: Run, s: Run)
    requires Valid(b, p) && p.state == SPartDataStart && CR !in b && FirstAt(Delimiter(b), x, j)
    ensures InTwo(b, p, x, j + |Delimiter(b)|, r, s)
    ensures r.p.state == SPartDataAlmostEnd && Equiv(names, r.events, [HeadersComplete, PartData(x[..j]), PartDataEnd])
  {
    hide Ref, Valid, Equiv;
    var n := j + |Delimiter(b)|;
    FirstInPrefix(Delimiter(b), x, j);
    PartToDelimiter(names, b, p, x[..n], j);
    RefInTwo(b, p, x, n);
    r := Ref(b, p, x[..n]);
    s := Ref(b, r.p, x[n..]);
  }

  /** Nothing joins across part_data_end. */
  lemma {:induction false} JoinBehind(t: seq<Event>, u: seq<Event>, events: seq<Event>)
    requires t != [] && t[|t| - 1] == PartDataEnd
    ensures JoinAll(t + u, events) == t + JoinAll(u, events)
    decreases |events|
  {
    if events != [] {
      var e := events[0];
      if u == [] {
        assert t + u == t && Join(t + u, e) == t + Join(u, e);
      } else {
        assert (t + u)[|t + u| - 1] == u[|u| - 1] && (t + u)[..|t + u| - 1] == t + u[..|u| - 1];
        assert Join(t + u, e) == t + Join(u, e);
      }
      hide Join;
      JoinBehind(t, Join(u, e), events[1..]);
    }
  }

  /** However the input is cut into chunks and whatever it holds behind the delimiter, the part's data
      callbacks carry exactly the bytes before the first CR LF boundary; then the part ends, and what is
      reported next is what the parser makes of the bytes behind the delimiter. */
  lemma PartDataExact(b: Bytes, p: Parser, chunks: seq<Bytes>, j: nat) returns (r: Run, s: Run)
    requires Valid(b, p) && p.state == SPartDataStart && CR !in b && FirstAt(Delimiter(b), Flatten(chunks), j)
    ensures InTwo(b, p, Flatten(chunks), j + |Delimiter(b)|, r, s) && r.p.state == SPartDataAlmostEnd
    ensures var f, x := Feed(b, p, chunks), Flatten(chunks);
            && f.p == s.p && f.consumed == j + |Delimiter(b)| + s.consumed
            && Normal(View(false, f.events)) ==
               [HeadersComplete, PartData(x[..j]), PartDataEnd] + Normal(View(false, s.events))
  {
    var x := Flatten(chunks);
    var part := [HeadersComplete, PartData(x[..j]), PartDataEnd];
    PartIsNormal(x[..j]);
    r, s := PartUntilDelimiter(false, b, p, x, j);
    hide Equiv, Ref, Valid, Feed, View, JoinAll;
    FeedIsRef(false, b, p, chunks);
    var f := Feed(b, p, chunks);
    EquivSame(false, s.events);
    EquivConcat(false, r.events, part, s.events, s.events);
    EquivTrans(false, f.events, r.events + s.events, part + s.events);
    EquivNormal(false, f.events, part + s.events);
    ViewConcat(false, part, s.events);
    JoinAllConcat([], part, View(false, s.events));
    JoinBehind(part, [], View(false, s.events));
    assert part + [] == part;
  }

  /** However the input is cut, while no delimiter has come all of it is accepted, and everything is
      reported but the longest end that begins a delimiter. */
  lemma NoDelimiterAnyCut(b: Bytes, p: Parser, chunks: seq<Bytes>)
    requires Valid(b, p) && (p.state == SPartData || p.state == SPartDataStart) && CR !in b
    requires Flatten(chunks) != [] && !Occurs(Delimiter(b), Flatten(chunks))
    ensures var f, x := Feed(b, p, chunks), Flatten(chunks);
            var h := Matched(f.p);
            && f.consumed == |x| && InData(f.p.state) && Longest(Delimiter(b), x, h)
            && Normal(f.events) ==
               (if p.state == SPartDataStart then [HeadersComplete] else []) + [PartData(x[..|x| - h])]
  {
    var x, q := Flatten(chunks), p.(state := SPartData);
    NoDelimiter(b, q, x);
    BodyDropsNothing(b, q, x);
    FirstByteReports(b, q, x);
    var r := Ref(b, q, x);
    DataJoined(true, r.events);
    hide Ref, NoDrop, Equiv, Normal, DataOf, Feed;
    DataSplit(DataOf(r.events), Delimiter(b)[..Matched(r.p)], x, |x| - Matched(r.p));
    var data := [PartData(x[..|x| - Matched(r.p)])];
    if p.state == SPartDataStart {
      assert ByteStep(b, p, x[0]) == Accept(DataByte(q, x[0]).p, [HeadersComplete] + DataByte(q, x[0]).events);
      hide ByteStep, Valid;
      StepBack(b, p, q, x, [HeadersComplete], true);
      BackNoDrop(b, p, q, x, [HeadersComplete]);
      EquivSame(true, [HeadersComplete]);
      EquivConcat(true, [HeadersComplete], [HeadersComplete], r.events, data);
      SameNormal(b, p, chunks, x);
      NormalOf(Ref(b, p, x).events, [HeadersComplete] + data);
    } else {
      assert p == q && [] + data == data;
      SameNormal(b, p, chunks, x);
      NormalOf(r.events, data);
    }
    FeedIsRef(true, b, p, chunks);
    DataIsNormal(x[..|x| - Matched(r.p)]);
  }

  lemma NormalOf(d: seq<Event>, e: seq<Event>)
    requires Equiv(true, d, e)
    ensures Normal(d) == Normal(e)
  {
    EquivNormal(true, d, e);
    ViewAll(d);
    ViewAll(e);
  }

  lemma DataIsNormal(body: Bytes)
    ensures Normal([PartData(body)]) == [PartData(body)]
    ensures Normal([HeadersComplete] + [PartData(body)]) == [HeadersComplete] + [PartData(body)]
  {
    var h, d := HeadersComplete, PartData(body);
    assert [d][1..] == [] && ([h] + [d])[1..] == [d];
    assert Join([], d) == [d] && Join([], h) == [h] && Join([h], d) == [h] + [d];
    assert JoinAll([], [d]) == JoinAll([d], []) &&
           JoinAll([], [h] + [d]) == JoinAll([h], [d]) == JoinAll([h] + [d], []);
  }

  lemma PartIsNormal(body: Bytes)
    ensures var part := [HeadersComplete, PartData(body), PartDataEnd];
            View(false, part) == part && Normal(part) == part
  {
    var h, d, e := HeadersComplete, PartData(body), PartDataEnd;
    var part := [h, d, e];
    assert part[1..] == [d, e] && [d, e][1..] == [e] && [e][1..] == [];
    assert View(false, [e]) == [e] && View(false, [d, e]) == [d, e];
    assert Join([], h) == [h] && Join([h], d) == [h, d] && Join([h, d], e) == [h, d, e];
    assert JoinAll([], part) == JoinAll([h], [d, e]) == JoinAll([h, d], [e]) == JoinAll(part, []);
  }
}
