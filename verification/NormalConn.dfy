/**
 tcp_threads/src/normal_conn.cpp: the send list of a connection and the arming of its write event.
 `written` is what the socket has taken so far.  What the successive write calls return is a
 parameter; running out of outcomes counts as a full socket buffer.
 */
module NormalConn {
  import opened Prelude

  datatype WriteResult = Wrote(n: nat) | Interrupted | WouldBlock | OtherError | Reset

  /** What write returns when asked for `want` bytes: never more than that. */
  function Accepted(r: WriteResult, want: nat): (n: nat)
    requires r.Wrote?
    ensures n <= want
  {
    if r.n <= want then r.n else want
  }

  // ---------------------------------------------------------------------------
  // One item of the send list
  // ---------------------------------------------------------------------------

  datatype ItemEnd = Complete | Later | Broken

  /** The inner loop: write the item from offset `sent` on until it is out or an error ends it. */
  function WriteItem(item: seq<bv8>, sent: nat, results: seq<WriteResult>): (r: (nat, ItemEnd, seq<WriteResult>))
    requires sent <= |item|
    ensures sent <= r.0 <= |item| && |r.2| <= |results|
    ensures r.1 == Complete ==> r.0 == |item| && |r.2| < |results|
    ensures r.1 != Complete && sent < |item| ==> r.0 < |item|
    decreases |results|
  {
    if results == [] then (sent, Later, [])
    else match results[0]
      case Interrupted => WriteItem(item, sent, results[1..])
      case WouldBlock => (sent, Later, results[1..])
      case OtherError => (sent, Later, results[1..])
      case Reset => (sent, Broken, results[1..])
      case Wrote(_) =>
        var n := Accepted(results[0], |item| - sent);
        if n == 0 then WriteItem(item, sent, results[1..])
        else if sent + n == |item| then (sent + n, Complete, results[1..])
        else WriteItem(item, sent + n, results[1..])
  }

  /** Every outcome is one after which the inner loop tries again or goes on. */
  ghost predicate NoError(results: seq<WriteResult>) {
    forall i :: 0 <= i < |results| ==> results[i].Wrote? || results[i].Interrupted?
  }

  /** On an empty item the inner loop asks for 0 bytes, gets 0 and tries again: it uses up any number of
      outcomes and never leaves, unless write fails. */
  lemma {:induction false} EmptyItemNeverCompletes(results: seq<WriteResult>)
    ensures WriteItem([], 0, results).1 != Complete && WriteItem([], 0, results).0 == 0
    ensures NoError(results) ==> WriteItem([], 0, results) == (0, Later, [])
    decreases |results|
  {
    if results != [] {
      EmptyItemNeverCompletes(results[1..]);
    }
  }

  /** The callback does not return: however many writes succeed, the loop wants another outcome. */
  ghost predicate Spins(item: seq<bv8>) {
    forall results :: NoError(results) ==>
          WriteItem(item, 0, results).1 != Complete && WriteItem(item, 0, results).2 == []
  }

  /** The thread hangs in the write callback if and only if the item is empty. */
  lemma SpinsIffEmpty(item: seq<bv8>)
    ensures Spins(item) <==> item == []
  {
    if item == [] {
      forall results | NoError(results) ensures WriteItem(item, 0, results) == (0, Later, []) {
        EmptyItemNeverCompletes(results);
      }
    } else {
      var once := [Wrote(|item|)];
      assert once[0] == Wrote(|item|) && NoError(once);
      assert WriteItem(item, 0, once).1 == Complete;
    }
  }

  /** Completion is possible exactly for non-empty items. */
  lemma CompletableIffNonEmpty(item: seq<bv8>)
    ensures (exists results :: WriteItem(item, 0, results).1 == Complete) <==> item != []
  {
    if item == [] {
      forall results ensures WriteItem(item, 0, results).1 != Complete { EmptyItemNeverCompletes(results); }
    } else {
      var once := [Wrote(|item|)];
      assert once[0] == Wrote(|item|);
      assert WriteItem(item, 0, once).1 == Complete;
    }
  }

  lemma {:induction false} BrokenOnlyByReset(item: seq<bv8>, sent: nat, results: seq<WriteResult>)
    requires sent <= |item| && Reset !in results
    ensures WriteItem(item, sent, results).1 != Broken && Reset !in WriteItem(item, sent, results).2
    decreases |results|
  {
    if results != [] {
      assert results[0] in results && forall r :: r in results[1..] ==> r in results;
      match results[0] {
        case Interrupted => BrokenOnlyByReset(item, sent, results[1..]);
        case Wrote(_) =>
          var n := Accepted(results[0], |item| - sent);
          if sent + n < |item| || n == 0 { BrokenOnlyByReset(item, sent + n, results[1..]); }
        case WouldBlock =>
        case OtherError =>
        case Reset =>
      }
    }
  }

  // ---------------------------------------------------------------------------
  // The whole send list
  // ---------------------------------------------------------------------------

  /** What the callback puts on the wire, what it leaves queued, and how much of it is written already. */
  datatype ListEnd = ListEnd(out: seq<bv8>, left: seq<seq<bv8>>, repeated: nat)

  function WriteList(list: seq<seq<bv8>>, results: seq<WriteResult>): ListEnd
    decreases |list|
  {
    if list == [] then ListEnd([], [], 0)
    else
      var (sent, end, rest) := WriteItem(list[0], 0, results);
      match end
      case Complete => var r := WriteList(list[1..], rest); r.(out := list[0] + r.out)
      case Later => ListEnd(list[0][..sent], [list[0][sent..]] + list[1..], 0)
      case Broken => ListEnd(list[0][..sent], list, sent)
  }

  /** Whatever write returns, an empty item and everything queued behind it stay. */
  lemma {:induction false} EmptyItemBlocks(list: seq<seq<bv8>>, results: seq<WriteResult>, k: nat)
    requires k < |list| && list[k] == []
    ensures var left := WriteList(list, results).left;
            |left| >= |list| - k && left[|left| - (|list| - k)..] == list[k..]
    ensures k == 0 ==> WriteList(list, results).out == [] && WriteList(list, results).left == list
    decreases |list|
  {
    var (sent, end, rest) := WriteItem(list[0], 0, results);
    if k == 0 {
      EmptyItemNeverCompletes(results);
    } else if end == Complete {
      hide WriteItem;
      EmptyItemBlocks(list[1..], rest, k - 1);
      assert list[1..][k - 1..] == list[k..];
    } else if end == Later {
      assert ([list[0][sent..]] + list[1..])[k..] == list[k..];
    }
  }

  // ---------------------------------------------------------------------------
  // One outcome at a time
  // ---------------------------------------------------------------------------

  /** As long as no write fails, an item goes on with further outcomes where the earlier ones left it. */
  lemma {:induction false} ItemGoesOn(item: seq<bv8>, sent: nat, pre: seq<WriteResult>, more: seq<WriteResult>)
    requires sent <= |item| && NoError(pre)
    ensures var r := WriteItem(item, sent, pre);
            if r.1 == Complete then NoError(r.2) && WriteItem(item, sent, pre + more) == (r.0, Complete, r.2 + more)
            else r.1 == Later && r.2 == [] && WriteItem(item, sent, pre + more) == WriteItem(item, r.0, more)
    decreases |pre|
  {
    if pre == [] {
      assert pre + more == more;
    } else {
      assert (pre + more)[0] == pre[0] && (pre + more)[1..] == pre[1..] + more;
      match pre[0] {
        case Interrupted => ItemGoesOn(item, sent, pre[1..], more);
        case Wrote(_) =>
          var n := Accepted(pre[0], |item| - sent);
          if n == 0 || sent + n < |item| { ItemGoesOn(item, sent + n, pre[1..], more); }
        case WouldBlock =>
        case OtherError =>
        case Reset =>
      }
    }
  }

  /** What one more outcome does to a list that the earlier ones have left at `w`; whole items are those
      of `list`. */
  ghost predicate After(list: seq<seq<bv8>>, w: ListEnd, r: WriteResult, next: ListEnd)
    requires w.left != [] && |w.left| <= |list|
  {
    var item, rest := w.left[0], w.left[1..];
    match r
    case Interrupted => next == w
    case WouldBlock => next == w
    case OtherError => next == w
    case Reset =>
      var whole := list[|list| - |w.left|];
      |whole| >= |item| && next == ListEnd(w.out, [whole] + rest, |whole| - |item|)
    case Wrote(n) =>
      if item == [] then next == w
      else if n < |item| then next == ListEnd(w.out + item[..n], [item[n..]] + rest, 0)
      else next == ListEnd(w.out + item, rest, 0)
  }

  lemma PartlyWritten(list: seq<seq<bv8>>, pre: seq<WriteResult>, r: WriteResult, more: seq<WriteResult>)
    requires list != [] && NoError(pre) && WriteItem(list[0], 0, pre).1 != Complete
    ensures var sent := WriteItem(list[0], 0, pre).0;
            && WriteList(list, pre) == ListEnd(list[0][..sent], [list[0][sent..]] + list[1..], 0)
            && WriteItem(list[0], 0, pre + [r] + more) == WriteItem(list[0], sent, [r] + more)
            && ([r] + more)[0] == r && ([r] + more)[1..] == more
  {
    assert pre + [r] + more == pre + ([r] + more);
    ItemGoesOn(list[0], 0, pre, [r] + more);
  }

  lemma ItemAfterError(list: seq<seq<bv8>>, pre: seq<WriteResult>, r: WriteResult, more: seq<WriteResult>)
    requires list != [] && NoError(pre) && WriteItem(list[0], 0, pre).1 != Complete
    requires r.WouldBlock? || r.OtherError? || r.Reset? || (r.Interrupted? && more == [])
    ensures var w := WriteList(list, pre);
            w.left != [] && |w.left| == |list| && After(list, w, r, WriteList(list, pre + [r] + more))
  {
    PartlyWritten(list, pre, r, more);
    var item, sent := list[0], WriteItem(list[0], 0, pre).0;
    assert ([item[sent..]] + list[1..])[1..] == list[1..] && [item] + list[1..] == list;
    if r.Interrupted? { assert WriteItem(item, sent, []) == (sent, Later, []); }
  }

  lemma ItemAfterWrite(list: seq<seq<bv8>>, pre: seq<WriteResult>, r: WriteResult)
    requires list != [] && NoError(pre) && WriteItem(list[0], 0, pre).1 != Complete && r.Wrote?
    ensures var w := WriteList(list, pre);
            w.left != [] && |w.left| == |list| && After(list, w, r, WriteList(list, pre + [r] + []))
  {
    PartlyWritten(list, pre, r, []);
    var item, sent := list[0], WriteItem(list[0], 0, pre).0;
    var k := Accepted(r, |item| - sent);
    OneWrite(item, sent, r);
    Cut(item, sent, k);
    AfterOneWrite(list, pre + [r] + []);
    hide WriteItem, WriteList;
    assert ([item[sent..]] + list[1..])[1..] == list[1..];
    assert k == |item[sent..]| ==> item[sent..][..k] == item[sent..];
  }

  lemma OneWrite(item: seq<bv8>, sent: nat, r: WriteResult)
    requires sent <= |item| && r.Wrote?
    ensures var k := Accepted(r, |item| - sent);
            WriteItem(item, sent, [r] + []) == (sent + k, if k > 0 && sent + k == |item| then Complete else Later, [])
  {
    var k := Accepted(r, |item| - sent);
    assert ([r] + [])[0] == r && ([r] + [])[1..] == [];
    assert WriteItem(item, sent + k, []) == (sent + k, Later, []);
  }

  lemma AfterOneWrite(list: seq<seq<bv8>>, results: seq<WriteResult>)
    requires list != []
    ensures var (sent, end, rest) := WriteItem(list[0], 0, results);
            && (end == Complete && rest == [] ==> WriteList(list, results) == ListEnd(list[0], list[1..], 0))
            && (end == Later ==> WriteList(list, results) == ListEnd(list[0][..sent], [list[0][sent..]] + list[1..], 0))
  {
    hide WriteItem;
    NothingWritten(list[1..]);
    assert list[0] + [] == list[0];
  }

  lemma Cut(item: seq<bv8>, sent: nat, k: nat)
    requires sent + k <= |item|
    ensures item[..sent] + item[sent..][..k] == item[..sent + k] && item[sent..][k..] == item[sent + k..]
    ensures sent + k == |item| ==> item[..sent] + item[sent..] == item == item[..sent + k]
  {
  }

  lemma NothingWritten(list: seq<seq<bv8>>)
    ensures WriteList(list, []) == ListEnd([], list, 0)
  {
    if list != [] {
      assert list[0][..0] == [] && [list[0][0..]] + list[1..] == list;
    }
  }

  lemma {:induction false} OutcomeAfter(list: seq<seq<bv8>>, pre: seq<WriteResult>, r: WriteResult,
                                        more: seq<WriteResult>)
    requires NoError(pre) && WriteList(list, pre).left != []
    requires r.WouldBlock? || r.OtherError? || r.Reset? || more == []
    ensures |WriteList(list, pre).left| <= |list|
    ensures After(list, WriteList(list, pre), r, WriteList(list, pre + [r] + more))
    decreases |list|
  {
    var (sent, end, rest) := WriteItem(list[0], 0, pre);
    ItemGoesOn(list[0], 0, pre, [r] + more);
    if end == Complete {
      assert pre + [r] + more == pre + ([r] + more) && rest + [r] + more == rest + ([r] + more);
      hide WriteItem, After;
      OutcomeAfter(list[1..], rest, r, more);
      AfterBehind(list, WriteList(list[1..], rest), r, WriteList(list[1..], rest + [r] + more));
    } else if r.Wrote? {
      ItemAfterWrite(list, pre, r);
    } else {
      ItemAfterError(list, pre, r, more);
    }
  }

  /** The whole behaviour of the callback, outcome by outcome, whatever came before: a write that takes
      bytes moves them from the list to the wire and an interrupted one changes nothing; a full socket
      buffer and any other error end the callback with the list trimmed to what is unsent, a reset ends it
      with the item whole; and what would have come after an error is not looked at. */
  lemma NextOutcome(list: seq<seq<bv8>>, pre: seq<WriteResult>, r: WriteResult, more: seq<WriteResult>)
    requires NoError(pre) && WriteList(list, pre).left != []
    ensures var w, v := WriteList(list, pre), WriteList(list, pre + [r]);
            && |w.left| <= |list|
            && (r == Interrupted ==> v == w)
            && (r == WouldBlock || r == OtherError ==> v == w)
            && (r == Reset ==>
                  && |list[|list| - |w.left|]| >= |w.left[0]|
                  && v == ListEnd(w.out, [list[|list| - |w.left|]] + w.left[1..],
                                  |list[|list| - |w.left|]| - |w.left[0]|))
            && (r.Wrote? && r.n < |w.left[0]| ==>
                  v == ListEnd(w.out + w.left[0][..r.n], [w.left[0][r.n..]] + w.left[1..], 0))
            && (r.Wrote? && r.n >= |w.left[0]| > 0 ==> v == ListEnd(w.out + w.left[0], w.left[1..], 0))
            && (r.Wrote? && w.left[0] == [] ==> v == w)
    ensures r == WouldBlock || r == OtherError || r == Reset ==>
              WriteList(list, pre + [r] + more) == WriteList(list, pre + [r])
  {
    hide WriteList;
    OutcomeAfter(list, pre, r, []);
    assert pre + [r] + [] == pre + [r];
    if r == WouldBlock || r == OtherError || r == Reset { OutcomeAfter(list, pre, r, more); }
  }

  /** Before the first outcome nothing has happened. */
  lemma NoOutcomeYet(list: seq<seq<bv8>>)
    ensures WriteList(list, []) == ListEnd([], list, 0)
  {
    NothingWritten(list);
  }

  lemma AfterBehind(list: seq<seq<bv8>>, w: ListEnd, r: WriteResult, v: ListEnd)
    requires list != [] && w.left != [] && |w.left| <= |list[1..]| && After(list[1..], w, r, v)
    ensures After(list, w.(out := list[0] + w.out), r, v.(out := list[0] + v.out))
  {
    assert list[1..][|list[1..]| - |w.left|] == list[|list| - |w.left|];
    match r {
      case Wrote(n) =>
        var k := if n < |w.left[0]| then n else |w.left[0]|;
        assert list[0] + (w.out + w.left[0][..k]) == list[0] + w.out + w.left[0][..k];
        assert list[0] + (w.out + w.left[0]) == list[0] + w.out + w.left[0];
      case Interrupted =>
      case WouldBlock =>
      case OtherError =>
      case Reset =>
    }
  }

  /** Once the list is empty the callback writes nothing more. */
  lemma {:induction false} EmptiedIsDone(list: seq<seq<bv8>>, pre: seq<WriteResult>, more: seq<WriteResult>)
    requires NoError(pre) && WriteList(list, pre).left == []
    ensures WriteList(list, pre + more) == WriteList(list, pre)
    decreases |list|
  {
    if list != [] {
      ItemGoesOn(list[0], 0, pre, more);
      EmptiedIsDone(list[1..], WriteItem(list[0], 0, pre).2, more);
    }
  }

  /** Every outcome is a positive number of bytes. */
  ghost predicate Flowing(results: seq<WriteResult>) {
    forall i :: 0 <= i < |results| ==> results[i].Wrote? && results[i].n > 0
  }

  lemma {:induction false} ItemDrains(item: seq<bv8>, sent: nat, results: seq<WriteResult>)
    requires sent < |item| && Flowing(results) && |results| >= |item| - sent
    ensures var r := WriteItem(item, sent, results);
            r.1 == Complete && Flowing(r.2) && |r.2| >= |results| - (|item| - sent)
    decreases |results|
  {
    var n := Accepted(results[0], |item| - sent);
    if sent + n < |item| {
      ItemDrains(item, sent + n, results[1..]);
    }
  }

  /** As long as the socket keeps taking at least one byte per call, as many calls as there are
      queued bytes empty the list, and exactly the queued bytes go out. */
  lemma {:induction false} ListDrains(list: seq<seq<bv8>>, results: seq<WriteResult>)
    requires Flowing(results) && |results| >= |Flatten(list)|
    requires forall i :: 0 <= i < |list| ==> list[i] != []
    ensures WriteList(list, results) == ListEnd(Flatten(list), [], 0)
    decreases |list|
  {
    if list != [] {
      ItemDrains(list[0], 0, results);
      ListDrains(list[1..], WriteItem(list[0], 0, results).2);
    }
  }

  /** `written` without its last `repeated` bytes, followed by the list, is `accepted`. */
  ghost predicate Balanced(written: seq<bv8>, repeated: nat, list: seq<seq<bv8>>, accepted: seq<bv8>) {
    repeated <= |written| && written[..|written| - repeated] + Flatten(list) == accepted
  }

  lemma BalancedCut(written: seq<bv8>, repeated: nat, list: seq<seq<bv8>>, accepted: seq<bv8>)
    requires Balanced(written, repeated, list, accepted)
    ensures repeated <= |written| && Balanced(written[..|written| - repeated], 0, list, accepted)
    ensures written[..|written|] == written
  {
    var w := written[..|written| - repeated];
    assert w[..|w|] == w;
  }

  lemma BalancedSend(written: seq<bv8>, repeated: nat, list: seq<seq<bv8>>, accepted: seq<bv8>, data: seq<bv8>)
    requires Balanced(written, repeated, list, accepted)
    ensures Balanced(written, repeated, list + [data], accepted + data)
  {
    FlattenConcat(list, [data]);
    assert Flatten([data]) == data;
    var w := written[..|written| - repeated];
    assert w + (Flatten(list) + data) == w + Flatten(list) + data;
  }

  /** After `sent` bytes of the first item: a completed item leaves the list, an unfinished one keeps
      its remaining bytes, and a broken one keeps them all. */
  lemma BalancedWrite(written: seq<bv8>, list: seq<seq<bv8>>, accepted: seq<bv8>, sent: nat)
    requires Balanced(written, 0, list, accepted) && list != [] && sent <= |list[0]|
    ensures sent == |list[0]| ==> Balanced(written + list[0][..sent], 0, list[1..], accepted)
    ensures Balanced(written + list[0][..sent], 0, [list[0][sent..]] + list[1..], accepted)
    ensures Balanced(written + list[0][..sent], sent, list, accepted)
  {
    var item, rest := list[0], Flatten(list[1..]);
    var out := written + item[..sent];
    assert written[..|written|] == written && out[..|out|] == out && out[..|out| - sent] == written;
    assert item[..sent] + item[sent..] == item;
    assert written + item[..sent] + (item[sent..] + rest) == written + (item + rest);
    assert ([item[sent..]] + list[1..])[1..] == list[1..];
    assert item[..|item|] == item;
  }

  function Continue(out: seq<bv8>, r: ListEnd): ListEnd {
    r.(out := out + r.out)
  }

  lemma WriteListStep(list: seq<seq<bv8>>, results: seq<WriteResult>, out: seq<bv8>)
    requires list != []
    ensures var (sent, end, rest) := WriteItem(list[0], 0, results);
            var r := WriteList(list, results);
            match end
            case Complete => list[0][..sent] == list[0] &&
                Continue(out, r) == Continue(out + list[0], WriteList(list[1..], rest))
            case Later => r == ListEnd(list[0][..sent], [list[0][sent..]] + list[1..], 0)
            case Broken => r == ListEnd(list[0][..sent], list, sent)
  {
    hide WriteItem;
    var (sent, end, rest) := WriteItem(list[0], 0, results);
    if end == Complete {
      assert out + (list[0] + WriteList(list[1..], rest).out) == (out + list[0]) + WriteList(list[1..], rest).out;
    }
  }

  /** Conservation over a whole callback, whatever the outcomes. */
  lemma {:induction false} BalancedList(written: seq<bv8>, list: seq<seq<bv8>>, accepted: seq<bv8>,
                                        results: seq<WriteResult>)
    requires Balanced(written, 0, list, accepted)
    ensures var r := WriteList(list, results);
            Balanced(written + r.out, r.repeated, r.left, accepted)
    decreases |list|
  {
    hide WriteItem, Balanced;
    if list == [] {
      assert written + [] == written;
    } else {
      var (sent, end, rest) := WriteItem(list[0], 0, results);
      BalancedWrite(written, list, accepted, sent);
      if end == Complete {
        assert list[0][..sent] == list[0];
        BalancedList(written + list[0], list[1..], accepted, rest);
        var more := WriteList(list[1..], rest).out;
        assert written + (list[0] + more) == written + list[0] + more;
      }
    }
  }

  lemma {:induction false} KeepsNonEmpty(list: seq<seq<bv8>>, results: seq<WriteResult>)
    requires forall i :: 0 <= i < |list| ==> list[i] != []
    ensures var r := WriteList(list, results);
            (forall i :: 0 <= i < |r.left| ==> r.left[i] != []) && (r.left != [] ==> list != [])
    decreases |list|
  {
    hide WriteItem;
    if list != [] {
      KeepsNonEmpty(list[1..], WriteItem(list[0], 0, results).2);
    }
  }

  lemma {:induction false} NoResetNoRepeat(list: seq<seq<bv8>>, results: seq<WriteResult>)
    requires Reset !in results
    ensures WriteList(list, results).repeated == 0
    decreases |list|
  {
    hide WriteItem;
    if list != [] {
      BrokenOnlyByReset(list[0], 0, results);
      NoResetNoRepeat(list[1..], WriteItem(list[0], 0, results).2);
    }
  }

  lemma WriteNothing(results: seq<WriteResult>, out: seq<bv8>)
    ensures Continue(out, WriteList([], results)) == ListEnd(out, [], 0)
  {
  }

  class NormalConn {
    var sendList: seq<seq<bv8>>
    var hasWriteEvent: bool
    var armed: bool
    ghost var written: seq<bv8>      // everything the socket has taken
    ghost var settled: seq<bv8>      // what of it will not be written again
    ghost var repeated: nat          // how much of it is written again, because a reset interrupted its item
    ghost var accepted: seq<bv8>     // everything Send has taken
    ghost var delFailed: bool        // the last attempt to disarm the event failed

    /** Nothing queued waits without an armed event; an event armed for nothing means disarming failed. */
    ghost predicate Armed()
      reads this
    {
      && (sendList != [] ==> armed)
      && (armed ==> hasWriteEvent)
      && (armed && sendList == [] ==> delFailed)
    }

    /** Conservation: what is settled, followed by what is queued, is everything sent; and unless a
        reset has interrupted an item, what is settled is everything written. */
    ghost predicate Conserved()
      reads this
    {
      && Balanced(settled, 0, sendList, accepted)
      && |written| == |settled| + repeated && (repeated == 0 ==> written == settled)
    }

    ghost predicate NoEmptyItem()
      reads this
    {
      forall i :: 0 <= i < |sendList| ==> sendList[i] != []
    }

    ghost predicate Valid()
      reads this
    {
      Armed() && Conserved()
    }

    constructor ()
      ensures Valid() && sendList == [] && !armed && written == [] && accepted == [] && repeated == 0
    {
      sendList, hasWriteEvent, armed := [], false, false;
      written, settled, accepted, repeated, delFailed := [], [], [], 0, false;
    }

    /** Queue data, arming the write event when the list was empty. */
    method Send(data: seq<bv8>, created: bool, added: bool) returns (r: int)
      requires Valid()
      modifies this
      ensures Valid() && written == old(written) && repeated == old(repeated)
      ensures r == 0 ==> sendList == old(sendList) + [data] && accepted == old(accepted) + data && armed
      ensures r == -1 ==> sendList == old(sendList) == [] && accepted == old(accepted) && !armed
      ensures r == if (if old(hasWriteEvent) then old(sendList) != [] || added else created && added) then 0 else -1
      ensures old(NoEmptyItem()) && data != [] ==> NoEmptyItem()
    {
      hide Balanced;
      if !hasWriteEvent {
        if !created || !added {
          return -1;
        }
        hasWriteEvent, armed := true, true;
      } else if sendList == [] {
        if !added {
          hasWriteEvent, armed := false, false;
          return -1;
        }
        armed := true;
      }
      BalancedSend(settled, 0, sendList, accepted, data);
      sendList := sendList + [data];
      accepted := accepted + data;
      r := 0;
    }

    /** The inner loop of the callback on the first item of the list. */
    method WriteFirst(results: seq<WriteResult>) returns (sent: nat, end: ItemEnd, rest: seq<WriteResult>)
      requires sendList != []
      modifies this`written
      ensures (sent, end, rest) == WriteItem(sendList[0], 0, results)
      ensures written == old(written) + sendList[0][..sent]
    {
      sent, rest := 0, results;
      var want := |sendList[0]|;
      while true
        invariant sent <= |sendList[0]| && want == |sendList[0]| - sent
        invariant written == old(written) + sendList[0][..sent]
        invariant WriteItem(sendList[0], sent, rest) == WriteItem(sendList[0], 0, results)
        decreases |rest|
      {
        if rest == [] {
          return sent, Later, [];
        }
        var w := rest[0];
        rest := rest[1..];
        if w.Wrote? {
          var n := Accepted(w, want);
          if n == 0 {
            continue;
          }
          written := written + sendList[0][sent..sent + n];
          assert sendList[0][..sent] + sendList[0][sent..sent + n] == sendList[0][..sent + n];
          sent := sent + n;
          if sent == |sendList[0]| {
            end := Complete;
            return;
          }
          want := want - n;
        } else if w.Interrupted? {
          continue;
        } else if w.Reset? {
          end := Broken;
          return;
        } else {
          end := Later;
          return;
        }
      }
    }

    /** The outer loop of the callback: items leave the list as they are completed. */
    method WriteItems(results: seq<WriteResult>)
      modifies this`sendList, this`written, this`repeated
      ensures var r := WriteList(old(sendList), results);
              written == old(written) + r.out && sendList == r.left && repeated == old(repeated) + r.repeated
    {
      hide WriteItem, WriteList;
      var rest := results;
      ghost var all, out: seq<bv8> := WriteList(sendList, results), [];
      while sendList != []
        invariant repeated == old(repeated) && written == old(written) + out
        invariant all == Continue(out, WriteList(sendList, rest))
        decreases |sendList|
      {
        var item := sendList[0];
        ghost var offered := rest;
        var sent, end;
        sent, end, rest := WriteFirst(rest);
        WriteListStep(sendList, offered, out);
        match end {
          case Complete =>
            out := out + item;
            sendList := sendList[1..];
          case Later =>
            sendList := [item[sent..]] + sendList[1..];
            return;
          case Broken =>
            repeated := repeated + sent;
            return;
        }
      }
      WriteNothing(rest, out);
    }

    /** Write as much of the list as the socket takes; disarm the event when nothing is left. */
    method WriteCallback(results: seq<WriteResult>, deleted: bool) returns (refreshed: bool)
      requires Valid()
      modifies this
      ensures Valid() && accepted == old(accepted)
      ensures var r := WriteList(old(sendList), results);
              written == old(written) + r.out && sendList == r.left && repeated == old(repeated) + r.repeated
      ensures Reset !in results ==> repeated == old(repeated)
      ensures old(NoEmptyItem()) ==> NoEmptyItem()
      ensures refreshed <==> sendList == []
      ensures armed == (old(armed) && !(refreshed && deleted))
      ensures delFailed == if refreshed then !deleted else old(delFailed)
    {
      hide Balanced, WriteList;
      ghost var r := WriteList(sendList, results);
      BalancedList(settled, sendList, accepted, results);
      BalancedCut(settled + r.out, r.repeated, r.left, accepted);
      if NoEmptyItem() { KeepsNonEmpty(sendList, results); }
      if Reset !in results { NoResetNoRepeat(sendList, results); }
      WriteItems(results);
      settled := (settled + r.out)[..|settled + r.out| - r.repeated];
      if sendList != [] {
        return false;
      }
      if deleted {
        armed := false;
      }
      delFailed := !deleted;
      refreshed := true;
    }
  }
}
