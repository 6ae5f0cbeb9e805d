/**
 timer_axis/inc/record_timeout_mgr.h: a hash map of records and a multimap of expiry times
 that must agree.  The multimap is a sequence of entries kept in ascending order of time.
 The wall clock is the parameter `now`.
 */
module RecordTimeout {
  import opened Prelude

  datatype ValueCtx<V> = ValueCtx(v: V, upsertTime: int, timeoutSec: int) {
    function Expiry(): int { upsertTime + timeoutSec }
  }

  datatype Entry<K> = Entry(time: int, key: K)

  /** What an expiry callback is told about a record. */
  datatype Expired<V> = Expired(v: V, timeoutSec: int)

  // ---------------------------------------------------------------------------
  // The multimap
  // ---------------------------------------------------------------------------

  ghost predicate Sorted<K>(s: seq<Entry<K>>) {
    forall i, j :: 0 <= i < j < |s| ==> s[i].time <= s[j].time
  }

  ghost predicate DistinctKeys<K>(s: seq<Entry<K>>) {
    forall i, j :: 0 <= i < j < |s| ==> s[i].key != s[j].key
  }

  /** First position whose time is not below `t`. */
  function LowerBound<K>(s: seq<Entry<K>>, t: int): (p: nat)
    ensures p <= |s|
    ensures forall i :: 0 <= i < p ==> s[i].time < t
    ensures p < |s| ==> s[p].time >= t
  {
    if s == [] || s[0].time >= t then 0 else 1 + LowerBound(s[1..], t)
  }

  /** First position whose time is above `t`. */
  function UpperBound<K>(s: seq<Entry<K>>, t: int): (p: nat)
    ensures p <= |s|
    ensures forall i :: 0 <= i < p ==> s[i].time <= t
    ensures p < |s| ==> s[p].time > t
  {
    if s == [] || s[0].time > t then 0 else 1 + UpperBound(s[1..], t)
  }

  /** Insertion behind the entries of equal time, as std::multimap inserts. */
  function Inserted<K>(s: seq<Entry<K>>, e: Entry<K>): (r: seq<Entry<K>>)
  {
    var p := UpperBound(s, e.time);
    s[..p] + [e] + s[p..]
  }

  function Erased<K>(s: seq<Entry<K>>, i: nat): seq<Entry<K>>
    requires i < |s|
  {
    s[..i] + s[i + 1..]
  }

  // ---------------------------------------------------------------------------
  // Agreement of the two indexes
  // ---------------------------------------------------------------------------

  function EntryOf<K, V>(records: map<K, ValueCtx<V>>, k: K): Entry<K>
    requires k in records
  {
    Entry(records[k].Expiry(), k)
  }

  /** The multimap holds exactly one entry (upsert time + timeout, key) per record. */
  ghost predicate Agree<K, V>(records: map<K, ValueCtx<V>>, timeouts: seq<Entry<K>>) {
    && Sorted(timeouts)
    && DistinctKeys(timeouts)
    && (forall i :: 0 <= i < |timeouts| ==>
         timeouts[i].key in records && timeouts[i] == EntryOf(records, timeouts[i].key))
    && (forall k :: k in records ==> EntryOf(records, k) in timeouts)
  }

  lemma InsertedAt<K>(s: seq<Entry<K>>, e: Entry<K>, i: nat)
    requires i <= |s|
    ensures |Inserted(s, e)| == |s| + 1
    ensures var p := UpperBound(s, e.time);
            Inserted(s, e)[i] == if i < p then s[i] else if i == p then e else s[i - 1]
  {
  }

  lemma InsertedShape<K>(s: seq<Entry<K>>, e: Entry<K>)
    requires Sorted(s) && DistinctKeys(s) && forall i :: 0 <= i < |s| ==> s[i].key != e.key
    ensures Sorted(Inserted(s, e)) && DistinctKeys(Inserted(s, e))
  {
    var p := UpperBound(s, e.time);
    forall i, j | 0 <= i < j < |Inserted(s, e)|
      ensures Inserted(s, e)[i].time <= Inserted(s, e)[j].time && Inserted(s, e)[i].key != Inserted(s, e)[j].key
    {
      InsertedAt(s, e, i);
      InsertedAt(s, e, j);
      hide UpperBound, Inserted;
      if j - 1 >= p && p < |s| { assert s[p].time <= s[j - 1].time; }
    }
  }

  lemma InsertedMembers<K>(s: seq<Entry<K>>, e: Entry<K>, x: Entry<K>)
    ensures x in Inserted(s, e) <==> x == e || x in s
  {
  }

  lemma InsertAgrees<K, V>(records: map<K, ValueCtx<V>>, timeouts: seq<Entry<K>>, k: K, ctx: ValueCtx<V>)
    requires Agree(records, timeouts) && k !in records
    ensures Agree(records[k := ctx], Inserted(timeouts, Entry(ctx.Expiry(), k)))
  {
    var e := Entry(ctx.Expiry(), k);
    var s := Inserted(timeouts, e);
    var m := records[k := ctx];
    InsertedShape(timeouts, e);
    hide Inserted, Sorted, DistinctKeys;
    forall i | 0 <= i < |s| ensures s[i].key in m && s[i] == EntryOf(m, s[i].key) {
      InsertedMembers(timeouts, e, s[i]);
    }
    forall x | x in m ensures EntryOf(m, x) in s {
      InsertedMembers(timeouts, e, EntryOf(m, x));
    }
  }

  lemma ErasedShape<K>(s: seq<Entry<K>>, i: nat)
    requires i < |s| && Sorted(s) && DistinctKeys(s)
    ensures Sorted(Erased(s, i)) && DistinctKeys(Erased(s, i))
  {
    var r := Erased(s, i);
    assert forall j :: 0 <= j < |r| ==> r[j] == s[if j < i then j else j + 1];
  }

  lemma ErasedMembers<K>(s: seq<Entry<K>>, i: nat, x: Entry<K>)
    requires i < |s| && DistinctKeys(s)
    ensures x in Erased(s, i) <==> x in s && x.key != s[i].key
  {
    var r := Erased(s, i);
    assert forall j :: 0 <= j < |r| ==> r[j] == s[if j < i then j else j + 1];
    if x in s && x.key != s[i].key {
      var j :| 0 <= j < |s| && s[j] == x;
      assert r[if j < i then j else j - 1] == x;
    }
  }

  lemma EraseAgrees<K, V>(records: map<K, ValueCtx<V>>, timeouts: seq<Entry<K>>, i: nat)
    requires Agree(records, timeouts) && i < |timeouts|
    ensures Agree(records - {timeouts[i].key}, Erased(timeouts, i))
  {
    var s := Erased(timeouts, i);
    var m := records - {timeouts[i].key};
    ErasedShape(timeouts, i);
    forall j | 0 <= j < |s| ensures s[j].key in m && s[j] == EntryOf(m, s[j].key) {
      ErasedMembers(timeouts, i, s[j]);
    }
    forall x | x in m ensures EntryOf(m, x) in s {
      ErasedMembers(timeouts, i, EntryOf(m, x));
    }
  }

  lemma WithinEqualRange<K>(s: seq<Entry<K>>, i: nat)
    requires Sorted(s) && i < |s|
    ensures LowerBound(s, s[i].time) <= i < UpperBound(s, s[i].time)
  {
    hide LowerBound, UpperBound;
  }

  /** The entry of a record lies within the equal range of its expiry time. */
  lemma EntryPosition<K, V>(records: map<K, ValueCtx<V>>, timeouts: seq<Entry<K>>, k: K) returns (i: nat)
    requires Agree(records, timeouts) && k in records
    ensures i < |timeouts| && timeouts[i].key == k
    ensures LowerBound(timeouts, records[k].Expiry()) <= i < UpperBound(timeouts, records[k].Expiry())
  {
    assert EntryOf(records, k) in timeouts;
    hide LowerBound, UpperBound, Sorted, DistinctKeys;
    i :| 0 <= i < |timeouts| && timeouts[i] == EntryOf(records, k);
    WithinEqualRange(timeouts, i);
  }

  /** Sizes agree too: neither index can outgrow the other. */
  lemma {:induction false} AgreeSameSize<K, V>(records: map<K, ValueCtx<V>>, timeouts: seq<Entry<K>>)
    requires Agree(records, timeouts)
    ensures |records| == |timeouts|
    decreases |timeouts|
  {
    if timeouts == [] {
      if k :| k in records {
        assert EntryOf(records, k) in timeouts;
      }
    } else {
      var k := timeouts[0].key;
      FrontHasRecord(records, timeouts);
      EraseAgrees(records, timeouts, 0);
      hide Agree;
      CountWithout(records, k);
      AgreeSameSize(records - {k}, Erased(timeouts, 0));
    }
  }

  // ---------------------------------------------------------------------------
  // The expiry scan, one iteration at a time
  // ---------------------------------------------------------------------------

  function DueRecords<K, V>(records: map<K, ValueCtx<V>>, now: int): map<K, Expired<V>> {
    map k | k in records && records[k].Expiry() <= now :: Expired(records[k].v, records[k].timeoutSec)
  }

  function LiveRecords<K, V>(records: map<K, ValueCtx<V>>, now: int): map<K, ValueCtx<V>> {
    map k | k in records && records[k].Expiry() > now :: records[k]
  }

  datatype Scan<K, V> = Scan(records: map<K, ValueCtx<V>>, timeouts: seq<Entry<K>>, due: map<K, Expired<V>>)

  /** One iteration of the scan; None when the loop leaves.  An entry whose key has no record
      takes the `continue` that does not advance. */
  function ScanStep<K(==), V>(s: Scan<K, V>, now: int): Option<Scan<K, V>> {
    if s.timeouts == [] then None
    else
      var k := s.timeouts[0].key;
      if k !in s.records then Some(s)
      else if now >= s.timeouts[0].time then
        Some(Scan(s.records - {k}, s.timeouts[1..],
                  s.due[k := Expired(s.records[k].v, s.records[k].timeoutSec)]))
      else None
  }

  function ScanSteps<K(==), V>(s: Scan<K, V>, now: int, n: nat): Option<Scan<K, V>>
    decreases n
  {
    if n == 0 then Some(s)
    else match ScanStep(s, now)
      case None => None
      case Some(s') => ScanSteps(s', now, n - 1)
  }

  /** The scan leaves its loop after finitely many iterations. */
  ghost predicate ScanEnds<K, V>(s: Scan<K, V>, now: int) {
    exists n: nat :: ScanSteps(s, now, n).None?
  }

  /** The first orphan entry, one without a record, that the scan can reach. */
  ghost predicate OrphanReached<K, V>(s: Scan<K, V>, now: int) {
    exists i :: 0 <= i < |s.timeouts| && OrphanAt(s, i) && forall j :: 0 <= j < i ==>
          !OrphanAt(s, j) && s.timeouts[j].time <= now
  }

  /** Entry `i` finds no record when the scan arrives: it never had one, or its key was already erased. */
  ghost predicate OrphanAt<K, V>(s: Scan<K, V>, i: nat)
    requires i < |s.timeouts|
  {
    s.timeouts[i].key !in s.records || exists j :: 0 <= j < i && s.timeouts[j].key == s.timeouts[i].key
  }

  lemma {:induction false} StuckForever<K, V>(s: Scan<K, V>, now: int, n: nat)
    requires s.timeouts != [] && s.timeouts[0].key !in s.records
    ensures ScanSteps(s, now, n) == Some(s)
  {
    if n > 0 {
      StuckForever(s, now, n - 1);
    }
  }

  lemma ShiftOrphans<K, V>(s: Scan<K, V>, now: int)
    requires s.timeouts != [] && s.timeouts[0].key in s.records && now >= s.timeouts[0].time
    ensures OrphanReached(ScanStep(s, now).value, now) <==> OrphanReached(s, now)
  {
    var s' := ScanStep(s, now).value;
    forall i | 0 <= i < |s'.timeouts| ensures OrphanAt(s', i) <==> OrphanAt(s, i + 1) {
      if OrphanAt(s, i + 1) && s.timeouts[i + 1].key in s.records {
        var j :| 0 <= j < i + 1 && s.timeouts[j].key == s.timeouts[i + 1].key;
        if j > 0 { assert s'.timeouts[j - 1].key == s'.timeouts[i].key; }
      }
      if OrphanAt(s', i) && s'.timeouts[i].key in s'.records {
        var j :| 0 <= j < i && s'.timeouts[j].key == s'.timeouts[i].key;
        assert s.timeouts[j + 1].key == s.timeouts[i + 1].key;
      }
    }
    if OrphanReached(s, now) {
      var i :| 0 <= i < |s.timeouts| && OrphanAt(s, i) && forall j :: 0 <= j < i ==>
            !OrphanAt(s, j) && s.timeouts[j].time <= now;
      assert i > 0;
      forall j | 0 <= j < i - 1 ensures !OrphanAt(s', j) && s'.timeouts[j].time <= now { assert !OrphanAt(s, j + 1); }
      assert OrphanAt(s', i - 1);
    }
    if OrphanReached(s', now) {
      var i :| 0 <= i < |s'.timeouts| && OrphanAt(s', i) && forall j :: 0 <= j < i ==>
            !OrphanAt(s', j) && s'.timeouts[j].time <= now;
      forall j | 0 <= j < i + 1 ensures !OrphanAt(s, j) && s.timeouts[j].time <= now {
        if j > 0 { assert !OrphanAt(s', j - 1); }
      }
      assert OrphanAt(s, i + 1);
    }
  }

  /** The scan ends exactly when it reaches no orphan entry: the non-advancing `continue` is the
      only way to hang. */
  lemma {:induction false} ScanEndsIffNoOrphan<K, V>(s: Scan<K, V>, now: int)
    ensures ScanEnds(s, now) <==> !OrphanReached(s, now)
    decreases |s.timeouts|
  {
    if s.timeouts == [] {
      assert ScanSteps(s, now, 1).None?;
    } else if s.timeouts[0].key !in s.records {
      assert OrphanAt(s, 0);
      forall n: nat ensures ScanSteps(s, now, n).Some? { StuckForever(s, now, n); }
    } else if now >= s.timeouts[0].time {
      var s' := ScanStep(s, now).value;
      ScanEndsIffNoOrphan(s', now);
      ShiftOrphans(s, now);
      if ScanEnds(s', now) {
        var n: nat :| ScanSteps(s', now, n).None?;
        assert ScanSteps(s, now, n + 1).None?;
      }
      if ScanEnds(s, now) {
        var n: nat :| ScanSteps(s, now, n).None?;
        assert n > 0 && ScanSteps(s', now, n - 1).None?;
      }
    } else {
      assert ScanSteps(s, now, 1).None?;
    }
  }

  /** Agreement of the indexes rules orphans out. */
  lemma AgreeHasNoOrphan<K, V>(s: Scan<K, V>, now: int)
    requires Agree(s.records, s.timeouts)
    ensures ScanEnds(s, now)
  {
    assert forall i :: 0 <= i < |s.timeouts| ==> !OrphanAt(s, i);
    ScanEndsIffNoOrphan(s, now);
  }

  // ---------------------------------------------------------------------------
  // The manager
  // ---------------------------------------------------------------------------

  class RecordTimeoutMgr<K(==), V> {
    var records: map<K, ValueCtx<V>>
    var timeouts: seq<Entry<K>>

    ghost predicate Valid()
      reads this
    {
      Agree(records, timeouts)
    }

    constructor ()
      ensures Valid() && records == map[]
    {
      records, timeouts := map[], [];
    }

    method RecordExist(k: K) returns (found: bool)
      ensures found <==> k in records
    {
      found := k in records;
    }

    method GetRecord(k: K) returns (r: Option<Expired<V>>)
      ensures r == if k in records then Some(Expired(records[k].v, records[k].timeoutSec)) else None
    {
      if k in records {
        return Some(Expired(records[k].v, records[k].timeoutSec));
      }
      return None;
    }

    /** Walk the equal range of the record's expiry time and erase the entry of its key. */
    method EraseEntry(k: K)
      requires Valid() && k in records
      modifies this`timeouts
      ensures Agree(records - {k}, timeouts)
    {
      hide Agree;
      var t := records[k].Expiry();
      var pos, last := LowerBound(timeouts, t), UpperBound(timeouts, t);
      ghost var target := EntryPosition(records, timeouts, k);
      while pos != last
        invariant timeouts == old(timeouts)
        invariant pos <= target < last <= |timeouts|
        decreases last - pos
      {
        if timeouts[pos].key == k {
          EraseAgrees(records, timeouts, pos);
          timeouts := Erased(timeouts, pos);
          return;
        }
        pos := pos + 1;
      }
    }

    /** Insert a record, or refresh the times of an existing one, whose value stays. */
    method UpsertRecord(k: K, v: V, timeoutSec: int, now: int)
      requires Valid()
      modifies this
      ensures Valid()
      ensures var value := if k in old(records) then old(records)[k].v else v;
              records == old(records)[k := ValueCtx(value, now, timeoutSec)]
    {
      hide Agree, Inserted;
      var value := v;
      var without := records;
      if k in records {
        EraseEntry(k);
        value := records[k].v;
        without := records - {k};
      }
      var ctx := ValueCtx(value, now, timeoutSec);
      InsertAgrees(without, timeouts, k, ctx);
      assert without[k := ctx] == records[k := ctx];
      records := records[k := ctx];
      timeouts := Inserted(timeouts, Entry(now + timeoutSec, k));
    }

    method RemoveRecord(k: K)
      requires Valid()
      modifies this
      ensures Valid()
      ensures records == old(records) - {k}
    {
      if k !in records {
        assert records == records - {k};
        return;
      }
      EraseEntry(k);
      records := records - {k};
    }

    /** Remove every record whose time has come and report each once, with its stored value. */
    method OnTimer(now: int) returns (due: map<K, Expired<V>>)
      requires Valid()
      modifies this
      ensures Valid()
      ensures due == DueRecords(old(records), now)
      ensures records == LiveRecords(old(records), now)
      ensures forall k :: k in due <==>
                k in old(records) && now >= old(records)[k].upsertTime + old(records)[k].timeoutSec
      ensures forall k :: k in due ==> due[k] == Expired(old(records)[k].v, old(records)[k].timeoutSec)
      ensures forall k :: k in records <==>
                k in old(records) && now < old(records)[k].upsertTime + old(records)[k].timeoutSec
      ensures forall k :: k in records ==> records[k] == old(records)[k]
    {
      hide Agree;
      ghost var all := records;
      due := map[];
      while timeouts != []
        invariant Agree(records, timeouts)
        invariant Partition(all, records, due, now)
        decreases |timeouts|
      {
        FrontHasRecord(records, timeouts);
        var k := timeouts[0].key;  // always found, so the branch that does not advance is dead
        if now >= timeouts[0].time {
          EraseAgrees(records, timeouts, 0);
          assert Erased(timeouts, 0) == timeouts[1..];
          PartitionStep(all, records, due, now, k);
          due := due[k := Expired(records[k].v, records[k].timeoutSec)];
          records := records - {k};
          timeouts := timeouts[1..];
        } else {
          break;
        }
      }
      RestIsLive(records, timeouts, now);
      PartitionDone(all, records, due, now);
    }
  }

  /** The records seen so far are split into the due ones and the remaining ones. */
  ghost predicate Partition<K, V>(all: map<K, ValueCtx<V>>, records: map<K, ValueCtx<V>>, due: map<K, Expired<V>>,
                                  now: int) {
    && (forall k :: k in records ==> k in all && records[k] == all[k])
    && (forall k :: k in due ==>
         k in all && k !in records && all[k].Expiry() <= now && due[k] == Expired(all[k].v, all[k].timeoutSec))
    && (forall k :: k in all ==> k in records || k in due)
  }

  lemma PartitionStep<K, V>(all: map<K, ValueCtx<V>>, records: map<K, ValueCtx<V>>, due: map<K, Expired<V>>,
                            now: int, k: K)
    requires Partition(all, records, due, now) && k in records && records[k].Expiry() <= now
    ensures Partition(all, records - {k}, due[k := Expired(records[k].v, records[k].timeoutSec)], now)
  {
  }

  lemma PartitionDone<K, V>(all: map<K, ValueCtx<V>>, records: map<K, ValueCtx<V>>, due: map<K, Expired<V>>, now: int)
    requires Partition(all, records, due, now)
    requires forall k :: k in records ==> records[k].Expiry() > now
    ensures due == DueRecords(all, now) && records == LiveRecords(all, now)
  {
  }

  lemma FrontHasRecord<K, V>(records: map<K, ValueCtx<V>>, timeouts: seq<Entry<K>>)
    requires Agree(records, timeouts) && timeouts != []
    ensures timeouts[0].key in records && timeouts[0].time == records[timeouts[0].key].Expiry()
  {
  }

  lemma RestIsLive<K, V>(records: map<K, ValueCtx<V>>, timeouts: seq<Entry<K>>, now: int)
    requires Agree(records, timeouts) && (timeouts == [] || now < timeouts[0].time)
    ensures forall x :: x in records ==> records[x].Expiry() > now
  {
    forall x | x in records ensures records[x].Expiry() > now {
      var i :| 0 <= i < |timeouts| && timeouts[i] == EntryOf(records, x);
    }
  }
}
