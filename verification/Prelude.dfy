/** Values shared by the modules of this project. */
module Prelude {

  datatype Option<+T> = None | Some(value: T)

  /** The concatenation of a sequence of chunks. */
  function Flatten<T>(chunks: seq<seq<T>>): seq<T> {
    if chunks == [] then [] else chunks[0] + Flatten(chunks[1..])
  }

  lemma {:induction false} FlattenConcat<T>(a: seq<seq<T>>, b: seq<seq<T>>)
    ensures Flatten(a + b) == Flatten(a) + Flatten(b)
  {
    if a == [] {
      assert a + b == b;
    } else {
      assert (a + b)[1..] == a[1..] + b;
      FlattenConcat(a[1..], b);
    }
  }

  lemma FlattenSnoc<T>(chunks: seq<seq<T>>, i: nat)
    requires i < |chunks|
    ensures Flatten(chunks[..i + 1]) == Flatten(chunks[..i]) + chunks[i]
  {
    assert chunks[..i + 1] == chunks[..i] + [chunks[i]];
    FlattenConcat(chunks[..i], [chunks[i]]);
    assert Flatten([chunks[i]]) == chunks[i];
  }

  lemma Member(s: set<int>) returns (x: int)
    requires s != {}
    ensures x in s
  {
    if forall y :: y !in s { assert false; }
    x :| x in s;
  }

  lemma CountWithout<K, V>(m: map<K, V>, k: K)
    ensures |m - {k}| == if k in m then |m| - 1 else |m|
    ensures |(m - {k}).Keys| == if k in m then |m.Keys| - 1 else |m.Keys|
  {
    assert (m - {k}).Keys == m.Keys - {k};
    if k in m {
      assert m.Keys == (m - {k}).Keys + {k};
    } else {
      assert m - {k} == m;
    }
  }

  lemma CountWith<K, V>(m: map<K, V>, k: K, v: V)
    ensures |m[k := v]| == if k in m then |m| else |m| + 1
  {
    assert m[k := v].Keys == m.Keys + {k};
  }

  /** One more of the keys in `left` is done with and taken out of `m`. */
  lemma BatchShrinks<K, V>(m: map<K, V>, all: set<K>, left: set<K>, k: K)
    requires k in left && left <= all
    ensures m - (all - left) - {k} == m - (all - (left - {k}))
    ensures all - (left - {k}) == all - left + {k}
    ensures |all - (left - {k})| == |all - left| + 1
  {
    assert all - (left - {k}) == all - left + {k};
  }
}
