/** The `Map<String,String>` of native compiler flags that the processor
    builds with `HashMap.put`, as an insertion-ordered list of entries with
    distinct keys. `put` on a present key overwrites its value in place; on
    an absent key it appends. The Java map enumerates its entries in an
    unspecified order; this model fixes the enumeration to insertion order. */
module ArgumentMap {
  import opened Maybe

  type Entry = (string, string)

  /** The keys of an entry list (`keySet()`). */
  function Keys(es: seq<Entry>): set<string>
  {
    set i | 0 <= i < |es| :: es[i].0
  }

  /** `get`: the value stored under `k`, or None where Java returns null. */
  function Get(m: map<string, string>, k: string): Option<string>
  {
    if k in m then Some(m[k]) else None
  }

  /** The representation invariant of a Java map: no key occurs twice. */
  predicate DistinctKeys(es: seq<Entry>)
  {
    forall i, j :: 0 <= i < j < |es| ==> es[i].0 != es[j].0
  }

  /** Keys of a list built by prepending one entry. */
  lemma KeysCons(e: Entry, es: seq<Entry>)
    ensures Keys([e] + es) == {e.0} + Keys(es)
  {
    var l := [e] + es;
    assert l[0] == e;
    forall i | 0 <= i < |es| ensures l[i + 1] == es[i] { }
    forall k | k in Keys(l) ensures k in {e.0} + Keys(es) {
      var i :| 0 <= i < |l| && l[i].0 == k;
      if i > 0 { assert es[i - 1].0 == k; }
    }
  }

  /** Distinctness of a list built by prepending one entry. */
  lemma DistinctCons(e: Entry, es: seq<Entry>)
    ensures DistinctKeys([e] + es) <==> DistinctKeys(es) && e.0 !in Keys(es)
  {
    var l := [e] + es;
    assert l[0] == e;
    forall i | 0 <= i < |es| ensures l[i + 1] == es[i] { }
    forall i | 1 <= i < |l| ensures es[i - 1] == l[i] { }
  }

  /** The map an entry list denotes; a later entry for a key overrides an
      earlier one, as successive `put`s would. */
  function ToMap(es: seq<Entry>): (m: map<string, string>)
    ensures m.Keys == Keys(es)
  {
    if |es| == 0 then map[]
    else
      assert es == [es[0]] + es[1..];
      KeysCons(es[0], es[1..]);
      map[es[0].0 := es[0].1] + ToMap(es[1..])
  }

  lemma ToMapCons(e: Entry, es: seq<Entry>)
    ensures ToMap([e] + es) == map[e.0 := e.1] + ToMap(es)
  {
    assert ([e] + es)[0] == e && ([e] + es)[1..] == es;
  }

  /** `HashMap.put(k, v)`: an entry already holding `k` has its value
      replaced where it stands; otherwise `(k, v)` is appended. */
  function Put(es: seq<Entry>, k: string, v: string): (r: seq<Entry>)
    requires DistinctKeys(es)
    ensures |r| == if k in Keys(es) then |es| else |es| + 1
    ensures forall i :: 0 <= i < |es| ==> r[i] == if es[i].0 == k then (k, v) else es[i]
    ensures k !in Keys(es) ==> r[|es|] == (k, v)
  {
    if |es| == 0 then [(k, v)]
    else
      assert es == [es[0]] + es[1..];
      KeysCons(es[0], es[1..]);
      DistinctCons(es[0], es[1..]);
      if es[0].0 == k then [(k, v)] + es[1..]
      else [es[0]] + Put(es[1..], k, v)
  }

  /** `put` adds `k` to the keys and nothing else. */
  lemma {:induction false} PutKeys(es: seq<Entry>, k: string, v: string)
    requires DistinctKeys(es)
    ensures Keys(Put(es, k, v)) == Keys(es) + {k}
  {
    if |es| == 0 {
      KeysCons((k, v), []);
      assert Put(es, k, v) == [(k, v)] + [];
    } else {
      var e, tail := es[0], es[1..];
      assert es == [e] + tail;
      KeysCons(e, tail);
      if e.0 == k {
        PutAtHeadShape(e, tail, v);
        KeysCons((k, v), tail);
      } else {
        PutPastHeadShape(e, tail, k, v);
        PutKeys(tail, k, v);
        KeysCons(e, Put(tail, k, v));
      }
    }
  }

  /** `put` keeps the keys distinct. */
  lemma PutDistinct(es: seq<Entry>, k: string, v: string)
    requires DistinctKeys(es)
    ensures DistinctKeys(Put(es, k, v))
  {
    var r := Put(es, k, v);
    forall i, j | 0 <= i < j < |r| ensures r[i].0 != r[j].0 {
      if j < |es| {
        assert r[i].0 == (if es[i].0 == k then k else es[i].0);
        assert r[j].0 == (if es[j].0 == k then k else es[j].0);
      } else {
        assert k !in Keys(es);
        assert es[i].0 in Keys(es);
      }
    }
  }

  /** `put` changes the denoted map at `k` only. */
  lemma {:induction false} PutDenotes(es: seq<Entry>, k: string, v: string)
    requires DistinctKeys(es)
    ensures ToMap(Put(es, k, v)) == ToMap(es)[k := v]
  {
    if |es| > 0 {
      var e, tail := es[0], es[1..];
      assert es == [e] + tail;
      if e.0 == k {
        PutAtHead(e, tail, v);
      } else {
        PutPastHeadShape(e, tail, k, v);
        PutDenotes(tail, k, v);
        ToMapCons(e, Put(tail, k, v));
        ToMapCons(e, tail);
        UpdateBelow(e.0, e.1, ToMap(tail), k, v);
      }
    }
  }

  lemma PutAtHeadShape(e: Entry, tail: seq<Entry>, v: string)
    requires DistinctKeys([e] + tail)
    ensures Put([e] + tail, e.0, v) == [(e.0, v)] + tail
  {
    DistinctCons(e, tail);
  }

  lemma PutPastHeadShape(e: Entry, tail: seq<Entry>, k: string, v: string)
    requires DistinctKeys([e] + tail) && e.0 != k
    ensures DistinctKeys(tail)
    ensures Put([e] + tail, k, v) == [e] + Put(tail, k, v)
  {
    DistinctCons(e, tail);
  }

  lemma PutAtHead(e: Entry, tail: seq<Entry>, v: string)
    requires DistinctKeys([e] + tail)
    ensures ToMap(Put([e] + tail, e.0, v)) == ToMap([e] + tail)[e.0 := v]
  {
    var k := e.0;
    PutAtHeadShape(e, tail, v);
    DistinctCons(e, tail);
    var m := ToMap(tail);
    assert k !in m;
    calc {
      ToMap(Put([e] + tail, k, v));
      ToMap([(k, v)] + tail);
      { ToMapCons((k, v), tail); }
      map[k := v] + m;
      (map[k := e.1] + m)[k := v];
      { ToMapCons(e, tail); }
      ToMap([e] + tail)[k := v];
    }
  }

  /** Updating a key other than `a` commutes with putting `a` underneath. */
  lemma UpdateBelow(a: string, b: string, m: map<string, string>, k: string, v: string)
    requires a != k
    ensures map[a := b] + m[k := v] == (map[a := b] + m)[k := v]
  {
  }

  /** Appending an entry updates the denoted map at its key. */
  lemma {:induction false} ToMapSnoc(es: seq<Entry>, e: Entry)
    ensures ToMap(es + [e]) == ToMap(es)[e.0 := e.1]
  {
    if |es| == 0 {
      assert es + [e] == [e] + [];
      ToMapCons(e, []);
    } else {
      var h, tail := es[0], es[1..];
      assert es == [h] + tail;
      assert es + [e] == [h] + (tail + [e]);
      ToMapSnoc(tail, e);
      ToMapCons(h, tail + [e]);
      ToMapCons(h, tail);
    }
  }
}
