/** A Java map with String keys, seen through its iteration order: a sequence of (key, value) entries with
    distinct keys. `Put` overwrites the value of a present key where it stands and appends
    a new key at the end, which is exactly java.util.LinkedHashMap; for a HashMap, whose
    iteration order Java leaves unspecified, the model fixes this same insertion order. */
module Assoc {
  import opened Wrappers

  type Assoc<V> = seq<(string, V)>

  /** The keys, in iteration order. */
  function Keys<V>(m: Assoc<V>): (ks: seq<string>)
    ensures |ks| == |m|
    decreases |m|
  {
    if |m| == 0 then [] else [m[0].0] + Keys(m[1..])
  }

  /** The values, in iteration order (Map.values()). */
  function Values<V>(m: Assoc<V>): (vs: seq<V>)
    ensures |vs| == |m|
    decreases |m|
  {
    if |m| == 0 then [] else [m[0].1] + Values(m[1..])
  }

  predicate DistinctKeys<V>(m: Assoc<V>) {
    forall i, j :: 0 <= i < j < |m| ==> m[i].0 != m[j].0
  }

  /** Map.get: the value of the first entry with key `k`, or null. */
  function Get<V>(m: Assoc<V>, k: string): (r: Option<V>)
    decreases |m|
  {
    if |m| == 0 then None
    else if m[0].0 == k then Some(m[0].1)
    else Get(m[1..], k)
  }

  /** Map.get finds exactly the keys that are present, and a value it returns is stored
      under that key. */
  lemma {:induction false} GetFound<V>(m: Assoc<V>, k: string)
    ensures Get(m, k).None? <==> k !in Keys(m)
    ensures Get(m, k).Some? ==> (k, Get(m, k).value) in m
    decreases |m|
  {
    if |m| > 0 && m[0].0 != k {
      GetFound(m[1..], k);
    }
  }

  /** Map.getOrDefault */
  function GetOr<V>(m: Assoc<V>, k: string, default: V): V {
    match Get(m, k)
    case Some(v) => v
    case None => default
  }

  /** Map.put: overwrite the value of `k` where it stands, or append a new entry. */
  function Put<V>(m: Assoc<V>, k: string, v: V): (r: Assoc<V>)
    decreases |m|
  {
    if |m| == 0 then [(k, v)]
    else if m[0].0 == k then [(k, v)] + m[1..]
    else [m[0]] + Put(m[1..], k, v)
  }

  /** After a put, the key reads back the new value and every other key reads as before. */
  lemma {:induction false} PutGet<V>(m: Assoc<V>, k: string, v: V, k': string)
    ensures Get(Put(m, k, v), k') == if k' == k then Some(v) else Get(m, k')
    decreases |m|
  {
    if |m| > 0 && m[0].0 != k {
      var r := Put(m, k, v);
      assert r[1..] == Put(m[1..], k, v);
      PutGet(m[1..], k, v, k');
    } else if |m| > 0 {
      assert Put(m, k, v)[1..] == m[1..];
    }
  }

  /** Every entry after a put is the new entry or one that was there before. */
  lemma {:induction false} PutEntriesFrom<V>(m: Assoc<V>, k: string, v: V)
    ensures forall e :: e in Put(m, k, v) ==> e == (k, v) || e in m
    decreases |m|
  {
    if |m| > 0 && m[0].0 != k {
      PutEntriesFrom(m[1..], k, v);
      assert Put(m, k, v) == [m[0]] + Put(m[1..], k, v);
      assert forall e :: e in m[1..] ==> e in m;
    } else if |m| > 0 {
      assert forall e :: e in m[1..] ==> e in m;
    }
  }

  /** A put keeps the key order: a present key stays where it is, a new key goes last. */
  lemma {:induction false} PutKeys<V>(m: Assoc<V>, k: string, v: V)
    ensures Keys(Put(m, k, v)) == if k in Keys(m) then Keys(m) else Keys(m) + [k]
    decreases |m|
  {
    if |m| > 0 {
      var r := Put(m, k, v);
      if m[0].0 == k {
        assert r[1..] == m[1..];
      } else {
        assert r[1..] == Put(m[1..], k, v);
        PutKeys(m[1..], k, v);
        assert Keys(m) == [m[0].0] + Keys(m[1..]);
      }
    }
  }

  lemma {:induction false} KeyAt<V>(m: Assoc<V>, i: nat)
    requires i < |m|
    ensures Keys(m)[i] == m[i].0
    decreases i
  {
    if i > 0 {
      KeyAt(m[1..], i - 1);
    }
  }

  /** Putting a key that is not yet present appends it, so a run of puts with distinct
      keys rebuilds the entries in order. */
  lemma {:induction false} PutNewKey<V>(m: Assoc<V>, k: string, v: V)
    requires k !in Keys(m)
    ensures Put(m, k, v) == m + [(k, v)]
    decreases |m|
  {
    if |m| > 0 {
      assert Keys(m)[0] == m[0].0;
      assert k !in Keys(m[1..]) by {
        assert Keys(m) == [m[0].0] + Keys(m[1..]);
      }
      PutNewKey(m[1..], k, v);
      assert [m[0]] + (m[1..] + [(k, v)]) == m + [(k, v)];
    }
  }

  /** Put never creates a duplicate key. */
  lemma PutDistinct<V>(m: Assoc<V>, k: string, v: V)
    requires DistinctKeys(m)
    ensures DistinctKeys(Put(m, k, v))
    ensures |Put(m, k, v)| == if k in Keys(m) then |m| else |m| + 1
  {
    var r := Put(m, k, v);
    PutKeys(m, k, v);
    forall i, j | 0 <= i < j < |r| ensures r[i].0 != r[j].0 {
      KeyAt(r, i);
      KeyAt(r, j);
      if k in Keys(m) {
        KeyAt(m, i);
        KeyAt(m, j);
      } else if j < |m| {
        KeyAt(m, i);
        KeyAt(m, j);
      } else {
        KeyAt(m, i);
        assert Keys(r)[j] == k;
      }
    }
  }

  /** A put per present entry, in order; absent (None) entries are skipped. */
  function Collect<V>(es: seq<Option<(string, V)>>): (m: Assoc<V>)
    decreases |es|
  {
    if |es| == 0 then []
    else
      var m := Collect(es[..|es| - 1]);
      match es[|es| - 1]
      case Some(e) => Put(m, e.0, e.1)
      case None => m
  }

  lemma {:induction false} CollectDistinct<V>(es: seq<Option<(string, V)>>)
    ensures DistinctKeys(Collect(es))
    decreases |es|
  {
    if |es| > 0 {
      var m := Collect(es[..|es| - 1]);
      CollectDistinct(es[..|es| - 1]);
      if es[|es| - 1].Some? {
        PutDistinct(m, es[|es| - 1].value.0, es[|es| - 1].value.1);
      }
    }
  }

  /** The value of the LAST entry whose key is `k`, found by reading the entries
      backwards. */
  function LastValue<V>(es: seq<Option<(string, V)>>, k: string): (r: Option<V>)
    ensures r.Some? ==> exists i :: 0 <= i < |es| && es[i] == Some((k, r.value))
    decreases |es|
  {
    if |es| == 0 then None
    else
      var n := |es| - 1;
      if es[n].Some? && es[n].value.0 == k then Some(es[n].value.1)
      else
        var r := LastValue(es[..n], k);
        assert r.Some? ==> exists i :: 0 <= i < n && es[i] == Some((k, r.value)) by {
          if r.Some? {
            var i :| 0 <= i < n && es[..n][i] == Some((k, r.value));
            assert es[i] == es[..n][i];
          }
        }
        r
  }

  lemma {:induction false} CollectLastWins<V>(es: seq<Option<(string, V)>>, k: string)
    ensures Get(Collect(es), k) == LastValue(es, k)
    decreases |es|
  {
    if |es| > 0 {
      CollectLastWins(es[..|es| - 1], k);
      var e := es[|es| - 1];
      if e.Some? {
        PutGet(Collect(es[..|es| - 1]), e.value.0, e.value.1, k);
      }
    }
  }

  lemma CollectSnoc<V>(es: seq<Option<(string, V)>>, e: (string, V))
    ensures Collect(es + [Some(e)]) == Put(Collect(es), e.0, e.1)
  {
    assert (es + [Some(e)])[..|es|] == es;
  }

  /** One more entry: a put when it is present, nothing when it is not. */
  lemma CollectPrefix<V>(es: seq<Option<(string, V)>>, i: nat)
    requires i < |es|
    ensures Collect(es[..i + 1]) ==
      match es[i]
      case Some(e) => Put(Collect(es[..i]), e.0, e.1)
      case None => Collect(es[..i])
  {
    assert es[..i + 1][..i] == es[..i];
  }
}
