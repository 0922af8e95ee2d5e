/**
 The counter pool (`Counters.CounterPool`): a map from key to counter,
 filled lazily. Every operation of the Java class is `synchronized`, so each
 one is modelled as a single atomic step on an immutable map.
 */
module CounterPool {
  import opened JavaInt
  import opened CounterCell
  import opened Wrappers

  type Pool = map<string, Counter>

  /** The pool a freshly started service holds. */
  const Empty: Pool := map[]

  /** The pool's invariant: each counter is stored under its own name. */
  ghost predicate Valid(p: Pool)
  {
    forall k :: k in p ==> p[k].name == k
  }

  /** The value stored under `k`, with an absent key reading as the zero it would be created with. */
  function ValueOf(p: Pool, k: string): Int32
  {
    if k in p then p[k].value else 0
  }

  /** The pool after a lookup, and the counter found or created. */
  datatype Lookup = Lookup(pool: Pool, counter: Counter)

  /** `CounterPool.get`: the counter under `k`, created at zero on first reference. */
  function Get(p: Pool, k: string): (r: Lookup)
    ensures k in r.pool && r.counter == r.pool[k]
    ensures k in p ==> r.pool == p
    ensures k !in p ==> r.pool.Keys == p.Keys + {k} && r.counter == Counter(k, 0)
    ensures forall j :: j in p ==> j in r.pool && r.pool[j] == p[j]
    ensures Valid(p) ==> Valid(r.pool) && r.counter.name == k
  {
    if k in p then Lookup(p, p[k])
    else
      var c := New(k);
      Lookup(p[k := c], c)
  }

  /** `CounterPool.resetAll`: every counter back to zero; no key added or removed. */
  function ResetAll(p: Pool): (r: Pool)
    ensures r.Keys == p.Keys
    ensures forall k :: k in p ==> r[k].name == p[k].name && r[k].value == 0
    ensures Valid(p) ==> Valid(r)
  {
    map k | k in p :: Reset(p[k])
  }

  /** Resetting everything twice is the same as resetting it once. */
  lemma ResetAllIdempotent(p: Pool)
    ensures ResetAll(ResetAll(p)) == ResetAll(p)
  {
  }

  /**
   `CounterPool.collect`: one `{name, value}` record per key, in the
   unspecified order of the backing `HashMap` (here, whatever order the key
   choices happen to take). `order` names the key each record came from.
   */
  method Collect(p: Pool) returns (records: seq<Record>, ghost order: seq<string>)
    requires Valid(p)
    ensures |records| == |p|
    ensures forall k :: k in p ==> ToMap(p[k]) in records
    ensures forall i, j :: 0 <= i < j < |records| ==> records[i] != records[j]
    ensures |order| == |records| && (forall k :: k in order <==> k in p)
    ensures forall i :: 0 <= i < |records| ==> order[i] in p && records[i] == ToMap(p[order[i]])
    ensures forall i :: 0 <= i < |records| ==> FromMap(records[i]) == Some(p[order[i]])
  {
    var rest := p.Keys;
    records, order := [], [];
    while rest != {}
      invariant rest <= p.Keys
      invariant forall k :: k in order <==> k in p && k !in rest
      invariant |order| == |records| == |p.Keys| - |rest|
      invariant forall i :: 0 <= i < |records| ==> order[i] in p && records[i] == ToMap(p[order[i]])
      invariant forall i, j :: 0 <= i < j < |order| ==> order[i] != order[j]
      decreases rest
    {
      var k :| k in rest;
      records, order := records + [ToMap(p[k])], order + [k];
      rest := rest - {k};
    }
    forall k | k in p
      ensures ToMap(p[k]) in records
    {
      var i :| 0 <= i < |order| && order[i] == k;
      assert records[i] == ToMap(p[k]);
    }
    forall i | 0 <= i < |records|
      ensures FromMap(records[i]) == Some(p[order[i]])
    {
      MapRoundTrip(p[order[i]]);
    }
    forall i, j | 0 <= i < j < |records|
      ensures records[i] != records[j]
    {
      MapInjective(p[order[i]], p[order[j]]);
    }
  }
}
