/**
 The counter service (`Counters`): the operations the HTTP layer calls. Each
 one looks the key up in the pool (creating it at zero if it is new), acts on
 that counter and answers with its `{name, value}` record. The pool is passed
 in and handed back instead of living in a static field.
 */
module Counters {
  import opened JavaInt
  import opened CounterCell
  import CounterPool

  /** The pool after an operation, and the record the operation answers with. */
  datatype Reply = Reply(pool: CounterPool.Pool, record: Record)

  /** `Counters.get`: the current record of `k`, creating `k` at zero if it is new. */
  function Get(p: CounterPool.Pool, k: string): (r: Reply)
    requires CounterPool.Valid(p)
    ensures CounterPool.Valid(r.pool)
    ensures r.pool.Keys == p.Keys + {k}
    ensures k in p ==> r.pool == p
    ensures k !in p ==> r.pool[k] == Counter(k, 0)
    ensures r.record == Rec(k, CounterPool.ValueOf(p, k))
    ensures forall j :: j != k ==> (j in r.pool <==> j in p) && (j in p ==> r.pool[j] == p[j])
  {
    var l := CounterPool.Get(p, k);
    Reply(l.pool, ToMap(l.counter))
  }

  /**
   `Counters.next`: increment `k` (an absent key counts from zero) and answer
   with the record as it is AFTER the increment.
   */
  function Next(p: CounterPool.Pool, k: string): (r: Reply)
    requires CounterPool.Valid(p)
    ensures CounterPool.Valid(r.pool)
    ensures r.pool.Keys == p.Keys + {k}
    ensures CounterPool.ValueOf(p, k) as int < MaxInt ==> r.pool[k].value as int == CounterPool.ValueOf(p, k) as int + 1
    ensures CounterPool.ValueOf(p, k) as int == MaxInt ==> r.pool[k].value as int == MinInt
    ensures r.record == Rec(k, r.pool[k].value)
    ensures forall j :: j != k ==> (j in r.pool <==> j in p) && (j in p ==> r.pool[j] == p[j])
  {
    var l := CounterPool.Get(p, k);
    var c := CounterCell.Next(l.counter).counter;
    Reply(l.pool[k := c], ToMap(c))
  }

  /** `Counters.reset`: set `k` to zero, creating it if absent, and answer with `{k, 0}`. */
  function Reset(p: CounterPool.Pool, k: string): (r: Reply)
    requires CounterPool.Valid(p)
    ensures CounterPool.Valid(r.pool)
    ensures r.pool.Keys == p.Keys + {k}
    ensures r.pool[k] == Counter(k, 0)
    ensures r.record == Rec(k, 0)
    ensures forall j :: j != k ==> (j in r.pool <==> j in p) && (j in p ==> r.pool[j] == p[j])
  {
    var l := CounterPool.Get(p, k);
    var c := CounterCell.Reset(l.counter);
    Reply(l.pool[k := c], ToMap(c))
  }

  /** `Counters.collect`: a snapshot of every counter, one record per key, order unspecified. */
  method Collect(p: CounterPool.Pool) returns (records: seq<Record>)
    requires CounterPool.Valid(p)
    ensures |records| == |p|
    ensures forall k :: k in p ==> Rec(k, p[k].value) in records
    ensures forall i :: 0 <= i < |records| ==>
      exists k :: k in p && records[i] == Rec(k, p[k].value)
    ensures forall i, j :: 0 <= i < j < |records| ==> records[i] != records[j]
  {
    ghost var order;
    records, order := CounterPool.Collect(p);
    forall i | 0 <= i < |records|
      ensures exists k :: k in p && records[i] == Rec(k, p[k].value)
    {
      assert records[i] == Rec(order[i], p[order[i]].value);
    }
  }

  /** `Counters.resetAll`: every known key reads zero afterwards; the key set is unchanged. */
  function ResetAll(p: CounterPool.Pool): (r: CounterPool.Pool)
    requires CounterPool.Valid(p)
    ensures CounterPool.Valid(r)
    ensures r.Keys == p.Keys
    ensures forall k :: CounterPool.ValueOf(r, k) == 0
  {
    CounterPool.ResetAll(p)
  }

  /** The pool after `n` sequential calls of `next` on `k`, and the records those calls answered with. */
  datatype Session = Session(pool: CounterPool.Pool, replies: seq<Record>)

  function NextTimes(p: CounterPool.Pool, k: string, n: nat): Session
    requires CounterPool.Valid(p)
    decreases n
  {
    if n == 0 then Session(p, [])
    else
      var r := Next(p, k);
      var s := NextTimes(r.pool, k, n - 1);
      Session(s.pool, [r.record] + s.replies)
  }

  /**
   No lost updates: `n` sequential `next` calls on `k` raise its value by
   exactly `n` (as long as none reaches the 32-bit wrap).
   */
  lemma {:induction false} NextTimesCountsUp(p: CounterPool.Pool, k: string, n: nat)
    requires CounterPool.Valid(p)
    requires CounterPool.ValueOf(p, k) as int + n <= MaxInt
    ensures CounterPool.Valid(NextTimes(p, k, n).pool)
    ensures CounterPool.ValueOf(NextTimes(p, k, n).pool, k) as int == CounterPool.ValueOf(p, k) as int + n
    decreases n
  {
    if n > 0 {
      var r := Next(p, k);
      NextTimesCountsUp(r.pool, k, n - 1);
    }
  }

  /** The records `{k, v + 1}` to `{k, v + n}`, in that order. */
  function CountingUp(k: string, v: Int32, n: nat): seq<Record>
    requires v as int + n <= MaxInt
    decreases n
  {
    if n == 0 then [] else [Rec(k, v + 1)] + CountingUp(k, v + 1, n - 1)
  }

  lemma {:induction false} CountingUpAt(k: string, v: Int32, n: nat, i: nat)
    requires v as int + n <= MaxInt && i < n
    ensures |CountingUp(k, v, n)| == n
    ensures CountingUp(k, v, n)[i] == Rec(k, (v as int + i + 1) as Int32)
    decreases n
  {
    if i > 0 {
      CountingUpAt(k, v + 1, n - 1, i - 1);
    } else if n > 1 {
      CountingUpAt(k, v + 1, n - 1, 0);
    }
  }

  /**
   The answers of `n` sequential `next` calls on `k` that holds `v`: the
   values `v + 1` to `v + n`, each once and in increasing order.
   */
  lemma {:induction false} NextTimesReplies(p: CounterPool.Pool, k: string, v: Int32, n: nat)
    requires CounterPool.Valid(p)
    requires CounterPool.ValueOf(p, k) == v && v as int + n <= MaxInt
    ensures NextTimes(p, k, n).replies == CountingUp(k, v, n)
    ensures |NextTimes(p, k, n).replies| == n
    ensures forall i :: 0 <= i < n ==> NextTimes(p, k, n).replies[i] == Rec(k, (v as int + i + 1) as Int32)
    decreases n
  {
    if n > 0 {
      var r := Next(p, k);
      assert CounterPool.ValueOf(r.pool, k) == v + 1;
      NextTimesReplies(r.pool, k, v + 1, n - 1);
    }
    forall i | 0 <= i < n
      ensures CountingUp(k, v, n)[i] == Rec(k, (v as int + i + 1) as Int32)
    {
      CountingUpAt(k, v, n, i);
    }
  }

  /** However many times `next` is called on `k`, no other key appears, disappears or changes. */
  lemma {:induction false} NextTimesFrame(p: CounterPool.Pool, k: string, n: nat)
    requires CounterPool.Valid(p)
    ensures forall j :: j != k ==> (j in NextTimes(p, k, n).pool <==> j in p)
    ensures forall j :: j != k && j in p ==> NextTimes(p, k, n).pool[j] == p[j]
    decreases n
  {
    if n > 0 {
      NextTimesFrame(Next(p, k).pool, k, n - 1);
    }
  }

  /** From a key never seen before, `n` calls of `next` leave it at `n`; the first one answers 1. */
  lemma NextTimesFromFresh(p: CounterPool.Pool, k: string, n: nat)
    requires CounterPool.Valid(p) && k !in p
    requires n <= MaxInt
    ensures CounterPool.ValueOf(NextTimes(p, k, n).pool, k) as int == n
    ensures n > 0 ==> NextTimes(p, k, n).replies[0] == Rec(k, 1)
  {
    NextTimesCountsUp(p, k, n);
    NextTimesReplies(p, k, 0, n);
  }

  /** Whatever `k` held, reading it straight after a reset gives zero. */
  lemma GetAfterReset(p: CounterPool.Pool, k: string)
    requires CounterPool.Valid(p)
    ensures Get(Reset(p, k).pool, k).record == Rec(k, 0)
    ensures Reset(Reset(p, k).pool, k) == Reset(p, k)
  {
  }

  /** A key's first `next` stores 1, and a later `get` reads that 1 without changing anything. */
  lemma GetAfterFirstNext(p: CounterPool.Pool, k: string)
    requires CounterPool.Valid(p) && k !in p
    ensures Next(p, k).record == Rec(k, 1)
    ensures Get(Next(p, k).pool, k) == Reply(Next(p, k).pool, Rec(k, 1))
  {
  }
}
