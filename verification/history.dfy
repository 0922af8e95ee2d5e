/**
 Sequences of service calls. The Java pool is only ever reached through the
 five `Counters` operations, so a run of the service, with each call taken as
 one atomic step, is a sequence of them applied one after another to the
 empty pool.
 */
module History {
  import CounterPool
  import Counters

  datatype Op = GetOp(key: string) | NextOp(key: string) | ResetOp(key: string) | CollectOp | ResetAllOp

  /** The pool after one operation. A snapshot leaves the pool as it was. */
  function Apply(p: CounterPool.Pool, op: Op): (r: CounterPool.Pool)
    requires CounterPool.Valid(p)
    ensures CounterPool.Valid(r)
  {
    match op
    case GetOp(k) => Counters.Get(p, k).pool
    case NextOp(k) => Counters.Next(p, k).pool
    case ResetOp(k) => Counters.Reset(p, k).pool
    case CollectOp => p
    case ResetAllOp => Counters.ResetAll(p)
  }

  /** The key one operation names: none for a snapshot or a reset of everything. */
  function KeyOf(op: Op): set<string>
  {
    match op
    case GetOp(k) => {k}
    case NextOp(k) => {k}
    case ResetOp(k) => {k}
    case CollectOp => {}
    case ResetAllOp => {}
  }

  /** The keys a sequence of operations names. */
  function Named(ops: seq<Op>): set<string>
    decreases |ops|
  {
    if ops == [] then {} else KeyOf(ops[0]) + Named(ops[1..])
  }

  /** The pool after applying `ops` in order; the invariant holds throughout. */
  function Run(p: CounterPool.Pool, ops: seq<Op>): (r: CounterPool.Pool)
    requires CounterPool.Valid(p)
    ensures CounterPool.Valid(r)
    decreases |ops|
  {
    if ops == [] then p else Run(Apply(p, ops[0]), ops[1..])
  }

  /** No operation ever removes a key: after any run the keys are the old ones plus every key the run named. */
  lemma {:induction false} RunKeys(p: CounterPool.Pool, ops: seq<Op>)
    requires CounterPool.Valid(p)
    ensures Run(p, ops).Keys == p.Keys + Named(ops)
    ensures p.Keys <= Run(p, ops).Keys
    decreases |ops|
  {
    if ops != [] {
      RunKeys(Apply(p, ops[0]), ops[1..]);
    }
  }

  /** A service that starts with the empty pool holds, after any run, exactly the keys that run named. */
  lemma RunFromEmpty(ops: seq<Op>)
    ensures Run(CounterPool.Empty, ops).Keys == Named(ops)
  {
    RunKeys(CounterPool.Empty, ops);
  }

  /**
   A run that neither names `k` nor resets everything leaves `k`'s counter
   exactly as it was.
   */
  lemma {:induction false} RunFrame(p: CounterPool.Pool, ops: seq<Op>, k: string)
    requires CounterPool.Valid(p)
    requires k !in Named(ops)
    requires forall i :: 0 <= i < |ops| ==> !ops[i].ResetAllOp?
    ensures k in Run(p, ops) <==> k in p
    ensures k in p ==> Run(p, ops)[k] == p[k]
    decreases |ops|
  {
    if ops != [] {
      RunFrame(Apply(p, ops[0]), ops[1..], k);
    }
  }
}
