/**
 One named counter (`Counter` in the counter service). The name is fixed at
 construction; the value is a Java `int` that only `next` and `reset` change.
 The Java class mutates its field in place; here every operation returns the
 counter as it is afterwards.
 */
module CounterCell {
  import opened JavaInt
  import opened Wrappers

  datatype Counter = Counter(name: string, value: Int32)

  /** A value of the `Map<String,Object>` that `Counter.map` builds: a string or a boxed `int`. */
  datatype Field = Text(text: string) | Number(number: Int32)

  /** The `{name, value}` record the service hands back to its HTTP callers. */
  type Record = map<string, Field>

  /** What `next()` leaves behind: the counter after the increment, and the value it returned. */
  datatype Bumped = Bumped(counter: Counter, previous: Int32)

  /** The one-argument constructor: a counter that starts at zero. */
  function New(name: string): (c: Counter)
    ensures c.name == name && c.value == 0
  {
    Counter(name, 0)
  }

  /** `next()`: post-increment, returning the value held before the call. */
  function Next(c: Counter): (r: Bumped)
    ensures r.previous == c.value
    ensures r.counter.name == c.name
    ensures c.value as int < MaxInt ==> r.counter.value as int == c.value as int + 1
    ensures c.value as int == MaxInt ==> r.counter.value as int == MinInt
  {
    Bumped(c.(value := Inc(c.value)), c.value)
  }

  /** `reset()`: back to zero, whatever the value was. */
  function Reset(c: Counter): (r: Counter)
    ensures r.name == c.name && r.value == 0
  {
    c.(value := 0)
  }

  /** Resetting twice is the same as resetting once. */
  lemma ResetIdempotent(c: Counter)
    ensures Reset(Reset(c)) == Reset(c)
  {
  }

  /** The record with exactly the two entries `name` and `value`. */
  function Rec(name: string, value: Int32): Record
  {
    map["name" := Text(name), "value" := Number(value)]
  }

  /** `Counter.map`: render a counter as its `{name, value}` record. */
  function ToMap(c: Counter): (m: Record)
    ensures m.Keys == {"name", "value"}
    ensures m["name"] == Text(c.name) && m["value"] == Number(c.value)
  {
    Rec(c.name, c.value)
  }

  /** Reads a counter back out of a record; `None` unless the record has exactly the two well-typed entries. */
  function FromMap(m: Record): Option<Counter>
  {
    if m.Keys == {"name", "value"} && m["name"].Text? && m["value"].Number? then
      Some(Counter(m["name"].text, m["value"].number))
    else
      None
  }

  /** Rendering loses nothing: the record gives the counter back. */
  lemma MapRoundTrip(c: Counter)
    ensures FromMap(ToMap(c)) == Some(c)
  {
  }

  /** Every record that reads back as a counter is exactly that counter's rendering. */
  lemma MapIsOnto(m: Record, c: Counter)
    requires FromMap(m) == Some(c)
    ensures ToMap(c) == m
  {
  }

  /** Two counters render to the same record exactly when they are equal. */
  lemma MapInjective(c: Counter, d: Counter)
    ensures ToMap(c) == ToMap(d) <==> c == d
  {
  }

  /** The counter after `n` calls of `next()`, and the values those calls returned, in order. */
  datatype Trace = Trace(counter: Counter, returned: seq<Int32>)

  function NextTimes(c: Counter, n: nat): Trace
    decreases n
  {
    if n == 0 then Trace(c, [])
    else
      var b := Next(c);
      var t := NextTimes(b.counter, n - 1);
      Trace(t.counter, [b.previous] + t.returned)
  }

  /**
   No lost updates: `n` atomic calls of `next()` return the consecutive values
   starting at the current one, each exactly once, and leave the value `n`
   higher (as long as no call reaches the 32-bit wrap).
   */
  lemma {:induction false} NextTimesCountsUp(c: Counter, n: nat)
    requires c.value as int + n <= MaxInt
    ensures NextTimes(c, n).counter.name == c.name
    ensures NextTimes(c, n).counter.value as int == c.value as int + n
    ensures |NextTimes(c, n).returned| == n
    ensures forall i :: 0 <= i < n ==> NextTimes(c, n).returned[i] as int == c.value as int + i
    decreases n
  {
    if n > 0 {
      var b := Next(c);
      NextTimesCountsUp(b.counter, n - 1);
      var t := NextTimes(b.counter, n - 1);
      assert NextTimes(c, n).returned == [c.value] + t.returned;
    }
  }
}
