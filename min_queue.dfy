/** The min-priority queue the terrain route search and the camp picker use
    (`Utils.PriorityQueue<TElement, TPriority>` with `int` priorities). Its
    source is not part of this model; it is modelled as a sequence of entries
    from which `Dequeue` removes the first entry of least priority. */
module MinQueue {

  datatype Entry<T> = Entry(item: T, priority: int)

  /** The position `Dequeue` takes: the first entry of least priority. */
  method MinIndex<T>(q: seq<Entry<T>>) returns (i: nat)
    requires |q| > 0
    ensures i < |q|
    ensures forall j :: 0 <= j < |q| ==> q[i].priority <= q[j].priority
    ensures forall j :: 0 <= j < i ==> q[i].priority < q[j].priority
  {
    i := 0;
    var k := 1;
    while k < |q|
      invariant i < k <= |q|
      invariant forall j :: 0 <= j < k ==> q[i].priority <= q[j].priority
      invariant forall j :: 0 <= j < i ==> q[i].priority < q[j].priority
    {
      if q[k].priority < q[i].priority {
        i := k;
      }
      k := k + 1;
    }
  }

  /** The queue after the entry at `i` has been dequeued. */
  function RemoveAt<T>(q: seq<Entry<T>>, i: nat): (r: seq<Entry<T>>)
    requires i < |q|
    ensures |r| == |q| - 1
    ensures multiset(r) + multiset{q[i]} == multiset(q)
    ensures forall e :: e in r ==> e in q
  {
    assert q == q[..i] + [q[i]] + q[i + 1..];
    q[..i] + q[i + 1..]
  }
}
