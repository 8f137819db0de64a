/** Two short sessions against the event tree, each with the answers the counter owes. */
module Scenarios {
  import opened Shape
  import opened EventTree

  /** On an empty tree: increase(10, 5), count(10), increase(10, 3), count(10), reduce(10, 8),
      count(10) and next(5). Reducing by the whole count removes the id, after which no id lies
      above 5. */
  method CounterSession() returns (a: int, b: int, c: int, d: int, e: int, f: int, n: Event)
    ensures a == 5 && b == 5
    ensures c == 8 && d == 8
    ensures e == 0 && f == 0 && n == Event(0, 0)
  {
    var t := new RedBlackEventTree();
    a := t.Increase(10, 5);
    b := t.Count(10);
    c := t.Increase(10, 3);
    d := t.Count(10);
    e := t.Reduce(10, 8);
    assert t.Events() == map[];
    f := t.Count(10);
    n := t.Next(5);
  }

  /** A bulk build from (1, 5), (3, 7), (8, 2), then inRange(2, 8), next(3) and prev(8): ids 3
      and 8 lie in [2, 8] (7 + 2), 8 is the id after 3 and 3 the id before 8. */
  method BulkSession() returns (r: int, n: Event, p: Event)
    ensures r == 9 && n == Event(8, 2) && p == Event(3, 7)
  {
    var t := new RedBlackEventTree();
    var events := [Event(1, 5), Event(3, 7), Event(8, 2)];
    t.BuildFromSorted(events);
    assert events[..2][..1] == [Event(1, 5)] && events[..2] == [Event(1, 5), Event(3, 7)];
    assert t.Events() == map[1 := 5, 3 := 7, 8 := 2];
    assert events[1..] == [Event(3, 7), Event(8, 2)] && events[1..][1..] == [Event(8, 2)];
    r := t.InRange(2, 8);
    n := t.Next(3);
    p := t.Prev(8);
  }
}
