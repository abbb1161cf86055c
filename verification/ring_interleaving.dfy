/**
 * The lock-free ring with one producer and one consumer. Each atomic load or
 * store and each buffer access is a step of its own; a schedule interleaves the
 * two threads arbitrarily. `pushed` and `popped` are history.
 */
module RingInterleaving {
  /** Where `util_ring_put` is, with its local variables. */
  datatype Producer<T> =
    | PutIdle
    | HeadLoaded(item: T, head: nat)
    | RoomSeen(item: T, head: nat)
    | ItemWritten(item: T, head: nat)

  /** Where `util_ring_get` is. */
  datatype Consumer<T> =
    | GetIdle
    | TailLoaded(tail: nat)
    | ItemSeen(tail: nat)
    | ItemRead(tail: nat, result: T)

  datatype State<T> = State(buffer: seq<T>, head: nat, tail: nat, producer: Producer<T>, consumer: Consumer<T>,
                            pushed: seq<T>, popped: seq<T>)

  /** The next step of one thread; an idle producer starts to put `item`. */
  datatype Action<T> = Produce(item: T) | Consume

  /** What a step reports to the thread's caller. */
  datatype Report<T> = Silent | Put(item: T) | Full | Got(result: T) | Empty

  function Step<T>(s: State<T>, action: Action<T>): (State<T>, Report<T>)
    requires s.buffer != [] && Bounded(s)
  {
    var n := |s.buffer|;
    match action
    case Produce(next) => (
      match s.producer
      case PutIdle => (s.(producer := HeadLoaded(next, s.head)), Silent)
      case HeadLoaded(item, head) =>
        if (head + 1) % n == s.tail then (s.(producer := PutIdle), Full)
        else (s.(producer := RoomSeen(item, head)), Silent)
      case RoomSeen(item, head) =>
        (s.(buffer := s.buffer[head := item], producer := ItemWritten(item, head)), Silent)
      case ItemWritten(item, head) =>
        (s.(head := (head + 1) % n, producer := PutIdle, pushed := s.pushed + [item]), Put(item)))
    case Consume => (
      match s.consumer
      case GetIdle => (s.(consumer := TailLoaded(s.tail)), Silent)
      case TailLoaded(tail) =>
        if tail == s.head then (s.(consumer := GetIdle), Empty)
        else (s.(consumer := ItemSeen(tail)), Silent)
      case ItemSeen(tail) => (s.(consumer := ItemRead(tail, s.buffer[tail])), Silent)
      case ItemRead(tail, result) =>
        (s.(tail := (tail + 1) % n, consumer := GetIdle, popped := s.popped + [result]), Got(result)))
  }

  /** The loaded indices are indices. */
  predicate Bounded<T>(s: State<T>) {
    && (s.producer.RoomSeen? ==> s.producer.head < |s.buffer|)
    && (s.consumer.ItemSeen? ==> s.consumer.tail < |s.buffer|)
  }

  function Start<T>(buffer: seq<T>): State<T> {
    State(buffer, 0, 0, PutIdle, GetIdle, [], [])
  }

  /** What has been put and not yet been got. */
  function Queue<T>(s: State<T>): seq<T> {
    if |s.popped| <= |s.pushed| then s.pushed[|s.popped|..] else []
  }

  ghost predicate Invariant<T>(s: State<T>) {
    var n, w, r := |s.buffer|, |s.pushed|, |s.popped|;
    && n > 0 && r <= w < r + n
    && s.popped == s.pushed[..r]
    && s.head == w % n && s.tail == r % n
    && (forall k :: r <= k < w ==> s.buffer[k % n] == s.pushed[k])
    && (s.producer.HeadLoaded? ==> s.producer.head == s.head)
    && (s.producer.RoomSeen? ==> s.producer.head == s.head && w + 1 < r + n)
    && (s.producer.ItemWritten? ==> s.producer.head == s.head && w + 1 < r + n && s.buffer[s.head] == s.producer.item)
    && (s.consumer.TailLoaded? ==> s.consumer.tail == s.tail)
    && (s.consumer.ItemSeen? ==> s.consumer.tail == s.tail && r < w)
    && (s.consumer.ItemRead? ==> s.consumer.tail == s.tail && r < w && s.consumer.result == s.pushed[r])
  }

  lemma MultipleIsFar(n: nat, d: int)
    ensures d >= 1 ==> n * d >= n
    ensures d <= -1 ==> n * d <= -(n as int)
  {
    if d >= 1 {
      assert n * d == n + n * (d - 1);
    } else if d <= -1 {
      assert n * d == n * (d + 1) - n;
    }
  }

  lemma DivUnique(x: nat, n: nat, q: int, r: nat)
    requires n > 0 && x == n * q + r && r < n
    ensures x % n == r
  {
    var d := q - x / n;
    assert n * d == x % n - r;
    MultipleIsFar(n, d);
  }

  lemma NextIndex(x: nat, n: nat)
    requires n > 0
    ensures (x % n + 1) % n == (x + 1) % n
  {
    var q, r := x / n, x % n;
    if r + 1 < n {
      DivUnique(x + 1, n, q, r + 1);
      DivUnique(r + 1, n, 0, r + 1);
    } else {
      assert x + 1 == n * (q + 1) + 0;
      DivUnique(x + 1, n, q + 1, 0);
      DivUnique(n, n, 1, 0);
    }
  }

  /** Less than one lap apart, equal slots mean equal counts. */
  lemma SameSlot(a: nat, b: nat, n: nat)
    requires n > 0 && a <= b < a + n
    ensures a % n == b % n <==> a == b
  {
    if a % n == b % n {
      var d := b / n - a / n;
      assert b - a == n * d;
      MultipleIsFar(n, d);
    }
  }

  /** One lap apart, the slots are the same. */
  lemma OneLap(a: nat, n: nat)
    requires n > 0
    ensures (a + n) % n == a % n
  {
    DivUnique(a + n, n, a / n + 1, a % n);
  }

  lemma FullIff(r: nat, w: nat, n: nat)
    requires n > 0 && r <= w < r + n
    ensures (w % n + 1) % n == r % n <==> w + 1 == r + n
  {
    NextIndex(w, n);
    if w + 1 == r + n { OneLap(r, n); } else { SameSlot(r, w + 1, n); }
  }

  /** The slot the producer is about to write awaits no read. */
  lemma WritesFreeSlot<T>(s: State<T>, k: nat)
    requires Invariant(s) && s.producer.RoomSeen? && |s.popped| <= k < |s.pushed|
    ensures s.producer.head != k % |s.buffer|
    ensures s.consumer.ItemSeen? ==> s.producer.head != s.consumer.tail
  {
    SameSlot(k, |s.pushed|, |s.buffer|);
    SameSlot(|s.popped|, |s.pushed|, |s.buffer|);
  }

  lemma ProduceKeepsInvariant<T>(s: State<T>, item: T)
    requires Invariant(s) && Bounded(s)
    ensures Invariant(Step(s, Produce(item)).0) && Bounded(Step(s, Produce(item)).0)
  {
    var n, w, r := |s.buffer|, |s.pushed|, |s.popped|;
    var t := Step(s, Produce(item)).0;
    match s.producer
    case PutIdle =>
    case HeadLoaded(_, _) => FullIff(r, w, n);
    case RoomSeen(_, head) =>
      forall k | r <= k < w
        ensures t.buffer[k % n] == t.pushed[k]
      {
        WritesFreeSlot(s, k);
      }
    case ItemWritten(_, _) =>
      NextIndex(w, n);
      assert t.pushed[..r] == s.pushed[..r];
  }

  lemma ConsumeKeepsInvariant<T>(s: State<T>)
    requires Invariant(s) && Bounded(s)
    ensures Invariant(Step(s, Consume).0) && Bounded(Step(s, Consume).0)
  {
    var n, w, r := |s.buffer|, |s.pushed|, |s.popped|;
    match s.consumer
    case GetIdle =>
    case TailLoaded(_) => SameSlot(r, w, n);
    case ItemSeen(_) =>
    case ItemRead(_, _) =>
      NextIndex(r, n);
      assert s.pushed[..r + 1] == s.pushed[..r] + [s.pushed[r]];
  }

  lemma StepKeepsInvariant<T>(s: State<T>, action: Action<T>)
    requires Invariant(s) && Bounded(s)
    ensures Invariant(Step(s, action).0) && Bounded(Step(s, action).0)
  {
    match action
    case Produce(item) => ProduceKeepsInvariant(s, item);
    case Consume => ConsumeKeepsInvariant(s);
  }

  ghost function Run<T>(s: State<T>, schedule: seq<Action<T>>): (end: State<T>)
    requires Invariant(s) && Bounded(s)
    ensures Invariant(end) && Bounded(end)
    decreases |schedule|
  {
    if schedule == [] then s
    else
      StepKeepsInvariant(s, schedule[0]);
      Run(Step(s, schedule[0]).0, schedule[1..])
  }

  /**
   * Every interleaving delivers a prefix of what was put, in order, and never
   * holds more than one item less than the ring's length.
   */
  lemma EveryScheduleIsSafe<T>(buffer: seq<T>, schedule: seq<Action<T>>)
    requires buffer != []
    ensures Invariant(Start(buffer))
    ensures var end := Run(Start(buffer), schedule);
            && |end.popped| <= |end.pushed| && end.popped == end.pushed[..|end.popped|]
            && |end.pushed| - |end.popped| <= |buffer| - 1
  {
    assert 0 % |buffer| == 0;
    RunKeepsLength(Start(buffer), schedule);
  }

  lemma {:induction false} RunKeepsLength<T>(s: State<T>, schedule: seq<Action<T>>)
    requires Invariant(s) && Bounded(s)
    ensures |Run(s, schedule).buffer| == |s.buffer|
    decreases |schedule|
  {
    if schedule != [] {
      StepKeepsInvariant(s, schedule[0]);
      RunKeepsLength(Step(s, schedule[0]).0, schedule[1..]);
    }
  }

  /**
   * Linearizability: each call takes effect in one step, as on a FIFO queue of
   * capacity `length - 1`, and its report is right at that very step.
   */
  lemma StepRefinesQueue<T>(s: State<T>, action: Action<T>)
    requires Invariant(s) && Bounded(s)
    ensures var (t, report) := Step(s, action);
            match report
            case Silent => Queue(t) == Queue(s)
            case Put(item) => Queue(t) == Queue(s) + [item] && |Queue(t)| <= |s.buffer| - 1
            case Full => Queue(t) == Queue(s) && |Queue(s)| == |s.buffer| - 1
            case Got(result) => Queue(s) == [result] + Queue(t)
            case Empty => Queue(t) == Queue(s) == []
  {
    var n, w, r := |s.buffer|, |s.pushed|, |s.popped|;
    if action.Produce? && s.producer.HeadLoaded? {
      FullIff(r, w, n);
    } else if action.Consume? && s.consumer.TailLoaded? {
      SameSlot(r, w, n);
    } else if action.Consume? && s.consumer.ItemRead? {
      assert s.pushed[r..] == [s.pushed[r]] + s.pushed[r + 1..];
    }
  }
}
