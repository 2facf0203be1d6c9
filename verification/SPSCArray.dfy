/**
 The single-producer single-consumer ring buffer.  `RingBuffer` is the class as one thread sees it;
 the state machine after it interleaves the steps of `Push` with those of the consumer's calls.
 */
module SPSCArray {
  import opened Bytes

  lemma SlotsDiffer(i: int, j: int, cap: nat)
    requires 0 < cap && i < j < i + cap
    ensures i % cap != j % cap
  {
    if i % cap == j % cap {
      var q := j / cap - i / cap;
      assert j - i == cap * q by {
        assert i == cap * (i / cap) + i % cap && j == cap * (j / cap) + j % cap;
        assert cap * (j / cap) - cap * (i / cap) == cap * q;
      }
      MultipleIsLarge(cap, q);
      assert false;
    }
  }

  lemma MultipleIsLarge(cap: nat, q: int)
    requires 0 < cap * q
    ensures cap <= cap * q
  {
    if q > 0 {
      assert cap * q == cap + cap * (q - 1);
    }
  }

  lemma SlotInRange(i: int, cap: nat)
    requires 0 < cap
    ensures 0 <= i % cap < cap
  {
  }

  /** The slot for position `w` is free exactly when the buffer is not full. */
  lemma SlotIsFreeExactly(r: int, w: int, cap: nat)
    requires 0 < cap && r <= w <= r + cap
    ensures (forall i :: r <= i < w ==> i % cap != w % cap) <==> w - r < cap
  {
    if w - r < cap {
      forall i | r <= i < w ensures i % cap != w % cap {
        SlotsDiffer(i, w, cap);
      }
    } else {
      WrapsAround(r, cap);
      assert r <= r < w && r % cap == w % cap;
    }
  }

  lemma WrapsAround(r: int, cap: nat)
    requires 0 < cap
    ensures (r + cap) % cap == r % cap
  {
    var q := r / cap;
    assert r == cap * q + r % cap;
    assert r + cap == cap * (q + 1) + r % cap by {
      assert cap * (q + 1) == cap * q + cap;
    }
    ModUnique(r + cap, cap, q + 1, r % cap);
  }

  lemma ModUnique(n: int, d: nat, q: int, m: nat)
    requires 0 < d && n == d * q + m && m < d
    ensures n % d == m
  {
    var p := n / d;
    assert n == d * p + n % d;
    assert d * (q - p) == n % d - m by {
      assert d * (q - p) == d * q - d * p;
    }
    if q > p {
      MultipleIsLarge(d, q - p);
    } else if q < p {
      assert d * (p - q) == m - n % d by {
        assert d * (p - q) == -(d * (q - p));
      }
      MultipleIsLarge(d, p - q);
    }
  }

  // ----- one thread -----

  class RingBuffer<T(0)> {
    var mData: array<T>
    var mCapacity: nat
    var mWritePos: int
    var mReadPos: int

    ghost predicate Valid()
      reads this, mData
    {
      && mData.Length == mCapacity
      && 0 <= mReadPos <= mWritePos < INT32_LIMIT
      && mWritePos - mReadPos <= mCapacity
    }

    /** The unread items, oldest first. */
    ghost function Contents(): (s: seq<T>)
      requires Valid()
      reads this, mData
      ensures |s| == mWritePos - mReadPos
    {
      seq(mWritePos - mReadPos,
          i requires 0 <= i < mWritePos - mReadPos && 0 < mCapacity == mData.Length reads this, mData =>
            SlotInRange(mReadPos + i, mCapacity); mData[(mReadPos + i) % mCapacity])
    }

    constructor Init(capacity: nat)
      ensures Valid() && fresh(mData) && Contents() == [] && mCapacity == capacity
      ensures mWritePos == mReadPos == 0
    {
      mData := new T[capacity];
      mCapacity, mWritePos, mReadPos := capacity, 0, 0;
    }

    method Size() returns (n: int)
      requires Valid()
      ensures n == |Contents()|
    {
      n := mWritePos - mReadPos;
    }

    method Empty() returns (b: bool)
      requires Valid()
      ensures b <==> Contents() == []
    {
      var n := Size();
      b := 0 == n;
    }

    method ValidAt(k: int) returns (b: bool)
      requires Valid()
      ensures b <==> k < |Contents()|
    {
      b := mWritePos - mReadPos - k > 0;
    }

    method First(k: nat) returns (x: T)
      requires Valid() && k < |Contents()|
      ensures x == Contents()[k]
    {
      SlotInRange(mReadPos + k, mCapacity);
      x := mData[(mReadPos + k) % mCapacity];
    }

    method Push(data: T)
      requires Valid() && |Contents()| < mCapacity && mWritePos + 1 < INT32_LIMIT
      modifies this`mWritePos, mData
      ensures Valid() && Contents() == old(Contents()) + [data]
    {
      SlotInRange(mWritePos, mCapacity);
      mData[mWritePos % mCapacity] := data;
      mWritePos := mWritePos + 1;
      forall i | 0 <= i < |old(Contents())| ensures Contents()[i] == old(Contents())[i] {
        SlotsDiffer(mReadPos + i, mWritePos - 1, mCapacity);
      }
    }

    method Pop()
      requires Valid() && Contents() != []
      modifies this`mReadPos
      ensures Valid() && Contents() == old(Contents())[1..]
    {
      mReadPos := mReadPos + 1;
    }

    method Skip(k: nat)
      requires Valid() && k <= |Contents()|
      modifies this`mReadPos
      ensures Valid() && Contents() == old(Contents())[k..]
    {
      mReadPos := mReadPos + k;
    }

    /** `consume_all`; the callback's arguments, in order. */
    method ConsumeAll() returns (seen: seq<T>)
      requires Valid()
      modifies this`mReadPos
      ensures Valid() && seen == old(Contents()) && Contents() == []
    {
      var writePos, readPos := mWritePos, mReadPos;
      seen := [];
      while readPos < writePos
        invariant mReadPos <= readPos <= writePos == mWritePos
        invariant mReadPos == old(mReadPos) && Valid() && seen == Contents()[..readPos - mReadPos]
      {
        SlotInRange(readPos, mCapacity);
        seen := seen + [mData[readPos % mCapacity]];
        readPos := readPos + 1;
      }
      assert seen == Contents();
      mReadPos := readPos;
    }
  }

  // ----- two threads -----

  /** `Push`: load the write position, store the item, publish. */
  datatype Producer<+T> = Idle | Loaded(pos: int, item: T) | Stored(item: T)

  /**
   `consume_all` between its snapshot and its end, or the items `First` returned, by position, since
   the last `Pop` or `Skip`.
   */
  datatype Consumer<+T> = Reading(limit: int, pos: int) | Holding(items: map<nat, T>)

  /** `pushed` and `consumed` record what was published and what was read or skipped. */
  datatype Shared<T> = Shared(
    cap: nat, slots: seq<T>, writePos: int, readPos: int,
    producer: Producer<T>, consumer: Consumer<T>, pushed: seq<T>, consumed: seq<T>)

  /** `Pop` is `Skip(1)`. */
  datatype Step<T> = Load(item: T) | Store | Publish | Snapshot | Consume | Advance | First(k: nat) | Skip(k: nat)

  function Slot<T>(s: Shared<T>, pos: int): T
    requires 0 < s.cap == |s.slots|
  {
    SlotInRange(pos, s.cap);
    s.slots[pos % s.cap]
  }

  /** One atomic step, if the thread it belongs to is ready for it and keeps to the contract. */
  function Next<T>(s: Shared<T>, step: Step<T>): (r: Option<Shared<T>>)
    requires 0 < s.cap == |s.slots|
    ensures r.Some? ==> r.value.cap == s.cap == |r.value.slots|
  {
    SlotInRange(s.writePos, s.cap);
    match step
    case Load(item) =>
      if s.producer.Idle? && s.writePos - s.readPos < s.cap
      then Some(s.(producer := Loaded(s.writePos, item))) else None
    case Store =>
      if s.producer.Loaded? then
        SlotInRange(s.producer.pos, s.cap);
        Some(s.(slots := s.slots[s.producer.pos % s.cap := s.producer.item], producer := Stored(s.producer.item)))
      else None
    case Publish =>
      if s.producer.Stored? then
        Some(s.(writePos := ToInt32(s.writePos + 1), pushed := s.pushed + [s.producer.item], producer := Idle))
      else None
    case Snapshot =>
      if s.consumer.Holding? then Some(s.(consumer := Reading(s.writePos, s.readPos))) else None
    case Consume =>
      if s.consumer.Reading? && s.consumer.pos < s.consumer.limit then
        Some(s.(consumed := s.consumed + [Slot(s, s.consumer.pos)],
                consumer := s.consumer.(pos := s.consumer.pos + 1)))
      else None
    case Advance =>
      if s.consumer.Reading? && s.consumer.pos >= s.consumer.limit
      then Some(s.(readPos := s.consumer.pos, consumer := Holding(map[]))) else None
    case First(k) =>
      if s.consumer.Holding? && s.writePos - s.readPos - k > 0
      then Some(s.(consumer := Holding(s.consumer.items[k := Slot(s, s.readPos + k)]))) else None
    case Skip(k) =>
      if s.consumer.Holding? && k <= s.writePos - s.readPos
      then Some(s.(readPos := s.readPos + k, consumed := s.consumed + Skipped(s, k), consumer := Holding(map[])))
      else None
  }

  /** The item at a position before the consumer moves on: as `First` returned it, if it did, or as the slot has it. */
  function Seen<T>(s: Shared<T>, i: nat): T
    requires 0 < s.cap == |s.slots| && s.consumer.Holding?
  {
    if i in s.consumer.items then s.consumer.items[i] else Slot(s, s.readPos + i)
  }

  function Skipped<T>(s: Shared<T>, k: nat): (items: seq<T>)
    requires 0 < s.cap == |s.slots| && s.consumer.Holding?
    ensures |items| == k
    ensures forall i :: 0 <= i < k ==> items[i] == Seen(s, i)
  {
    seq(k, i requires 0 <= i < k => Seen(s, i))
  }

  function Start<T>(slots: seq<T>): Shared<T> {
    Shared(|slots|, slots, 0, 0, Idle, Holding(map[]), [], [])
  }

  /** A run is any sequence of steps, each enabled when its turn comes. */
  function Run<T>(s: Shared<T>, steps: seq<Step<T>>): (r: Option<Shared<T>>)
    requires 0 < s.cap == |s.slots|
    ensures r.Some? ==> r.value.cap == s.cap == |r.value.slots|
    decreases |steps|
  {
    if steps == [] then Some(s) else
    match Next(s, steps[0])
    case None => None
    case Some(t) => Run(t, steps[1..])
  }

  /** The positions count items, and every unread slot holds the item pushed there. */
  predicate Counted<T(==)>(s: Shared<T>) {
    && 0 < s.cap == |s.slots|
    && s.writePos == |s.pushed| < INT32_LIMIT
    && 0 <= s.readPos <= s.writePos && s.writePos - s.readPos <= s.cap
    && forall i :: s.readPos <= i < s.writePos ==> Slot(s, i) == s.pushed[i]
  }

  predicate ProducerInv<T(==)>(s: Shared<T>)
    requires 0 < s.cap == |s.slots|
  {
    match s.producer
    case Idle => true
    case Loaded(pos, _) => pos == s.writePos && s.writePos - s.readPos < s.cap
    case Stored(item) => s.writePos - s.readPos < s.cap && Slot(s, s.writePos) == item
  }

  predicate ConsumerInv<T(==)>(s: Shared<T>)
    requires 0 <= s.readPos <= s.writePos == |s.pushed|
  {
    match s.consumer
    case Reading(limit, pos) => s.readPos <= pos <= limit <= s.writePos && s.consumed == s.pushed[..pos]
    case Holding(items) =>
      && s.consumed == s.pushed[..s.readPos]
      && forall k :: k in items ==> s.readPos + k < s.writePos && items[k] == s.pushed[s.readPos + k]
  }

  predicate Inv<T(==)>(s: Shared<T>) {
    Counted(s) && ProducerInv(s) && ConsumerInv(s)
  }

  lemma ProducerKeepsInv<T>(s: Shared<T>, step: Step<T>)
    requires Inv(s) && (step.Load? || step.Store? || step.Publish?) && Next(s, step).Some?
    requires |Next(s, step).value.pushed| < INT32_LIMIT
    ensures Inv(Next(s, step).value)
  {
    var t := Next(s, step).value;
    if step.Store? {
      forall i | t.readPos <= i < t.writePos ensures Slot(t, i) == t.pushed[i] {
        SlotsDiffer(i, s.writePos, s.cap);
        SlotInRange(i, s.cap);
        assert Slot(s, i) == s.pushed[i];
      }
    } else {
      forall i | t.readPos <= i < t.writePos ensures Slot(t, i) == t.pushed[i] {
        assert i < s.writePos ==> Slot(s, i) == s.pushed[i];
      }
    }
    assert s.pushed <= t.pushed;
    assert s.consumer.Reading? ==> s.pushed[..s.consumer.pos] == t.pushed[..s.consumer.pos];
    assert s.pushed[..s.readPos] == t.pushed[..s.readPos];
  }

  lemma SkippedIsPushed<T>(s: Shared<T>, k: nat)
    requires Inv(s) && s.consumer.Holding? && k <= s.writePos - s.readPos
    ensures Skipped(s, k) == s.pushed[s.readPos..s.readPos + k]
  {
    forall i | 0 <= i < k ensures Seen(s, i) == s.pushed[s.readPos + i] {
      assert i !in s.consumer.items ==> Slot(s, s.readPos + i) == s.pushed[s.readPos + i];
    }
  }

  /** No step of the consumer touches what the producer is about to do. */
  lemma ConsumerKeepsProducer<T>(s: Shared<T>, t: Shared<T>)
    requires Inv(s) && t.cap == s.cap && t.slots == s.slots && t.writePos == s.writePos && t.pushed == s.pushed
    requires t.producer == s.producer && s.readPos <= t.readPos <= t.writePos
    ensures Counted(t) && ProducerInv(t)
  {
    forall i | t.readPos <= i < t.writePos ensures Slot(t, i) == t.pushed[i] {
      assert Slot(s, i) == s.pushed[i];
    }
  }

  lemma SkipKeepsInv<T>(s: Shared<T>, k: nat)
    requires Inv(s) && Next(s, Skip(k)).Some?
    ensures Inv(Next(s, Skip(k)).value)
  {
    var t := Next(s, Skip(k)).value;
    SkippedIsPushed(s, k);
    ConsumerKeepsProducer(s, t);
    assert t.consumed == s.pushed[..s.readPos] + s.pushed[s.readPos..s.readPos + k];
  }

  lemma FirstKeepsInv<T>(s: Shared<T>, k: nat)
    requires Inv(s) && Next(s, First(k)).Some?
    ensures Inv(Next(s, First(k)).value)
  {
    ConsumerKeepsProducer(s, Next(s, First(k)).value);
    assert Slot(s, s.readPos + k) == s.pushed[s.readPos + k];
  }

  lemma ConsumerKeepsInv<T>(s: Shared<T>, step: Step<T>)
    requires Inv(s) && !(step.Load? || step.Store? || step.Publish?) && Next(s, step).Some?
    ensures Inv(Next(s, step).value)
  {
    match step {
      case First(k) => FirstKeepsInv(s, k);
      case Skip(k) => SkipKeepsInv(s, k);
      case Snapshot => ConsumerKeepsProducer(s, Next(s, step).value);
      case Advance => ConsumerKeepsProducer(s, Next(s, step).value);
      case Consume =>
        ConsumerKeepsProducer(s, Next(s, step).value);
        assert Slot(s, s.consumer.pos) == s.pushed[s.consumer.pos];
      case _ =>
    }
  }

  lemma StepKeepsInv<T>(s: Shared<T>, step: Step<T>)
    requires Inv(s) && Next(s, step).Some? && |Next(s, step).value.pushed| < INT32_LIMIT
    ensures Inv(Next(s, step).value)
  {
    if step.Load? || step.Store? || step.Publish? {
      ProducerKeepsInv(s, step);
    } else {
      ConsumerKeepsInv(s, step);
    }
  }

  /** The push that the bound on pushes rules out: the write position wraps to below the read position. */
  lemma PublishAtLimit<T>(s: Shared<T>)
    requires Inv(s) && s.producer.Stored? && |s.pushed| == INT32_LIMIT - 1
    ensures var t := Next(s, Publish).value;
      t.writePos == -INT32_LIMIT && t.writePos - t.readPos < 0 && !Inv(t)
  {
    assert ToInt32(INT32_LIMIT) == -INT32_LIMIT;
  }

  lemma {:induction false} RunOnlyPushes<T>(s: Shared<T>, steps: seq<Step<T>>)
    requires 0 < s.cap == |s.slots| && Run(s, steps).Some?
    ensures |s.pushed| <= |Run(s, steps).value.pushed|
    decreases |steps|
  {
    if steps == [] {
    } else {
      RunOnlyPushes(Next(s, steps[0]).value, steps[1..]);
    }
  }

  lemma {:induction false} RunKeepsInv<T>(s: Shared<T>, steps: seq<Step<T>>)
    requires Inv(s) && Run(s, steps).Some? && |Run(s, steps).value.pushed| < INT32_LIMIT
    ensures Inv(Run(s, steps).value)
    decreases |steps|
  {
    if steps == [] {
    } else {
      var t := Next(s, steps[0]).value;
      RunOnlyPushes(t, steps[1..]);
      StepKeepsInv(s, steps[0]);
      RunKeepsInv(t, steps[1..]);
    }
  }

  /**
   After any interleaving with fewer than 2^31 pushes: what was consumed is what was pushed first,
   the buffer is never over-full, and the slot about to be stored to is not an unread one.
   */
  lemma EveryRunIsSafe<T>(slots: seq<T>, steps: seq<Step<T>>)
    requires slots != [] && Run(Start(slots), steps).Some?
    requires |Run(Start(slots), steps).value.pushed| < INT32_LIMIT
    ensures var s := Run(Start(slots), steps).value;
      && s.consumed <= s.pushed
      && s.writePos == |s.pushed| && 0 <= s.writePos - s.readPos <= s.cap
      && (s.producer.Loaded? ==> forall i :: s.readPos <= i < s.writePos ==> i % s.cap != s.producer.pos % s.cap)
  {
    RunKeepsInv(Start(slots), steps);
    var s := Run(Start(slots), steps).value;
    if s.producer.Loaded? {
      SlotIsFreeExactly(s.readPos, s.writePos, s.cap);
    }
  }

  // ----- the bound on pushes -----

  /** The unread items are neither fewer than none nor more than there are slots. */
  predicate Bounded<T(==)>(s: Shared<T>) {
    0 <= s.writePos - s.readPos <= s.cap
  }

  predicate BoundedThroughout<T(==)>(s: Shared<T>, steps: seq<Step<T>>)
    requires 0 < s.cap == |s.slots|
  {
    forall k :: 0 <= k <= |steps| ==> Run(s, steps[..k]).Some? && Bounded(Run(s, steps[..k]).value)
  }

  lemma {:induction false} RunAppend<T>(s: Shared<T>, a: seq<Step<T>>, b: seq<Step<T>>)
    requires 0 < s.cap == |s.slots| && Run(s, a).Some?
    ensures Run(s, a + b) == Run(Run(s, a).value, b)
    decreases |a|
  {
    if a == [] {
      assert a + b == b;
    } else {
      assert (a + b)[0] == a[0] && (a + b)[1..] == a[1..] + b;
      RunAppend(Next(s, a[0]).value, a[1..], b);
    }
  }

  lemma {:induction false} PrefixRuns<T>(s: Shared<T>, steps: seq<Step<T>>, k: nat)
    requires 0 < s.cap == |s.slots| && Run(s, steps).Some? && k <= |steps|
    ensures Run(s, steps[..k]).Some?
    decreases |steps|
  {
    if k == 0 {
    } else {
      assert steps[..k][0] == steps[0] && steps[..k][1..] == steps[1..][..k - 1];
      PrefixRuns(Next(s, steps[0]).value, steps[1..], k - 1);
    }
  }

  /** A run with 2^31 pushes passes through a state in which the write position is behind. */
  lemma {:induction false} FindWrap<T>(s: Shared<T>, steps: seq<Step<T>>) returns (k: nat)
    requires Inv(s) && Run(s, steps).Some? && |Run(s, steps).value.pushed| >= INT32_LIMIT
    ensures k <= |steps| && Run(s, steps[..k]).Some? && !Bounded(Run(s, steps[..k]).value)
    decreases |steps|
  {
    var t := Next(s, steps[0]).value;
    if |t.pushed| < INT32_LIMIT {
      StepKeepsInv(s, steps[0]);
      var j := FindWrap(t, steps[1..]);
      k := j + 1;
      assert steps[..k][0] == steps[0] && steps[..k][1..] == steps[1..][..j];
    } else {
      PublishAtLimit(s);
      k := 1;
      assert steps[..1] == [steps[0]] && [steps[0]][1..] == [];
      assert Run(t, []) == Some(t);
    }
  }

  /** Exactly the runs with fewer than 2^31 pushes keep the buffer within its bounds throughout. */
  lemma BoundedExactly<T>(slots: seq<T>, steps: seq<Step<T>>)
    requires slots != [] && Run(Start(slots), steps).Some?
    ensures BoundedThroughout(Start(slots), steps) <==> |Run(Start(slots), steps).value.pushed| < INT32_LIMIT
  {
    var s := Start(slots);
    if |Run(s, steps).value.pushed| < INT32_LIMIT {
      forall k | 0 <= k <= |steps| ensures Run(s, steps[..k]).Some? && Bounded(Run(s, steps[..k]).value) {
        PrefixRuns(s, steps, k);
        var m := Run(s, steps[..k]).value;
        RunAppend(s, steps[..k], steps[k..]);
        assert steps[..k] + steps[k..] == steps;
        RunOnlyPushes(m, steps[k..]);
        RunKeepsInv(s, steps[..k]);
      }
    } else {
      var k := FindWrap(s, steps);
    }
  }

  /** `n` items pushed and popped one by one. */
  function PushAndPop<T>(n: nat, x: T): seq<Step<T>> {
    if n == 0 then [] else PushAndPop(n - 1, x) + [Load(x), Store, Publish, Skip(1)]
  }

  lemma PushRuns<T>(s: Shared<T>, x: T)
    requires Inv(s) && s.producer.Idle? && s.consumer == Holding(map[]) && s.writePos == s.readPos
    ensures Run(s, [Load(x), Store, Publish]).Some?
    ensures |Run(s, [Load(x), Store, Publish]).value.pushed| == |s.pushed| + 1
    ensures var t := Run(s, [Load(x), Store, Publish]).value;
      t.producer.Idle? && t.consumer == s.consumer && t.readPos == s.readPos && t.writePos == ToInt32(s.writePos + 1)
  {
    var steps := [Load(x), Store, Publish];
    assert steps[1..] == [Store, Publish] && steps[1..][1..] == [Publish] && steps[1..][1..][1..] == [];
    var a := Next(s, Load(x)).value;
    var b := Next(a, Store).value;
    var c := Next(b, Publish).value;
    assert Run(c, []) == Some(c);
    assert Run(b, [Publish]) == Some(c);
    assert Run(a, [Store, Publish]) == Some(c);
  }

  lemma {:induction false} PushAndPopRuns<T>(slots: seq<T>, n: nat)
    requires slots != [] && n < INT32_LIMIT
    ensures var r := Run(Start(slots), PushAndPop(n, slots[0]));
      && r.Some? && |r.value.pushed| == n && Inv(r.value) && r.value.producer.Idle?
      && r.value.consumer == Holding(map[]) && r.value.writePos == r.value.readPos == n
  {
    var s, x := Start(slots), slots[0];
    if n == 0 {
    } else {
      PushAndPopRuns(slots, n - 1);
      var steps := PushAndPop(n - 1, x);
      var m := Run(s, steps).value;
      RoundRuns(m, x);
      RunAppend(s, steps, [Load(x), Store, Publish, Skip(1)]);
      hide Run, Inv;
      RunKeepsInv(s, PushAndPop(n, x));
    }
  }

  lemma RoundRuns<T>(s: Shared<T>, x: T)
    requires Inv(s) && s.producer.Idle? && s.consumer == Holding(map[]) && s.writePos == s.readPos
    requires |s.pushed| + 1 < INT32_LIMIT
    ensures Run(s, [Load(x), Store, Publish, Skip(1)]).Some?
    ensures var t := Run(s, [Load(x), Store, Publish, Skip(1)]).value;
      && |t.pushed| == |s.pushed| + 1 && t.producer.Idle? && t.consumer == Holding(map[])
      && t.writePos == t.readPos == s.writePos + 1
  {
    var push, pop := [Load(x), Store, Publish], [Skip(1)];
    PushRuns(s, x);
    var t := Run(s, push).value;
    RunAppend(s, push, pop);
    assert push + pop == [Load(x), Store, Publish, Skip(1)];
    assert pop[1..] == [] && Run(t, pop) == Next(t, Skip(1));
  }

  /** There is a run with any number of pushes up to the one that wraps. */
  lemma AnyNumberOfPushes<T>(slots: seq<T>, n: nat)
    requires slots != [] && n <= INT32_LIMIT
    ensures exists steps :: Run(Start(slots), steps).Some? && |Run(Start(slots), steps).value.pushed| == n
  {
    var s, x := Start(slots), slots[0];
    if n == 0 {
      assert Run(s, []) == Some(s);
    } else {
      var steps, push := PushAndPop(n - 1, x), [Load(x), Store, Publish];
      PushAndPopRuns(slots, n - 1);
      PushRuns(Run(s, steps).value, x);
      RunAppend(s, steps, push);
      assert Run(s, steps + push).Some?;
    }
  }

  /** The queue the buffer stands for: what has been published and not yet consumed. */
  function Queue<T>(s: Shared<T>): seq<T>
    requires |s.consumed| <= |s.pushed|
  {
    s.pushed[|s.consumed|..]
  }

  /** Every step is a step of a queue: one at the back, some off the front, or nothing. */
  predicate QueueStep<T(==)>(step: Step<T>, s: Shared<T>, t: Shared<T>)
    requires |s.consumed| <= |s.pushed| && |t.consumed| <= |t.pushed|
  {
    match step
    case Publish => s.producer.Stored? && Queue(t) == Queue(s) + [s.producer.item] && t.consumed == s.consumed
    case Consume => Queue(s) != [] && Queue(t) == Queue(s)[1..] && t.consumed == s.consumed + [Queue(s)[0]]
    case First(k) =>
      && k < |Queue(s)| && t.consumer.Holding? && k in t.consumer.items && t.consumer.items[k] == Queue(s)[k]
      && Queue(t) == Queue(s) && t.consumed == s.consumed
    case Skip(k) => k <= |Queue(s)| && Queue(t) == Queue(s)[k..] && t.consumed == s.consumed + Queue(s)[..k]
    case _ => Queue(t) == Queue(s) && t.consumed == s.consumed
  }

  lemma ConsumedIsFront<T>(s: Shared<T>)
    requires Inv(s)
    ensures s.consumed <= s.pushed
  {
  }

  /** What a step adds to the two records. */
  lemma StepRecords<T>(s: Shared<T>, step: Step<T>)
    requires 0 < s.cap == |s.slots| && Next(s, step).Some?
    ensures var t := Next(s, step).value;
      match step
      case Publish => s.producer.Stored? && t.pushed == s.pushed + [s.producer.item] && t.consumed == s.consumed
      case Consume => t.pushed == s.pushed && s.consumed <= t.consumed && |t.consumed| == |s.consumed| + 1
      case Skip(k) => t.pushed == s.pushed && s.consumed <= t.consumed && |t.consumed| == |s.consumed| + k
      case _ => t.pushed == s.pushed && t.consumed == s.consumed
  {
  }

  /** Consuming `k` more of what was pushed takes them off the front of the queue. */
  lemma QueueAdvances<T>(s: Shared<T>, t: Shared<T>, k: nat)
    requires t.pushed == s.pushed && s.consumed <= t.consumed <= t.pushed && |t.consumed| == |s.consumed| + k
    ensures k <= |Queue(s)| && Queue(t) == Queue(s)[k..] && t.consumed == s.consumed + Queue(s)[..k]
  {
  }

  /** An item just looked at is the one at that position of the queue. */
  lemma HeldIsQueued<T>(s: Shared<T>, t: Shared<T>, k: nat)
    requires Inv(s) && Inv(t) && Next(s, First(k)) == Some(t)
    ensures |s.consumed| <= |s.pushed| && k < |Queue(s)|
    ensures t.consumer.Holding? && k in t.consumer.items && t.consumer.items[k] == Queue(s)[k]
  {
  }

  lemma StepRefinesQueue<T>(s: Shared<T>, step: Step<T>)
    requires Inv(s) && Next(s, step).Some? && |Next(s, step).value.pushed| < INT32_LIMIT
    ensures |s.consumed| <= |s.pushed| && |Next(s, step).value.consumed| <= |Next(s, step).value.pushed|
    ensures QueueStep(step, s, Next(s, step).value)
  {
    StepKeepsInv(s, step);
    StepRecords(s, step);
    var t := Next(s, step).value;
    ConsumedIsFront(s);
    ConsumedIsFront(t);
    hide Inv, Next;
    match step {
      case Consume => QueueAdvances(s, t, 1);
      case First(k) => HeldIsQueued(s, t, k);
      case Skip(k) => QueueAdvances(s, t, k);
      case _ =>
    }
  }

  // ----- what goes in comes out -----

  /** The items offered to `Push`, in order. */
  function Offered<T>(steps: seq<Step<T>>): seq<T>
    decreases |steps|
  {
    if steps == [] then []
    else (if steps[0].Load? then [steps[0].item] else []) + Offered(steps[1..])
  }

  /** The item of a push that is under way. */
  function UnderWay<T>(p: Producer<T>): seq<T> {
    if p.Idle? then [] else [p.item]
  }

  lemma OfferedIsKept<T>(s: Shared<T>, step: Step<T>)
    requires 0 < s.cap == |s.slots| && Next(s, step).Some?
    ensures var t := Next(s, step).value;
      t.pushed + UnderWay(t.producer)
      == s.pushed + UnderWay(s.producer) + (if step.Load? then [step.item] else [])
  {
  }

  lemma {:induction false} RunKeepsOffered<T>(s: Shared<T>, steps: seq<Step<T>>)
    requires 0 < s.cap == |s.slots| && Run(s, steps).Some?
    ensures var t := Run(s, steps).value;
      t.pushed + UnderWay(t.producer) == s.pushed + UnderWay(s.producer) + Offered(steps)
    decreases |steps|
  {
    if steps == [] {
    } else {
      var m := Next(s, steps[0]).value;
      var first, rest := if steps[0].Load? then [steps[0].item] else [], Offered(steps[1..]);
      assert Offered(steps) == first + rest && Run(s, steps) == Run(m, steps[1..]);
      hide Next, Run, Offered, UnderWay;
      OfferedIsKept(s, steps[0]);
      RunKeepsOffered(m, steps[1..]);
      Regroup(s.pushed + UnderWay(s.producer), first, rest);
    }
  }

  lemma Regroup<T>(a: seq<T>, b: seq<T>, c: seq<T>)
    ensures (a + b) + c == a + (b + c)
  {
  }

  /**
   After any interleaving with fewer than 2^31 pushes: what was offered to `Push` is what was published
   and the item under way, in order and nothing else, and what was consumed is the front of it.
   */
  lemma ConsumedIsOffered<T>(slots: seq<T>, steps: seq<Step<T>>)
    requires slots != [] && Run(Start(slots), steps).Some?
    requires |Run(Start(slots), steps).value.pushed| < INT32_LIMIT
    ensures var t := Run(Start(slots), steps).value;
      t.pushed + UnderWay(t.producer) == Offered(steps) && t.consumed <= Offered(steps)
  {
    var t := Run(Start(slots), steps).value;
    RunKeepsOffered(Start(slots), steps);
    EveryRunIsSafe(slots, steps);
    hide Run;
    assert t.pushed <= t.pushed + UnderWay(t.producer);
  }

  /** When each step is possible. */
  lemma PossibleExactly<T>(s: Shared<T>, x: T, k: nat)
    requires 0 < s.cap == |s.slots|
    ensures Next(s, Load(x)).Some? <==> s.producer == Idle && s.writePos - s.readPos < s.cap
    ensures Next(s, Store).Some? <==> s.producer.Loaded?
    ensures Next(s, Publish).Some? <==> s.producer.Stored?
    ensures Next(s, Snapshot).Some? <==> s.consumer.Holding?
    ensures Next(s, Consume).Some? <==> s.consumer.Reading? && s.consumer.pos < s.consumer.limit
    ensures Next(s, Advance).Some? <==> s.consumer.Reading? && s.consumer.pos >= s.consumer.limit
    ensures Next(s, First(k)).Some? <==> s.consumer.Holding? && k < s.writePos - s.readPos
    ensures Next(s, Skip(k)).Some? <==> s.consumer.Holding? && k <= s.writePos - s.readPos
  {
  }

  /** Whatever the threads have done, the consumer can go on to get everything published. */
  lemma {:induction false} CanCatchUp<T>(s: Shared<T>) returns (steps: seq<Step<T>>)
    requires Inv(s)
    ensures Run(s, steps).Some? && Run(s, steps).value.consumed == s.pushed
    decreases if s.consumer.Reading? then 1 + s.consumer.limit - s.consumer.pos else 0
  {
    var step :=
      if s.consumer.Holding? then Skip(s.writePos - s.readPos)
      else if s.consumer.pos < s.consumer.limit then Consume
      else Advance;
    var t := Next(s, step).value;
    ConsumerKeepsInv(s, step);
    if s.consumer.Holding? {
      steps := [step];
      assert steps[1..] == [] && Run(t, []) == Some(t);
      assert t.consumed == t.pushed[..t.readPos] && t.readPos == |t.pushed|;
    } else {
      var rest := CanCatchUp(t);
      steps := [step] + rest;
      assert steps[1..] == rest;
    }
  }

  /** `consume_all` reads from the first item not consumed to the last one published when it began. */
  lemma SnapshotSeesAll<T>(s: Shared<T>)
    requires Inv(s) && s.consumer.Holding?
    ensures Next(s, Snapshot).Some?
    ensures Next(s, Snapshot).value.consumer == Reading(|s.pushed|, |s.consumed|)
  {
  }
}
