/** `Circular_Buffer<Floating, capacity>` of lib/circular-buffer.hpp: an
    array of `capacity` slots and two iterators into it, `start` (the first
    element) and `finish` (one past the last).  The elements are the slots
    from `start` up to, not including, `finish`, wrapping at `capacity`, so
    a buffer holds at most `capacity - 1` of them: `start == finish` means
    empty.

    The buffer is a value here; an operation that throws returns the state
    the object is left in together with the error, because the C++ methods
    change the object before they throw. */
module CircularBuffer {
  import opened Wrappers
  import Arith

  /** The largest `size_t`. */
  const SizeMax: nat := 0xFFFF_FFFF_FFFF_FFFF

  /** A capacity the template can be instantiated with: C++ has no arrays
      of length zero, and the capacity is a `size_t`. */
  predicate ValidCapacity(capacity: nat) {
    0 < capacity <= SizeMax
  }

  datatype BufferError = Overflow | Empty | InvalidIndex

  // ---------------------------------------------------------------------
  // Buffer_Iterator

  /** The iterator constructor: an index above `capacity` throws. */
  function MakeIterator(index: nat, capacity: nat): (r: Result<nat, BufferError>)
    ensures r.Failure? <==> index > capacity
    ensures r.Failure? ==> r.error == InvalidIndex
    ensures r.Success? ==> r.value == index
  {
    if index > capacity then Failure(InvalidIndex) else Success(index)
  }

  /** `operator++`: the `size_t` index is incremented and wraps to 0 when it
      reaches `capacity`. */
  function Next(index: nat, capacity: nat): (r: nat)
    requires ValidCapacity(capacity) && index <= SizeMax
    ensures r < capacity
  {
    var j := if index == SizeMax then 0 else index + 1;
    if j >= capacity then 0 else j
  }

  /** `operator--`: the `size_t` index is decremented; below 0 it wraps to
      the largest `size_t`, which the test `index >= capacity` turns into
      `capacity - 1`. */
  function Prev(index: nat, capacity: nat): (r: nat)
    requires ValidCapacity(capacity) && index <= SizeMax
    ensures r < capacity
  {
    var j := if index == 0 then SizeMax else index - 1;
    if j >= capacity then capacity - 1 else j
  }

  /** On a slot, `++` is the successor modulo `capacity` and `--` the
      predecessor modulo `capacity`. */
  lemma StepsAreModular(index: nat, capacity: nat)
    requires ValidCapacity(capacity) && index < capacity
    ensures Next(index, capacity) == (index + 1) % capacity
    ensures Prev(index, capacity) == (index + capacity - 1) % capacity
  {
    if index + 1 < capacity {
      Arith.DivModUnique(index + 1, capacity, 0, index + 1);
    } else {
      Arith.DivModUnique(index + 1, capacity, 1, 0);
    }
    if index == 0 {
      Arith.DivModUnique(index + capacity - 1, capacity, 0, capacity - 1);
    } else {
      Arith.DivModUnique(index + capacity - 1, capacity, 1, index - 1);
    }
  }

  /** `++` and `--` undo each other on every slot. */
  lemma StepsAreInverse(index: nat, capacity: nat)
    requires ValidCapacity(capacity) && index < capacity
    ensures Prev(Next(index, capacity), capacity) == index
    ensures Next(Prev(index, capacity), capacity) == index
  {
  }

  /** The constructor accepts the index `capacity`, which names no slot. */
  lemma IteratorAcceptsPastTheEnd(capacity: nat)
    requires ValidCapacity(capacity)
    ensures MakeIterator(capacity, capacity) == Success(capacity)
    ensures !(capacity < capacity)
  {
  }

  /** The constructor with the bound the slots need: only `0 .. capacity - 1`
      are accepted. */
  function MakeIteratorChecked(index: nat, capacity: nat): (r: Result<nat, BufferError>)
    ensures r.Failure? <==> index >= capacity
    ensures r.Success? ==> r.value == index && r.value < capacity
  {
    if index >= capacity then Failure(InvalidIndex) else Success(index)
  }

  /** The checked constructor agrees with the original on every slot and
      refuses only the index the original lets through by mistake. */
  lemma CheckedIteratorAgrees(index: nat, capacity: nat)
    ensures index != capacity ==> MakeIteratorChecked(index, capacity) == MakeIterator(index, capacity)
    ensures MakeIteratorChecked(capacity, capacity).Failure?
  {
  }

  // ---------------------------------------------------------------------
  // The buffer and its elements

  /** `values` are the slots; `start` and `finish` the iterators' indices. */
  datatype Buffer<T> = Buffer(capacity: nat, values: seq<T>, start: nat, finish: nat)

  predicate Valid<T>(b: Buffer<T>) {
    ValidCapacity(b.capacity) && |b.values| == b.capacity && b.start < b.capacity && b.finish < b.capacity
  }

  /** The slots from `from` to `to`, wrapping at `capacity`. */
  function Distance(from: nat, to: nat, capacity: nat): nat
    requires from < capacity && to < capacity
  {
    if from <= to then to - from else to + capacity - from
  }

  /** The slot `k` places after `from`. */
  function Slot(from: nat, k: nat, capacity: nat): nat
    requires from < capacity && k < capacity
  {
    if from + k < capacity then from + k else from + k - capacity
  }

  /** The number of elements. */
  function Count<T>(b: Buffer<T>): nat
    requires Valid(b)
  {
    Distance(b.start, b.finish, b.capacity)
  }

  /** The elements, first to last. */
  function Contents<T>(b: Buffer<T>): (r: seq<T>)
    requires Valid(b)
    ensures |r| == Count(b) < b.capacity
  {
    seq(Count(b), (k: nat) requires k < Count(b) => b.values[Slot(b.start, k, b.capacity)])
  }

  /** The element count is `(finish - start) mod capacity`. */
  lemma CountIsModular<T>(b: Buffer<T>)
    requires Valid(b)
    ensures Count(b) == (b.finish - b.start) % b.capacity
  {
    if b.start <= b.finish {
      Arith.DivModUnique(b.finish - b.start, b.capacity, 0, Count(b));
    } else {
      Arith.DivModUnique(b.finish - b.start, b.capacity, -1, Count(b));
    }
  }

  /** A buffer is empty exactly when its iterators are equal. */
  lemma EmptyIffIteratorsMeet<T>(b: Buffer<T>)
    requires Valid(b)
    ensures Contents(b) == [] <==> b.start == b.finish
  {
  }

  /** The array the class is constructed with: both iterators at slot 0 and
      the slots as they happen to be. */
  function Create<T>(slots: seq<T>): (b: Buffer<T>)
    requires ValidCapacity(|slots|)
    ensures Valid(b) && b.capacity == |slots| && Contents(b) == []
  {
    Buffer(|slots|, slots, 0, 0)
  }

  // ---------------------------------------------------------------------
  // Iteration

  /** The slots a loop from `begin()` to `end()` with `++` visits. */
  function Walk(from: nat, to: nat, capacity: nat): (r: seq<nat>)
    requires ValidCapacity(capacity) && from < capacity && to < capacity
    ensures |r| == Distance(from, to, capacity)
    ensures forall k :: 0 <= k < |r| ==> r[k] < capacity
    decreases Distance(from, to, capacity)
  {
    if from == to then [] else [from] + Walk(Next(from, capacity), to, capacity)
  }

  lemma {:induction false} WalkSlots(from: nat, to: nat, capacity: nat)
    requires ValidCapacity(capacity) && from < capacity && to < capacity
    ensures forall k :: 0 <= k < Distance(from, to, capacity) ==>
      Walk(from, to, capacity)[k] == Slot(from, k, capacity)
    decreases Distance(from, to, capacity)
  {
    if from != to {
      WalkSlots(Next(from, capacity), to, capacity);
    }
  }

  /** Iterating from `begin()` to `end()` visits `(finish - start) mod
      capacity` slots, and reading them gives the elements in order. */
  lemma IterationVisitsContents<T>(b: Buffer<T>)
    requires Valid(b)
    ensures |Walk(b.start, b.finish, b.capacity)| == (b.finish - b.start) % b.capacity
    ensures forall k :: 0 <= k < |Walk(b.start, b.finish, b.capacity)| ==>
      b.values[Walk(b.start, b.finish, b.capacity)[k]] == Contents(b)[k]
  {
    WalkSlots(b.start, b.finish, b.capacity);
    CountIsModular(b);
  }

  // ---------------------------------------------------------------------
  // push / pop / unshift / shift

  /** `push`: writes the slot at `finish` and advances `finish`; when it
      runs into `start` the call throws, after the write and the move. */
  function Push<T>(b: Buffer<T>, v: T): (r: (Buffer<T>, Outcome<BufferError>))
    requires Valid(b)
    ensures Valid(r.0) && r.0.capacity == b.capacity
    ensures r.1.Fail? <==> Count(b) == b.capacity - 1
    ensures r.1.Pass? ==> Contents(r.0) == Contents(b) + [v]
    ensures r.1.Fail? ==> r.1.error == Overflow && Contents(r.0) == []
  {
    var b' := b.(values := b.values[b.finish := v], finish := Next(b.finish, b.capacity));
    (b', if b'.start == b'.finish then Fail(Overflow) else Pass)
  }

  /** `pop`: throws on an empty buffer; otherwise moves `finish` back and
      returns the slot it now names. */
  function Pop<T>(b: Buffer<T>): (r: Result<(Buffer<T>, T), BufferError>)
    requires Valid(b)
    ensures r.Failure? <==> Contents(b) == []
    ensures r.Failure? ==> r.error == Empty
    ensures r.Success? ==> Valid(r.value.0) && r.value.0.capacity == b.capacity
    ensures r.Success? ==> Contents(b) == Contents(r.value.0) + [r.value.1]
  {
    if b.start == b.finish then Failure(Empty)
    else
      var finish := Prev(b.finish, b.capacity);
      Success((b.(finish := finish), b.values[finish]))
  }

  /** `unshift`: moves `start` back and writes the value there; when it runs
      into `finish` the call throws, after the move and the write. */
  function Unshift<T>(b: Buffer<T>, v: T): (r: (Buffer<T>, Outcome<BufferError>))
    requires Valid(b)
    ensures Valid(r.0) && r.0.capacity == b.capacity
    ensures r.1.Fail? <==> Count(b) == b.capacity - 1
    ensures r.1.Pass? ==> Contents(r.0) == [v] + Contents(b)
    ensures r.1.Fail? ==> r.1.error == Overflow && Contents(r.0) == []
  {
    var start := Prev(b.start, b.capacity);
    var b' := b.(values := b.values[start := v], start := start);
    (b', if b'.start == b'.finish then Fail(Overflow) else Pass)
  }

  /** `shift`: throws on an empty buffer; otherwise returns the slot at
      `start` and advances `start`. */
  function Shift<T>(b: Buffer<T>): (r: Result<(Buffer<T>, T), BufferError>)
    requires Valid(b)
    ensures r.Failure? <==> Contents(b) == []
    ensures r.Failure? ==> r.error == Empty
    ensures r.Success? ==> Valid(r.value.0) && r.value.0.capacity == b.capacity
    ensures r.Success? ==> Contents(b) == [r.value.1] + Contents(r.value.0)
  {
    if b.start == b.finish then Failure(Empty)
    else Success((b.(start := Next(b.start, b.capacity)), b.values[b.start]))
  }

  /** `pop` right after a `push` that did not overflow returns the pushed
      value and puts `finish` back where it was. */
  lemma PushThenPop<T>(b: Buffer<T>, v: T)
    requires Valid(b) && Push(b, v).1.Pass?
    ensures Pop(Push(b, v).0).Success?
    ensures Pop(Push(b, v).0).value.1 == v
    ensures Pop(Push(b, v).0).value.0.finish == b.finish
    ensures Contents(Pop(Push(b, v).0).value.0) == Contents(b)
  {
    StepsAreInverse(b.finish, b.capacity);
  }

  /** `shift` right after an `unshift` that did not overflow returns the
      value and puts `start` back where it was. */
  lemma UnshiftThenShift<T>(b: Buffer<T>, v: T)
    requires Valid(b) && Unshift(b, v).1.Pass?
    ensures Shift(Unshift(b, v).0).Success?
    ensures Shift(Unshift(b, v).0).value.1 == v
    ensures Shift(Unshift(b, v).0).value.0.start == b.start
    ensures Contents(Shift(Unshift(b, v).0).value.0) == Contents(b)
  {
    StepsAreInverse(b.start, b.capacity);
  }

  /** `push` at the back and `shift` at the front make a queue: a value
      pushed behind the elements comes out after all of them. */
  lemma QueueOrder<T>(b: Buffer<T>, v: T)
    requires Valid(b) && Push(b, v).1.Pass? && Contents(b) != []
    ensures Shift(Push(b, v).0).Success?
    ensures Shift(Push(b, v).0).value.1 == Contents(b)[0]
    ensures Contents(Shift(Push(b, v).0).value.0) == Contents(b)[1..] + [v]
  {
  }

  /** A `push` into a buffer holding `capacity - 1` elements throws, and
      the buffer it leaves behind reads as empty: every element is lost. */
  lemma PushOverflowLosesElements(v: int)
    ensures var b := Buffer(2, [7, 0], 0, 1);
      Valid(b) && Contents(b) == [7] &&
      Push(b, v).1 == Fail(Overflow) && Contents(Push(b, v).0) == [] &&
      Pop(Push(b, v).0) == Failure(Empty)
  {
    var b := Buffer(2, [7, 0], 0, 1);
    assert Contents(b)[0] == 7;
  }

  /** `push` that throws before touching the buffer when it is full. */
  function PushChecked<T>(b: Buffer<T>, v: T): (r: (Buffer<T>, Outcome<BufferError>))
    requires Valid(b)
    ensures Valid(r.0)
    ensures r.1.Fail? <==> Count(b) == b.capacity - 1
    ensures r.1.Pass? ==> Contents(r.0) == Contents(b) + [v]
    ensures r.1.Fail? ==> r.1.error == Overflow && r.0 == b
  {
    if Count(b) == b.capacity - 1 then (b, Fail(Overflow)) else Push(b, v)
  }

  /** `unshift` that throws before touching the buffer when it is full. */
  function UnshiftChecked<T>(b: Buffer<T>, v: T): (r: (Buffer<T>, Outcome<BufferError>))
    requires Valid(b)
    ensures Valid(r.0)
    ensures r.1.Fail? <==> Count(b) == b.capacity - 1
    ensures r.1.Pass? ==> Contents(r.0) == [v] + Contents(b)
    ensures r.1.Fail? ==> r.1.error == Overflow && r.0 == b
  {
    if Count(b) == b.capacity - 1 then (b, Fail(Overflow)) else Unshift(b, v)
  }

  /** The checked operations never lose an element: a full buffer keeps
      its contents, and otherwise they behave as the originals. */
  lemma CheckedInsertsKeepElements<T>(b: Buffer<T>, v: T)
    requires Valid(b)
    ensures Contents(b) <= Contents(PushChecked(b, v).0)
    ensures PushChecked(b, v).1.Pass? ==> PushChecked(b, v) == Push(b, v)
    ensures UnshiftChecked(b, v).1.Pass? ==> UnshiftChecked(b, v) == Unshift(b, v)
  {
  }

  /** Pushes every value in turn with `push`; the first overflow throws
      and ends the sequence. */
  function PushAll<T>(b: Buffer<T>, vs: seq<T>): (r: Result<Buffer<T>, BufferError>)
    requires Valid(b)
    ensures r.Success? ==> Valid(r.value) && r.value.capacity == b.capacity
    ensures r.Failure? ==> r.error == Overflow
    decreases |vs|
  {
    if vs == [] then Success(b)
    else
      var (b', outcome) := Push(b, vs[0]);
      if outcome.Fail? then Failure(outcome.error) else PushAll(b', vs[1..])
  }

  /** Shifts `n` values out, or fails on an empty buffer. */
  function ShiftAll<T>(b: Buffer<T>, n: nat): (r: Result<(Buffer<T>, seq<T>), BufferError>)
    requires Valid(b)
    ensures r.Success? ==> Valid(r.value.0) && r.value.0.capacity == b.capacity && |r.value.1| == n
    decreases n
  {
    if n == 0 then Success((b, []))
    else match Shift(b)
      case Failure(e) => Failure(e)
      case Success((b', v)) =>
        match ShiftAll(b', n - 1)
          case Failure(e) => Failure(e)
          case Success((b'', vs)) => Success((b'', [v] + vs))
  }

  /** Pushing a sequence succeeds exactly when it fits, and then appends
      it to the contents. */
  lemma {:induction false} PushAllAppends<T>(b: Buffer<T>, vs: seq<T>)
    requires Valid(b)
    ensures PushAll(b, vs).Success? <==> Count(b) + |vs| < b.capacity
    ensures PushAll(b, vs).Success? ==> Contents(PushAll(b, vs).value) == Contents(b) + vs
    decreases |vs|
  {
    if vs != [] {
      var (b', outcome) := Push(b, vs[0]);
      if outcome.Pass? {
        PushAllAppends(b', vs[1..]);
        assert Contents(b) + vs == (Contents(b) + [vs[0]]) + vs[1..];
      }
    }
  }

  lemma {:induction false} ShiftAllTakes<T>(b: Buffer<T>, n: nat)
    requires Valid(b) && n <= Count(b)
    ensures ShiftAll(b, n).Success?
    ensures ShiftAll(b, n).value.1 == Contents(b)[..n]
    ensures Contents(ShiftAll(b, n).value.0) == Contents(b)[n..]
    decreases n
  {
    if n != 0 {
      var b' := Shift(b).value.0;
      ShiftAllTakes(b', n - 1);
      assert Contents(b) == [Contents(b)[0]] + Contents(b');
    }
  }

  /** First in, first out: values pushed into an empty buffer with room for
      them are shifted out in the order they went in, leaving it empty. */
  lemma FirstInFirstOut<T>(b: Buffer<T>, vs: seq<T>)
    requires Valid(b) && Contents(b) == [] && |vs| < b.capacity
    ensures PushAll(b, vs).Success?
    ensures ShiftAll(PushAll(b, vs).value, |vs|).Success?
    ensures ShiftAll(PushAll(b, vs).value, |vs|).value.1 == vs
    ensures Contents(ShiftAll(PushAll(b, vs).value, |vs|).value.0) == []
  {
    PushAllAppends(b, vs);
    ShiftAllTakes(PushAll(b, vs).value, |vs|);
  }
}
