/** `Dynamic_Array` of lib/dynamic-array.hpp: `capacity` slots of `int`
    (the class allocates `new int[]` whatever its template argument), of
    which the first `length` hold the elements.  The capacity starts at 4
    and doubles when an insertion would not fit.

    The array is a value here.  The contents of a freshly allocated block
    are whatever `new int[]` returns, so they are a parameter (`block`) of
    every operation that may allocate. */
module DynamicArray {
  import opened Wrappers

  const InitialCapacity: nat := 4

  datatype ArrayError = EmptyArray | OutOfRange | NotFound

  datatype Array = Array(values: seq<int>, capacity: nat, length: nat)

  predicate Valid(a: Array) {
    |a.values| == a.capacity && 0 < a.capacity && a.length <= a.capacity
  }

  /** The elements, first to last. */
  function Elements(a: Array): seq<int>
    requires Valid(a)
  {
    a.values[..a.length]
  }

  /** The constructor: no elements in a block of 4 slots. */
  function Create(block: seq<int>): (a: Array)
    requires |block| == InitialCapacity
    ensures Valid(a) && Elements(a) == [] && a.capacity == 4
  {
    Array(block, InitialCapacity, 0)
  }

  /** `grow_capacity_if_needed`: when one more element would not fit, a
      block of twice the capacity replaces the old one and the elements are
      copied over. */
  function Grow(a: Array, block: seq<int>): (r: Array)
    requires Valid(a) && |block| == 2 * a.capacity
    ensures Valid(r) && Elements(r) == Elements(a)
    ensures r.length + 1 <= r.capacity
    ensures r.capacity == a.capacity || (a.length == a.capacity && r.capacity == 2 * a.capacity)
  {
    if a.length + 1 > a.capacity then
      Array(a.values[..a.length] + block[a.length..], 2 * a.capacity, a.length)
    else a
  }

  /** Growing doubles the capacity exactly when the array is full. */
  lemma GrowDoublesWhenFull(a: Array, block: seq<int>)
    requires Valid(a) && |block| == 2 * a.capacity
    ensures Grow(a, block).capacity == if a.length == a.capacity then 2 * a.capacity else a.capacity
  {
  }

  /** `push`: the value goes after the last element. */
  function Push(a: Array, v: int, block: seq<int>): (r: Array)
    requires Valid(a) && |block| == 2 * a.capacity
    ensures Valid(r) && Elements(r) == Elements(a) + [v]
  {
    var g := Grow(a, block);
    Array(g.values[g.length := v], g.capacity, g.length + 1)
  }

  /** `pop`: throws on an empty array; otherwise drops and returns the last
      element. */
  function Pop(a: Array): (r: Result<(Array, int), ArrayError>)
    requires Valid(a)
    ensures r.Failure? <==> Elements(a) == []
    ensures r.Failure? ==> r.error == EmptyArray
    ensures r.Success? ==> Valid(r.value.0) && Elements(a) == Elements(r.value.0) + [r.value.1]
  {
    if a.length == 0 then Failure(EmptyArray)
    else Success((a.(length := a.length - 1), a.values[a.length - 1]))
  }

  /** `pop` undoes `push`. */
  lemma PushThenPop(a: Array, v: int, block: seq<int>)
    requires Valid(a) && |block| == 2 * a.capacity
    ensures Pop(Push(a, v, block)).Success?
    ensures Pop(Push(a, v, block)).value.1 == v
    ensures Elements(Pop(Push(a, v, block)).value.0) == Elements(a)
  {
    var r := Push(a, v, block);
    assert Elements(r) == Elements(a) + [v];
    assert Elements(Pop(r).value.0) + [Pop(r).value.1] == Elements(a) + [v];
  }

  /** `unshift`: grows if needed, moves every element one slot up, last one
      first, and writes the value into slot 0. */
  method Unshift(a: Array, v: int, block: seq<int>) returns (r: Array)
    requires Valid(a) && |block| == 2 * a.capacity
    ensures Valid(r) && Elements(r) == [v] + Elements(a)
  {
    var g := Grow(a, block);
    var values := g.values;
    var i: nat := g.length;
    while i > 0
      invariant i <= g.length < |values| == |g.values|
      invariant values[..i] == g.values[..i]
      invariant forall j :: i < j <= g.length ==> values[j] == g.values[j - 1]
      decreases i
    {
      values := values[i := values[i - 1]];
      i := i - 1;
    }
    values := values[0 := v];
    r := Array(values, g.capacity, g.length + 1);
    assert Elements(r) == [v] + Elements(a) by {
      assert forall j :: 0 < j <= g.length ==> Elements(r)[j] == Elements(a)[j - 1];
    }
  }

  /** `shift`: throws on an empty array; otherwise takes slot 0 and moves
      every other element one slot down, first one first. */
  method Shift(a: Array) returns (r: Result<(Array, int), ArrayError>)
    requires Valid(a)
    ensures r.Failure? <==> Elements(a) == []
    ensures r.Failure? ==> r.error == EmptyArray
    ensures r.Success? ==> Valid(r.value.0) && Elements(a) == [r.value.1] + Elements(r.value.0)
  {
    if a.length == 0 {
      return Failure(EmptyArray);
    }
    var value := a.values[0];
    var length := a.length - 1;
    var values := a.values;
    var i := 0;
    while i < length
      invariant i <= length && |values| == a.capacity
      invariant forall j :: 0 <= j < i ==> values[j] == a.values[j + 1]
      invariant values[i..] == a.values[i..]
    {
      values := values[i := values[i + 1]];
      i := i + 1;
    }
    var b := Array(values, a.capacity, length);
    assert Elements(a) == [value] + Elements(b) by {
      assert forall j :: 0 <= j < length ==> Elements(b)[j] == Elements(a)[j + 1];
    }
    return Success((b, value));
  }

  /** `value_at` and `operator[]`: an index at or past the length throws. */
  function ValueAt(a: Array, index: nat): (r: Result<int, ArrayError>)
    requires Valid(a)
    ensures r.Failure? <==> index >= |Elements(a)|
    ensures r.Failure? ==> r.error == OutOfRange
    ensures r.Success? ==> r.value == Elements(a)[index]
  {
    if index >= a.length then Failure(OutOfRange) else Success(a.values[index])
  }

  /** A write through the reference `operator[]` returns: only the element
      at `index` changes. */
  function Assign(a: Array, index: nat, v: int): (r: Result<Array, ArrayError>)
    requires Valid(a)
    ensures r.Failure? <==> index >= |Elements(a)|
    ensures r.Failure? ==> r.error == OutOfRange
    ensures r.Success? ==> Valid(r.value) && Elements(r.value) == Elements(a)[index := v]
  {
    if index >= a.length then Failure(OutOfRange)
    else Success(a.(values := a.values[index := v]))
  }

  /** `find`: the first index holding the value; throws when none does. */
  method Find(a: Array, v: int) returns (r: Result<nat, ArrayError>)
    requires Valid(a)
    ensures r.Failure? <==> v !in Elements(a)
    ensures r.Failure? ==> r.error == NotFound
    ensures r.Success? ==> r.value < |Elements(a)| && Elements(a)[r.value] == v
    ensures r.Success? ==> forall j :: 0 <= j < r.value ==> Elements(a)[j] != v
  {
    var i := 0;
    while i < a.length
      invariant i <= a.length
      invariant forall j :: 0 <= j < i ==> a.values[j] != v
    {
      if a.values[i] == v {
        return Success(i);
      }
      i := i + 1;
    }
    return Failure(NotFound);
  }

  /** `delete_at`: an index at or past the length throws; otherwise every
      element after it moves one slot down. */
  method DeleteAt(a: Array, index: nat) returns (r: Result<Array, ArrayError>)
    requires Valid(a)
    ensures r.Failure? <==> index >= |Elements(a)|
    ensures r.Failure? ==> r.error == OutOfRange
    ensures r.Success? ==> Valid(r.value) && r.value.capacity == a.capacity
    ensures r.Success? ==> Elements(r.value) == Elements(a)[..index] + Elements(a)[index + 1..]
  {
    if index >= a.length {
      return Failure(OutOfRange);
    }
    var length := a.length - 1;
    var values := a.values;
    var i := index;
    while i < length
      invariant index <= i <= length && |values| == a.capacity
      invariant values[..index] == a.values[..index]
      invariant forall j :: index <= j < i ==> values[j] == a.values[j + 1]
      invariant values[i..] == a.values[i..]
    {
      values := values[i := values[i + 1]];
      i := i + 1;
    }
    var b := Array(values, a.capacity, length);
    assert Elements(b) == Elements(a)[..index] + Elements(a)[index + 1..] by {
      assert forall j :: index <= j < length ==> Elements(b)[j] == Elements(a)[j + 1];
    }
    return Success(b);
  }

  /** `shift` undoes `unshift`. */
  method UnshiftThenShift(a: Array, v: int, block: seq<int>) returns (value: int, b: Array)
    requires Valid(a) && |block| == 2 * a.capacity
    ensures value == v && Valid(b) && Elements(b) == Elements(a)
  {
    var u := Unshift(a, v, block);
    var r := Shift(u);
    value, b := r.value.1, r.value.0;
    assert [value] + Elements(b) == [v] + Elements(a);
    assert Elements(b) == ([value] + Elements(b))[1..];
  }

  /** The index `find` returns reads back the value it looked for. */
  method FindThenRead(a: Array, v: int) returns (r: Result<int, ArrayError>)
    requires Valid(a)
    ensures r.Success? <==> v in Elements(a)
    ensures r.Success? ==> r.value == v
  {
    var k := Find(a, v);
    if k.Failure? {
      return Failure(k.error);
    }
    r := ValueAt(a, k.value);
  }
}
