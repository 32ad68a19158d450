# Numerical methods and containers, modelled in Dafny

This project models a small C++ library of header-only numerical tools and
containers. The C++ code is generic over `Floating`; this model works over
exact reals.

- **Containers.** These are:
  - a fixed-capacity circular buffer with wrap-around `start`/`finish` iterators;
  - a dynamic `int` array whose capacity starts at 4 and doubles;
  - a doubly linked list of heap nodes with `head`/`tail` pointers.
- **Algebra.** Vectors (`seq<real>`), row-major matrices with Gaussian-elimination
  determinant and LU-based inverse, and complex numbers.
- **Scalar helpers.** The exact helpers of the scalar header (`swap`, `factorial`
  modulo 2^64, `power`, `maximum`, `minimum`, `sign`), and the guard cascades of
  `square_root`, `root` and `atan2`.
- **Primes.** The trial-division primality test and the loop that collects the
  first primes.

Modelling conventions:

- Every container is an immutable value, and every operation is a function or a
  method over it.
- Where the C++ code throws, the model returns `Failure`. Where it produces NaN or
  divides by zero, the model returns `None`.
- The scalar tolerances are kept as the library's constants: 1e-10 for scalars,
  1e-9 for matrices, 1e-8 for vectors and 1e-6 for complex numbers.
- The Newton-Raphson iterations and the `arctangent` series are parameters
  (`newton`, `arctangent`).
- The address that `new Node` returns is a parameter of the linked-list
  insertions, and the contents of a freshly allocated `int` block are a parameter
  of the array operations.

Modules, one per file:

| Module | File | Content |
|---|---|---|
| `Wrappers` | `wrappers.dfy` | `Option`, `Result` and `Outcome` |
| `Arith` | `arith.dfy` | Integer facts about division, modulus and row-major indices |
| `Scalar` | `scalar.dfy` | The helpers of the scalar header |
| `Primes` | `primes.dfy` | The primality test and the collection loop |
| `CircularBuffer` | `circular_buffer.dfy` | The buffer and its iterators |
| `DynamicArray` | `dynamic_array.dfy` | The dynamic array |
| `LinkedList` | `linked_list.dfy` | The list, its iterator and its demonstration program |
| `Vectors` | `vector.dfy` | The vector operations |
| `ComplexNumbers` | `complex.dfy` | Complex arithmetic |
| `Matrices` | `matrix.dfy` | Indexing, the elementwise operations, products, transpose, the symmetric and skew parts, and the trace |
| `Elimination` | `elimination.dfy` | The determinant and the inverse as written, with the demonstration matrix |
| `LUFactorization` | `lu_factorization.dfy` | The proof that the elimination factors the matrix and that the computed inverse is a right inverse |

## Model

| member | source | states |
|---|---|---|
| Scalar.Swap | lib/scalar.hpp:31-36 | The two arguments come back exchanged. |
| Scalar.SwapTwiceRestores | lib/scalar.hpp:31-36 | Swapping twice gives back the original pair. |
| Scalar.Maximum | lib/scalar.hpp:57-60 | The result is one of the two arguments and is at least both. |
| Scalar.Minimum | lib/scalar.hpp:62-65 | The result is one of the two arguments and is at most both. |
| Scalar.Sign | lib/scalar.hpp:67-70 | The sign is 1 for a strictly positive value and -1 otherwise, zero included. |
| Scalar.SignAbsRecompose | lib/scalar.hpp:67-70 | The sign times the absolute value gives back every non-zero value. At zero the sign is -1, not 0. |
| Scalar.Power | lib/scalar.hpp:137-145 | The multiplication loop yields the base raised to the exponent: 1 for exponent 0, then one factor per step. |
| Scalar.PowAdd | lib/scalar.hpp:137-145 | A power with exponent m + n is the product of the powers with exponents m and n. |
| Scalar.Factorial | lib/scalar.hpp:38-45 | The `uint64_t` loop yields n! reduced modulo 2^64, its multiplications wrapping at each step. |
| Scalar.FactorialRecurrence | lib/scalar.hpp:38-45 | 0! = 1! = 1, and n! = n·(n-1)! for n ≥ 2. |
| Scalar.SquareRoot | lib/scalar.hpp:87-105 | The result is 0 within 1e-10 of zero. It is NaN exactly when the value is at or below -1e-10. Any other value goes to the Newton iteration. |
| Scalar.Root | lib/scalar.hpp:109-133 | The cases are tested in source order: n = 1 returns the value, n = 0 returns NaN near zero and 1 elsewhere, and a value near zero gives 0 for n ≥ 2. |
| Scalar.RootIsNaNExactly | lib/scalar.hpp:109-121 | `root` is NaN exactly for n = 0 near zero, or for an even n ≥ 2 with a value at or below -1e-10. |
| Scalar.OddRootDefined | lib/scalar.hpp:109-133 | An odd root with n ≥ 3 of a value away from zero is never NaN; it is the Newton result. |
| Scalar.Atan2 | lib/scalar.hpp:233-248 | The dispatch: both arguments near zero give 0, x near zero gives ±π/2 by the sign of y, x > 0 gives arctangent(y/x), and x < 0 adds π (y ≥ 0) or subtracts π (y < 0). |
| Scalar.Atan2Quadrant | lib/scalar.hpp:233-248 | Suppose arctangent maps into (-π/2, π/2) and follows the sign of its argument. Then `atan2` lies in (-π, π] and is positive above the x axis and negative below it. Its magnitude is under π/2 for x > 0 and over π/2 for x < 0. |
| Scalar.Atan2OnAxes | lib/scalar.hpp:237-240 | `atan2(0,0) = 0`, `atan2(1,0) = π/2` and `atan2(-1,0) = -π/2`. |
| Primes.ProperDivisorAtMostHalf | src/primes.cpp:11-16 | A divisor d of n with 1 < d < n is at most n/2, so trial division up to n/2 is enough. |
| Primes.IsPrime | src/primes.cpp:7-16 | `is_prime` holds exactly for the mathematical primes. For n ≥ 2 it also holds exactly when no i in [2, n/2] divides n. |
| Primes.TwoAndThreeArePrime | src/primes.cpp:11 | For 2 and 3 the trial loop is empty, and both are prime. |
| Primes.PrimeDivisor | src/primes.cpp:7-16 | Every integer ≥ 2 has a prime divisor not above it. |
| Primes.PrimeAbove | src/primes.cpp:22-27 | Above every n there is a prime, so the collection loop always terminates. |
| Primes.FirstPrimes | src/primes.cpp:22-27 | The loop collects exactly `numbers` values. They are all prime and strictly increasing, and no prime below the last one is skipped. |
| CircularBuffer.MakeIterator | lib/circular-buffer.hpp:129-136 | The iterator constructor throws exactly when the index exceeds the capacity. Otherwise it keeps the index. |
| CircularBuffer.Next | lib/circular-buffer.hpp:155-163 | `++` on the `size_t` index keeps it below the capacity; StepsAreModular pins its value. |
| CircularBuffer.Prev | lib/circular-buffer.hpp:166-174 | `--` on the `size_t` index keeps it below the capacity, including the wrap below 0; StepsAreModular pins its value. |
| CircularBuffer.StepsAreModular | lib/circular-buffer.hpp:155-174 | `++` is +1 modulo the capacity and `--` is -1 modulo the capacity, so the index stays below the capacity. |
| CircularBuffer.StepsAreInverse | lib/circular-buffer.hpp:155-174 | `--` undoes `++`, and `++` undoes `--`. |
| CircularBuffer.CountIsModular | lib/circular-buffer.hpp:188-210 | The buffer holds (finish - start) mod capacity elements. |
| CircularBuffer.EmptyIffIteratorsMeet | lib/circular-buffer.hpp:176-186 | The buffer is empty exactly when `start == finish`. |
| CircularBuffer.Create | lib/circular-buffer.hpp:32 | A new buffer is valid and holds no element. |
| CircularBuffer.IterationVisitsContents | lib/circular-buffer.hpp:188-210 | Walking with `++` from `begin()` to `end()` visits (finish - start) mod capacity slots. The k-th slot visited holds the k-th element. |
| CircularBuffer.Push | lib/circular-buffer.hpp:68-75 | `push` appends the value at the back. It throws overflow exactly when the buffer already holds capacity - 1 elements, and then the buffer is left empty. |
| CircularBuffer.Pop | lib/circular-buffer.hpp:77-84 | `pop` throws exactly when the buffer is empty, without changing it. Otherwise it removes and returns the last element. |
| CircularBuffer.Unshift | lib/circular-buffer.hpp:86-94 | `unshift` prepends the value. It throws overflow exactly on a buffer with capacity - 1 elements, and leaves it empty. |
| CircularBuffer.Shift | lib/circular-buffer.hpp:96-105 | `shift` throws exactly when the buffer is empty. Otherwise it removes and returns the first element. |
| CircularBuffer.PushThenPop | lib/circular-buffer.hpp:68-84 | Suppose the buffer has room. Then `pop` after `push` returns the pushed value, restores `finish` and restores the contents. |
| CircularBuffer.UnshiftThenShift | lib/circular-buffer.hpp:86-105 | Suppose the buffer has room. Then `shift` after `unshift` returns the value, restores `start` and restores the contents. |
| CircularBuffer.QueueOrder | lib/circular-buffer.hpp:68-75 | On a non-empty buffer with room, `push` then `shift` returns the oldest element. What remains is the rest followed by the pushed value. |
| CircularBuffer.PushAllAppends | lib/circular-buffer.hpp:68-75 | Pushing a sequence value by value with `push` succeeds exactly when it fits (count + length < capacity). It then appends the sequence to the contents; otherwise the first overflow throws. |
| CircularBuffer.ShiftAllTakes | lib/circular-buffer.hpp:96-105 | Shifting n times from a buffer of at least n elements returns its first n elements in order. |
| CircularBuffer.FirstInFirstOut | lib/circular-buffer.hpp:68-105 | Pushing a sequence with `push` into an empty buffer with room for it, then shifting as many times, returns the same sequence and leaves the buffer empty (FIFO). |
| CircularBuffer.IteratorAcceptsPastTheEnd | lib/circular-buffer.hpp:132 | The constructor accepts index == capacity, which is not a slot. |
| CircularBuffer.MakeIteratorChecked | lib/circular-buffer.hpp:129-136 | The corrected constructor accepts exactly the indices below the capacity. |
| CircularBuffer.CheckedIteratorAgrees | lib/circular-buffer.hpp:129-136 | The corrected constructor agrees with the original on every index but the capacity itself, which it rejects. |
| CircularBuffer.PushOverflowLosesElements | lib/circular-buffer.hpp:68-75 | A concrete buffer of capacity 2 holding one element becomes empty when a push overflows. |
| CircularBuffer.PushChecked | lib/circular-buffer.hpp:68-75 | The corrected `push` rejects overflow with the buffer unchanged. It appends otherwise. |
| CircularBuffer.UnshiftChecked | lib/circular-buffer.hpp:86-94 | The corrected `unshift` rejects overflow with the buffer unchanged. It prepends otherwise. |
| CircularBuffer.CheckedInsertsKeepElements | lib/circular-buffer.hpp:68-94 | The corrected insertions never lose an element. When they succeed they coincide with the originals. |
| DynamicArray.Create | lib/dynamic-array.hpp:25-60 | A new array has no element and a capacity of 4. |
| DynamicArray.Grow | lib/dynamic-array.hpp:85-94 | Growing keeps the elements and leaves room for one more. The capacity either stays or, for a full array, doubles. |
| DynamicArray.GrowDoublesWhenFull | lib/dynamic-array.hpp:85-94 | The capacity doubles exactly when the array is full. |
| DynamicArray.Push | lib/dynamic-array.hpp:96-101 | `push` appends the value, and the invariant `length <= capacity` is kept. |
| DynamicArray.Pop | lib/dynamic-array.hpp:103-110 | `pop` throws exactly on an empty array. Otherwise it removes and returns the last element. |
| DynamicArray.PushThenPop | lib/dynamic-array.hpp:96-110 | `pop` after `push` returns the pushed value and the original elements. |
| DynamicArray.Unshift | lib/dynamic-array.hpp:112-121 | The shifting loop prepends the value, with every element moved one slot up. |
| DynamicArray.Shift | lib/dynamic-array.hpp:123-135 | `shift` throws exactly on an empty array. Otherwise it returns the first element and the rest, moved one slot down. |
| DynamicArray.ValueAt | lib/dynamic-array.hpp:137-143 | `value_at` throws exactly when the index is at or past the length. Otherwise it returns that element. |
| DynamicArray.Assign | lib/dynamic-array.hpp:167-173 | A write through `operator[]` throws exactly when the index is at or past the length. Otherwise it changes only that element. |
| DynamicArray.Find | lib/dynamic-array.hpp:145-154 | `find` throws exactly when the value is absent. Otherwise it returns the smallest index holding it. |
| DynamicArray.DeleteAt | lib/dynamic-array.hpp:156-165 | `delete_at` throws exactly when the index is at or past the length. Otherwise it removes that element, keeps the others in order and keeps the capacity. |
| DynamicArray.UnshiftThenShift | lib/dynamic-array.hpp:112-135 | `shift` after `unshift` returns the value and the original elements. |
| DynamicArray.FindThenRead | lib/dynamic-array.hpp:137-154 | Reading at the index `find` returns gives back the value searched for. |
| LinkedList.Create | lib/linked-list.hpp:35 | A new list is valid and has no nodes. |
| LinkedList.InsertNewHead | lib/linked-list.hpp:138-150 | The new node holds the value and becomes the head. It also becomes the tail when the list was empty. |
| LinkedList.InsertNewHeadPrepends | lib/linked-list.hpp:138-150 | `insert_new_head` keeps the list invariant, with the new node first. The values gain the new one at the front. |
| LinkedList.InsertNewTail | lib/linked-list.hpp:152-164 | The new node holds the value and becomes the tail. It also becomes the head when the list was empty. |
| LinkedList.InsertNewTailAppends | lib/linked-list.hpp:152-164 | `insert_new_tail` keeps the invariant, with the new node last. The values gain the new one at the back. |
| LinkedList.InsertBefore | lib/linked-list.hpp:166-179 | The new node holds the value, the tail is unchanged, and the head moves only when the given node was the head. |
| LinkedList.InsertBeforePlaces | lib/linked-list.hpp:166-179 | `insert_before(n, v)` keeps the invariant and places the new node immediately before n, with v at n's position in the values. |
| LinkedList.InsertAfter | lib/linked-list.hpp:181-194 | The new node holds the value, the head is unchanged, and the tail moves only when the given node was the tail. |
| LinkedList.InsertAfterPlaces | lib/linked-list.hpp:181-194 | `insert_after(p, v)` keeps the invariant and places the new node immediately after p. |
| LinkedList.InsertAfterAt | lib/linked-list.hpp:181-194 | The values after `insert_after(p, v)` are the old ones with v inserted just after p's position. |
| LinkedList.InsertAfterTailAppends | lib/linked-list.hpp:181-194 | Inserting after the tail appends the value. |
| LinkedList.Delete | lib/linked-list.hpp:224-241 | `del` frees exactly the given node. |
| LinkedList.DeleteRemoves | lib/linked-list.hpp:224-241 | `del` keeps the invariant, with the node spliced out of the order. The other values stay in their order. |
| LinkedList.DeleteMovesEnds | lib/linked-list.hpp:224-241 | After `del`, `head` and `tail` name the ends of the shortened order, null when it is empty. |
| LinkedList.Find | lib/linked-list.hpp:196-208 | `find` throws exactly when no node holds the value. Otherwise it returns the first node from the head that holds it. |
| LinkedList.ReverseFind | lib/linked-list.hpp:210-222 | `reverse_find` throws exactly when no node holds the value. Otherwise it returns the last such node. |
| LinkedList.Increment | lib/linked-list.hpp:78-83 | `++` on a list iterator; StepsFollowOrder states where it goes. |
| LinkedList.Decrement | lib/linked-list.hpp:84-89 | `--` on a list iterator; StepsFollowOrder states where it goes. |
| LinkedList.StepsFollowOrder | lib/linked-list.hpp:78-89 | On a valid list, `++` moves to the next node in order and `--` to the previous one. Both reach null past the ends, and both stay at null. |
| LinkedList.Advance | lib/linked-list.hpp:78-83 | k steps of `++` from `begin()` reach the k-th node; |order| steps reach `end()` (null). |
| LinkedList.Retreat | lib/linked-list.hpp:84-89 | k steps of `--` from the tail reach the k-th node from the back, and then null. |
| LinkedList.IterationVisitsValues | lib/linked-list.hpp:70-104 | Iterating from `begin()` to `end()` dereferences the values in order, and `++` at `end()` stays there. |
| LinkedList.DemoBuild | src/linked-list.cpp:7-15 | The demonstration's six insertions build a valid list with values 1, 2, 3, 4, 5, 6. |
| LinkedList.DemoFinds | src/linked-list.cpp:18-25 | In that list 8 is absent, 3 is present, and only the first allocated node holds 3. |
| LinkedList.DemoDeleted | src/linked-list.cpp:24-26 | Deleting the node found for 3 leaves a valid list with values 1, 2, 4, 5, 6. |
| LinkedList.DemoRun | src/linked-list.cpp:6-30 | The demonstration's `find(8)` throws, `find(3)` returns the first allocated node, and the final list reads 1, 2, 4, 5, 6. |
| Vectors.At | lib/vector.hpp:117-123 | `operator[]` throws exactly when the index is at or past the length. Otherwise it returns that element. |
| Vectors.Put | lib/vector.hpp:117-123 | A write through `operator[]` fails exactly at or past the length. Otherwise it sets that element and keeps the length and every other element. |
| Vectors.AtAfterPut | lib/vector.hpp:117-123 | A write through `operator[]` is read back at its index and changes no other index. |
| Vectors.AssignScalar | lib/vector.hpp:148-154 | Scalar assignment keeps the length and sets every element to the value. |
| Vectors.AssignCopy | lib/vector.hpp:156-165 | Copy assignment makes the vector equal to the copied one, resizing it first if the lengths differ. |
| Vectors.Scale | lib/vector.hpp:167-179 | Scaling keeps the length and multiplies every element. |
| Vectors.ScaleInPlace | lib/vector.hpp:181-187 | `*=` computes the same vector as `*`. |
| Vectors.ScaleByOneAndZero | lib/vector.hpp:167-174 | Scaling by 1 changes nothing; scaling by 0 gives the zero vector. |
| Vectors.Add | lib/vector.hpp:259-269 | `+` throws exactly on a length mismatch. Otherwise it adds elementwise. |
| Vectors.Sub | lib/vector.hpp:271-281 | `-` throws exactly on a length mismatch. Otherwise it subtracts elementwise. |
| Vectors.AddSubRoundTrip | lib/vector.hpp:259-281 | (a + b) - b = a. |
| Vectors.DotProduct | lib/vector.hpp:189-200 | The accumulation loop throws exactly on a length mismatch. Otherwise it computes Σ aᵢ·bᵢ. |
| Vectors.Dot | lib/vector.hpp:190-200 | The dot product fails exactly on a length mismatch; DotCommutative and DotScale are its partners. |
| Vectors.DotCommutative | lib/vector.hpp:189-200 | a·b = b·a, the length check included. |
| Vectors.DotScale | lib/vector.hpp:189-200 | (s·a)·b = s·(a·b). |
| Vectors.DotExample | src/vector.cpp:24-26 | (2,3,4)·(5,6,7) = 56. |
| Vectors.Cross | lib/vector.hpp:202-212 | `cross_product` throws unless both lengths are 3. Otherwise it has length 3. |
| Vectors.CrossOrthogonal | lib/vector.hpp:202-212 | The cross product has zero dot product with each operand, so `is_orthogonal` holds for both. |
| Vectors.CrossSelfIsZero | lib/vector.hpp:202-212 | a × a = 0. |
| Vectors.Max | lib/vector.hpp:223-230 | `max` folds from 0. Its result is non-negative and at least every element, and it is either 0 or an element. |
| Vectors.MaxOfNegativesIsZero | lib/vector.hpp:223-230 | On (-1, -2), `max` returns 0, which is not an element. |
| Vectors.MaxCorrected | lib/vector.hpp:223-230 | A fold from the first element returns an element that is at least every element. |
| Vectors.MaxAgreesWhenSomeNonNegative | lib/vector.hpp:223-230 | The two folds agree whenever some element is non-negative. |
| Vectors.Min | lib/vector.hpp:232-239 | `min` folds from +∞. It is +∞ exactly for the empty vector; otherwise it is an element and at most every element. |
| Vectors.MaxAbs | lib/vector.hpp:241-248 | `max_abs` is non-negative and at least every \|xᵢ\|. It is 0 or one of them. |
| Vectors.Mean | lib/vector.hpp:250-257 | `mean` divides by zero (NaN) exactly for the empty vector. Otherwise it times the length is the sum. |
| Vectors.MeanOfConstant | lib/vector.hpp:250-257 | The mean of a non-empty constant vector is that constant. |
| Vectors.MaxDiff | lib/vector.hpp:283-293 | `max_diff` throws exactly on a length mismatch. Otherwise it is non-negative and bounds every \|aᵢ - bᵢ\|. |
| Vectors.MaxDiffIsMaxAbsOfSub | lib/vector.hpp:241-293 | `max_diff(a, b)` is `max_abs(a - b)`. |
| Vectors.EqualIffMaxDiffSmall | lib/vector.hpp:295-306 | For equal lengths, `==` holds exactly when `max_diff` is below 1e-8. |
| Vectors.Equal | lib/vector.hpp:295-306 | `==` on vectors; EqualIffMaxDiffSmall states what it holds for. |
| Vectors.IsOrthogonal | lib/vector.hpp:308-314 | `is_orthogonal` on vectors; CrossOrthogonal shows it holds for a cross product and each operand. |
| Vectors.IsSorted | lib/vector.hpp:316-324 | `is_sorted` holds exactly when every adjacent pair is non-decreasing. |
| Vectors.Search | lib/vector.hpp:362-373 | `search` returns the first index holding the value if any. Otherwise it returns the first index with the least distance to the value. It returns 0 for the empty vector. |
| Vectors.BinarySearch | lib/vector.hpp:375-391 | `binary_search` as written returns an index no greater than the length, or reads index 2^63 - 1 once `high` has wrapped. |
| Vectors.BinarySearchFailsExactly | lib/vector.hpp:375-391 | On a sorted vector, the as-written search reads out of range exactly when the vector is empty or the value is below its first element. |
| Vectors.BinarySearchFindsPresent | lib/vector.hpp:375-391 | On a sorted vector whose first element is at most the value, and which holds the value, `binary_search` returns an index holding it. |
| Vectors.BinarySearchReadsOutOfRange | lib/vector.hpp:375-391 | On (1) searching 0, and on the empty vector, `high` wraps to 2^64-1 and the next read is far past the end. |
| Vectors.BinarySearchCorrected | lib/vector.hpp:375-391 | With signed bounds the search always returns an index no greater than the length. |
| Vectors.BinarySearchCorrectedFinds | lib/vector.hpp:375-391 | With signed bounds, a value present in a sorted vector is always found. |
| Vectors.BinarySearchCorrectedOnWrapInputs | lib/vector.hpp:375-391 | The corrected search returns 0 on both wrap inputs. |
| ComplexNumbers.Conjugate | lib/complex.hpp:102-105 | The conjugate negates the imaginary part and keeps the modulus. |
| ComplexNumbers.ConjugateInvolution | lib/complex.hpp:102-105 | Conjugating twice gives back the number. |
| ComplexNumbers.AddReal | lib/complex.hpp:120-123 | Adding a real is adding the complex number with that real part; the imaginary part is unchanged. |
| ComplexNumbers.RealAdd | lib/complex.hpp:125-128 | A real plus a complex is the complex sum. |
| ComplexNumbers.SubReal | lib/complex.hpp:135-138 | Subtracting a real changes only the real part. |
| ComplexNumbers.AddSubRoundTrip | lib/complex.hpp:115-133 | (a + b) - b = a and (a - b) + b = a. |
| ComplexNumbers.Add | lib/complex.hpp:115-118 | The sum adds the real parts and the imaginary parts; AddCommutativeAssociative and AddSubRoundTrip are its partners. |
| ComplexNumbers.AddCommutativeAssociative | lib/complex.hpp:115-118 | Addition is commutative and associative, and adding 0 changes nothing. |
| ComplexNumbers.Sub | lib/complex.hpp:130-133 | The difference subtracts componentwise; AddSubRoundTrip shows it undoes addition. |
| ComplexNumbers.Mul | lib/complex.hpp:145-151 | Multiplying by a real number (imaginary part 0) scales both parts, and 1 is neutral; the product lemmas below give the rest. |
| ComplexNumbers.MulModulus | lib/complex.hpp:145-150 | \|ab\|² = \|a\|²·\|b\|². |
| ComplexNumbers.MulCommutative | lib/complex.hpp:145-150 | The product is commutative. |
| ComplexNumbers.MulAssociative | lib/complex.hpp:145-150 | The product is associative. |
| ComplexNumbers.MulConjugate | lib/complex.hpp:102-105 | z times its conjugate is the real \|z\|². |
| ComplexNumbers.MulReal | lib/complex.hpp:152-160 | Multiplying by a real is multiplying by the complex number with that real part. |
| ComplexNumbers.RealMul | lib/complex.hpp:157-160 | A real times a complex is the complex product. |
| ComplexNumbers.Inverse | lib/complex.hpp:107-113 | `inverse` divides by zero exactly for 0. Otherwise it is a two-sided multiplicative inverse. |
| ComplexNumbers.QuotientIsMulInverse | lib/complex.hpp:107-113 | For b ≠ 0 the division formula equals a times the inverse of b. |
| ComplexNumbers.MulInverseCancels | lib/complex.hpp:107-113 | For b ≠ 0, (a·b⁻¹)·b = a. |
| ComplexNumbers.Div | lib/complex.hpp:162-168 | `/` divides by zero exactly for a zero divisor. Otherwise the quotient times the divisor is the dividend. |
| ComplexNumbers.DivIsMulInverse | lib/complex.hpp:107-168 | For w ≠ 0, z / w = z·w⁻¹. |
| ComplexNumbers.DivReal | lib/complex.hpp:170-173 | Dividing by a real divides by zero exactly for 0. Otherwise the quotient times the real is the dividend. |
| ComplexNumbers.RealSub | lib/complex.hpp:140-143 | `b - a`, with the real b on the left, returns a - b. |
| ComplexNumbers.RealSubSwapsOperands | lib/complex.hpp:140-143 | 2 - (1 + i) comes out as -1 + i, not 1 - i. |
| ComplexNumbers.RealSubCorrected | lib/complex.hpp:140-143 | The corrected `b - a` added to a gives b. |
| ComplexNumbers.RealDiv | lib/complex.hpp:175-178 | `b / a`, with the real b on the left, returns a / b. |
| ComplexNumbers.RealDivSwapsOperands | lib/complex.hpp:175-178 | 1 / (2i) comes out as 2i, not -0.5i. |
| ComplexNumbers.RealDivCorrected | lib/complex.hpp:175-178 | The corrected `b / a` is undefined exactly for a = 0. Otherwise times a it gives b. |
| ComplexNumbers.EqualMeansComponentsClose | lib/complex.hpp:180-188 | `==` holds exactly when both components differ by less than 1e-6. Comparing with a real tests the imaginary part against 0. `==` is reflexive and symmetric. |
| ComplexNumbers.Equal | lib/complex.hpp:180-183 | `==` on complex numbers; EqualMeansComponentsClose states what it holds for. |
| ComplexNumbers.EqualReal | lib/complex.hpp:185-188 | `==` against a real; EqualMeansComponentsClose states what it holds for. |
| ComplexNumbers.EqualNotTransitive | lib/complex.hpp:180-183 | Tolerance equality is not transitive: 0 ≈ 6e-7 ≈ 1.2e-6, but 0 is not ≈ 1.2e-6. |
| Matrices.Build | lib/matrix.hpp:104-113 | A matrix built from an entry function has those dimensions and those entries. |
| Matrices.DataLayout | lib/matrix.hpp:104-113 | Entry (r, c) sits at `data[r*cols + c]` of the row-major array of rows·cols values. |
| Matrices.At | lib/matrix.hpp:104-113 | `operator()` throws a row error when the row is out of range. Otherwise it throws a column error when the column is out of range, and otherwise it returns the entry. |
| Matrices.Put | lib/matrix.hpp:104-113 | A write through `operator()` has the same guards and changes only that entry. |
| Matrices.AtAfterPut | lib/matrix.hpp:104-113 | A written entry reads back, and every other entry is unchanged. |
| Matrices.Add | lib/matrix.hpp:115-125 | `+` throws exactly when the dimensions differ. Otherwise it adds entrywise. |
| Matrices.Sub | lib/matrix.hpp:127-137 | `-` throws exactly when the dimensions differ. Otherwise it subtracts entrywise. |
| Matrices.AddSubRoundTrip | lib/matrix.hpp:115-137 | (a + b) - b = a, and + is commutative. |
| Matrices.Scale | lib/matrix.hpp:139-151 | Scaling keeps the dimensions and multiplies every entry. |
| Matrices.ScaleComposes | lib/matrix.hpp:139-151 | Scaling by 1 changes nothing, and scaling by s then t is scaling by t·s. |
| Matrices.MulVec | lib/matrix.hpp:153-166 | The matrix-vector product throws exactly when the column count differs from the length. Otherwise it has one entry per row. |
| Matrices.Mul | lib/matrix.hpp:168-183 | The product throws exactly when `cols != other.rows`. Otherwise it is rows × other.cols. |
| Matrices.MulVecRowDot | lib/matrix.hpp:153-166 | Entry i of the matrix-vector product is the vector dot product of row i with the vector. |
| Matrices.MulColumns | lib/matrix.hpp:153-183 | Column j of a·b is a times column j of b, so the two products agree. |
| Matrices.Identity | lib/matrix.hpp:427-436 | `identity(n)` is n × n with ones on the diagonal and zeros elsewhere. |
| Matrices.MulIdentity | lib/matrix.hpp:168-183 | A·I = A and I·A = A. |
| Matrices.MulVecIdentity | lib/matrix.hpp:153-166 | I·v = v. |
| Matrices.MulAssociative | lib/matrix.hpp:168-183 | (AB)C = A(BC). |
| Matrices.EqualIffDifferenceSmall | lib/matrix.hpp:212-223 | `==` holds exactly when the dimensions agree and every entry of the difference is within 1e-9 of zero. |
| Matrices.Equal | lib/matrix.hpp:212-223 | `==` on matrices; EqualIffDifferenceSmall states what it holds for. |
| Matrices.EqualReflexiveSymmetric | lib/matrix.hpp:212-223 | `==` is reflexive and symmetric. |
| Matrices.EqualNotTransitive | lib/matrix.hpp:212-223 | `==` is not transitive. |
| Matrices.IsSquared | lib/matrix.hpp:277-280 | `is_squared`: the row count equals the column count. |
| Matrices.IsSymmetric | lib/matrix.hpp:282-295 | `is_symmetric`, visiting only j < i; IsSymmetricAllPairs states what it holds for. |
| Matrices.IsSkewSymmetric | lib/matrix.hpp:297-310 | `is_skew_symmetric`, visiting only j ≤ i; IsSkewSymmetricAllPairs states what it holds for. |
| Matrices.IsSymmetricAllPairs | lib/matrix.hpp:282-295 | `is_symmetric` is false on non-square input. On square input it holds exactly when every pair (i, j) is within 1e-9 of (j, i), although the loop only visits j < i. |
| Matrices.IsSkewSymmetricAllPairs | lib/matrix.hpp:297-310 | `is_skew_symmetric` is false on non-square input. On square input it holds exactly when every (i, j) is within 1e-9 of -(j, i). It forces a diagonal within 5e-10 of zero. |
| Matrices.Trace | lib/matrix.hpp:312-322 | `trace` throws exactly on non-square input. |
| Matrices.TraceAdd | lib/matrix.hpp:312-322 | tr(A + B) = tr(A) + tr(B). |
| Matrices.Transpose | lib/matrix.hpp:346-355 | The transpose swaps the dimensions, and its cell (j, i) is cell (i, j) of the matrix for every cell. |
| Matrices.TransposeInvolution | lib/matrix.hpp:346-355 | Transposing twice gives back the matrix. |
| Matrices.TransposeFixedIsSymmetric | lib/matrix.hpp:282-355 | A square matrix equal to its transpose is symmetric. |
| Matrices.Symmetric | lib/matrix.hpp:357-369 | `symmetric` throws exactly on non-square input and keeps the dimensions. |
| Matrices.SkewSymmetric | lib/matrix.hpp:371-383 | `skew_symmetric` throws exactly on non-square input and keeps the dimensions. |
| Matrices.SymmetricSkewDecomposition | lib/matrix.hpp:357-383 | The symmetric part is symmetric, the skew part is skew-symmetric, and they sum to the matrix. |
| Matrices.TransposeOfParts | lib/matrix.hpp:346-383 | The symmetric part is its own transpose; the skew part's transpose is its negation. |
| Matrices.DemoTrace | src/matrix.cpp:40-58 | The demonstration matrix has trace 7. It maps (1, 0, 0) to its first column. |
| Elimination.Determinant | lib/matrix.hpp:324-344 | `determinant` throws exactly on non-square input. For at most one row it is always defined. |
| Elimination.DeterminantSmall | lib/matrix.hpp:324-344 | The determinant of the empty matrix is 1, and of [[x]] it is x. |
| Elimination.DeterminantTwoByTwo | lib/matrix.hpp:324-344 | With a non-zero pivot, the determinant of [[a, b], [c, d]] is ad - bc. |
| Elimination.DeterminantNeedsNonZeroPivots | lib/matrix.hpp:331-338 | Without pivoting, [[0, 1], [1, 0]] divides by a zero pivot. |
| Elimination.DeterminantUpperTriangular | lib/matrix.hpp:324-344 | The determinant of an upper-triangular matrix with non-zero pivots is the diagonal product. |
| Elimination.DeterminantOfIdentity | lib/matrix.hpp:324-344 | det(I) = 1. |
| Elimination.LULoop | lib/matrix.hpp:393-401 | The in-place factorization keeps the dimensions. The rows up to the step are final, and the remaining pivots are non-zero. |
| Elimination.LUStepAgreesWithElimination | lib/matrix.hpp:331-401 | A factorization step computes the determinant's elimination step, except that it stores the multipliers below the pivot. |
| Elimination.Inverse | lib/matrix.hpp:385-425 | `inverse` throws exactly on non-square input. Its result, when defined, has the same dimensions. |
| Elimination.InverseOneByOne | lib/matrix.hpp:385-425 | [[x]] inverts to [[1/x]], and [[0]] divides by zero. |
| Elimination.DemoDeterminant | src/matrix.cpp:61-63 | The demonstration matrix has determinant -20. |
| Elimination.DemoFactorization | lib/matrix.hpp:393-401 | The in-place LU factors of the demonstration matrix, computed exactly. |
| Elimination.DemoInverse | src/matrix.cpp:88-103 | The demonstration matrix times its computed inverse is `identity(3)`. |
| LUFactorization.LUStepFactors | lib/matrix.hpp:393-401 | Each elimination step keeps the invariant that L·U reproduces the original matrix up to the current step. |
| LUFactorization.LUFactors | lib/matrix.hpp:393-401 | When every pivot is non-zero, the unit-lower and upper parts of the factorization multiply back to the matrix. |
| LUFactorization.ForwardSolves | lib/matrix.hpp:407-412 | Forward substitution solves the unit-lower system row by row. |
| LUFactorization.BackSolves | lib/matrix.hpp:413-419 | Back substitution solves the upper system row by row. |
| LUFactorization.LowerTimesForward | lib/matrix.hpp:403-412 | L times the forward-substituted unit columns is the identity. |
| LUFactorization.UpperTimesSolution | lib/matrix.hpp:413-422 | U times the back-substituted columns gives the forward-substituted columns. |
| LUFactorization.InverseIsRightInverse | lib/matrix.hpp:385-425 | Whenever `inverse` is defined, the matrix times it is the identity. |

## Left out

- Memory management is not modelled: allocation, destructors, copy constructors and `resize` reallocation. Containers are values, and fresh node addresses and fresh `int` blocks are parameters.
- The Newton-Raphson iterations of `square_root` and `root`, and the series behind `exponential`, `sine`, `cosine`, `tangent` and `arctangent`, are left out. These are floating-point convergence code. Where a guard cascade hands over to them, the model takes the iteration as a function parameter.
- `Vector::norm`, `Complex::modulus`, `argument` and `from_polar` need the transcendental functions above. The model keeps the squared modulus instead.
- IEEE-754 rounding, infinities other than `min`'s starting value, and the propagation of NaN are not modelled. `Floating` is an exact real.
- `random`, `to_string` and `operator<<` are left out: they are randomness and console formatting.
- `Vector::sort` and its helper `qs` are left out. `qs` takes a pointer to const elements and swaps them, so it cannot be instantiated.
- Scalar `operator*=` of `Matrix` and `operator!=` are not modelled separately. Each restates a modelled operation: scaling and `!(a == b)`.
- `Matrix::operator=(Floating)`, which fills every cell with one value, and the copy `operator=` are left out. The model has no fill operation, and a copy is the value itself.
- `Complex operator==(Floating, Complex)` returns a `Complex` and is ill-typed, so it has no model.
- The matrix-vector product calls `vector.length()`, which `Vector` does not declare. Matrices.MulVec models the evident intent: the column count must equal the vector's length.
- Primes.FirstPrimes: the count is an unbounded natural and the candidates unbounded integers. The source converts `atoi` to `size_t`, so a negative argument becomes a huge count, and it counts candidates with an `int`, which would overflow past 2^31 - 1. Neither width is modelled.
- The capacity doubling of the dynamic array does not wrap at 2^64. No reachable array gets close.
- Elimination.Determinant and Elimination.Inverse do not model division by a zero pivot, since the code does not pivot. A zero pivot gives `None`, where the C++ code would propagate an infinity or NaN.
- LinkedList.Find and LinkedList.ReverseFind return the node's address. The C++ functions return a reference to the node.
- `List_Iterator`'s `==` and `!=` compare node addresses, which is `Link` equality here. `Buffer_Iterator`'s `==` and `!=` compare indices, which is `nat` equality. Neither has a separate member.
- The demonstration programs of vectors, matrices, complex numbers, the circular buffer and the dynamic array are console I/O. Their checked values appear as concrete lemmas: DotExample, DemoTrace, DemoDeterminant, DemoInverse. The linked-list demonstration is modelled step by step, with `int` values. As written, src/linked-list.cpp uses `Linked_List` and `Linked_List::Node` without the template argument that lib/linked-list.hpp:30-31 requires, so it does not compile.

## Findings

| source | as written | input that shows it | evidently intended | confidence | as-written member | corrected member |
|---|---|---|---|---|---|---|
| lib/vector.hpp:379-383 | `high = middle - 1` on `size_t` wraps when `middle == 0`, and `high = len - 1` wraps on an empty vector | searching 0.0 in (1.0), or searching anything in the empty vector, reads index 2^63 - 1 | stop the search when the value is smaller than every element | not executed; high | Vectors.BinarySearchReadsOutOfRange | Vectors.BinarySearchCorrectedFinds |
| lib/complex.hpp:140-143 | `b - a` with a real b returns `a - b` | 2 - (1 + i) gives -1 + i | 1 - i | not executed; high | ComplexNumbers.RealSubSwapsOperands | ComplexNumbers.RealSubCorrected |
| lib/complex.hpp:175-178 | `b / a` with a real b returns `a / b` | 1 / (2i) gives 2i | -0.5i | not executed; high | ComplexNumbers.RealDivSwapsOperands | ComplexNumbers.RealDivCorrected |
| lib/vector.hpp:223-230 | `max` folds from 0 | the maximum of (-1, -2) is 0, not an element | the largest element | not executed; medium | Vectors.MaxOfNegativesIsZero | Vectors.MaxCorrected |
| lib/circular-buffer.hpp:68-94 | an overflowing `push`/`unshift` has already moved the index when it throws, so `start == finish` and the buffer reads as empty | a capacity-2 buffer holding 7, then `push` | reject the insertion and keep the elements | not executed; medium | CircularBuffer.PushOverflowLosesElements | CircularBuffer.CheckedInsertsKeepElements |
| lib/circular-buffer.hpp:132 | the iterator constructor accepts `index == capacity` | `Buffer_Iterator(values, capacity)` points one past the array | accept only indices below the capacity | not executed; low | CircularBuffer.IteratorAcceptsPastTheEnd | CircularBuffer.CheckedIteratorAgrees |
