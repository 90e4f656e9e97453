# kexArray in Dafny

A model of `kexArray<type>` from `src/kexlib/array.h`, the hand-rolled dynamic
array of the kexlib library. Its state is three fields: the heap buffer
`data`, the recorded element count `length` and a separate append cursor
`aidx`. Every operation updates them in place.

The project has three parts:

- `array_model.dfy`, module `ArrayModel`. It pictures the three fields as a
  value. `Snapshot(buffer, length, aidx)` holds a `Buffer` that is `Null` or a
  `Block(cells)`, plus two unsigned 32-bit counters. For each operation there
  is a function that gives the state it leaves behind (`Resized`, `Pushed`,
  `Popped`, `Emptied`, `Spliced`, `Assigned`, `Written`). Each leading
  `Can...` predicate states the operation's precondition: every read and
  write of the operation stays inside the buffer, with Resize's copy loop
  bounded by Min(length, size) as corrected under "## Findings".
- `kex_array.dfy`, module `KexLib`. It holds the class `KexArray` with the
  fields `data: array?<T>`, `length: u32` and `aidx: u32`. `const blank: T` is
  the value every cell of a freshly allocated `new type[n]` block is taken
  to hold (see "## Left out" for scalar element types). Every method is written
  imperatively, with the copy and scan loops of the source. Each
  state-changing method other than the two sorts is proved to leave `Abs()`
  (its fields as a `Snapshot`) equal to the model function applied to the
  old state. The two sorts are insertion sorts standing in for qsort and
  are specified by the `SortsPrefix` relation between the old and new
  cells. `Contains` changes nothing and is specified by `Member`.
- `array_properties.dfy`, module `ArrayProperties`. It holds the lemmas about
  those functions. `scenarios.dfy`, module `ArrayScenarios`, holds the
  clients that chain operations on real objects.

Counters are unsigned 32-bit values. `Wrap` writes out the modular
arithmetic wherever the source lets it wrap: `aidx--` at 0 in `Pop`, and
`aidx = length - 1` when `Splice` removes everything.

The container's intended invariant is not what the code keeps:

- The intended invariant is that there is no buffer exactly when `length`
  is 0, and otherwise a buffer of exactly `length` cells. The model calls this the
  `Exact` predicate. The code's `Splice` breaks it: it keeps `n` cells but
  records `length - n`.
- The model follows the code here. `ExactIsKept` proves that Init, Resize,
  Push, Pop and Empty keep `Exact`. `AssignedIsExact` proves that `operator=`
  restores it. `SpliceIsExactOnlyAtHalf` proves that a splice keeps it only
  when it keeps exactly half the length.
- The one invariant every reachable state keeps is weaker: a NULL buffer
  goes with length 0. That is `WellFormed`, which is `Valid()` on the class.

## Model

| member | source | states |
|---|---|---|
| `ArrayModel.Wrap` | src/kexlib/array.h:153 | unsigned decrement and subtraction: values in range are kept, negative values gain 2^32 |
| `ArrayModel.Resized` | src/kexlib/array.h:95-129 | Resize sets length to size and never changes aidx; any size other than the old length and 0 gives a block of exactly size cells |
| `ArrayModel.ResizedAsWritten` | src/kexlib/array.h:119-128 | the copy loop as written, bounded by the old length; whenever it is defined it agrees with Resized |
| `ArrayModel.Pushed` | src/kexlib/array.h:135-139 | Push grows length and aidx by one, leaves a block of length+1 cells and puts o at the old cursor |
| `ArrayModel.Popped` | src/kexlib/array.h:145-154 | Pop on an empty array changes nothing; otherwise length drops by one and aidx is decremented modulo 2^32 |
| `ArrayModel.Clamp` | src/kexlib/array.h:177-180 | IndexOf reads the given index when it is below length, and length-1 otherwise |
| `ArrayModel.Initial` | src/kexlib/array.h:84-89 | Init's state has no buffer, length 0 and aidx 0, and is exact |
| `ArrayModel.Emptied` | src/kexlib/array.h:160-169 | Empty gives Init's state or leaves the state unchanged; from a well-formed state it always ends with length 0 |
| `ArrayModel.Member` | src/kexlib/array.h:189-200 | Contains' answer: v occurs among the cells below both length and the buffer's size |
| `ArrayModel.SpliceCount` | src/kexlib/array.h:213-216 | Splice keeps len cells when len < length and length cells otherwise, so at most both and at least one when both are non-zero |
| `ArrayModel.Spliced` | src/kexlib/array.h:206-229 | a splice with length and len non-zero keeps exactly the n = SpliceCount cells from start on, records length - n and sets aidx to that minus one modulo 2^32; otherwise nothing changes |
| `ArrayModel.Assigned` | src/kexlib/array.h:292-294 | operator= copies length and aidx from the source |
| `ArrayModel.SelfAssigned` | src/kexlib/array.h:285-303 | a = a keeps both counters and leaves an exact buffer whose every cell below length is a fresh blank cell |
| `ArrayModel.Written` | src/kexlib/array.h:275-279 | a write through operator[] leaves both counters unchanged |
| `KexLib.KexArray.constructor` | src/kexlib/array.h:65-69 | a new array is in Init's state |
| `KexLib.KexArray.Init` | src/kexlib/array.h:84-89 | data is null, length 0, aidx 0 |
| `KexLib.KexArray.Resize` | src/kexlib/array.h:95-129 | the new state is Resized of the old; a new buffer is always freshly allocated |
| `KexLib.KexArray.Push` | src/kexlib/array.h:135-139 | the new state is Pushed of the old, in a fresh buffer |
| `KexLib.KexArray.Pop` | src/kexlib/array.h:145-154 | the new state is Popped of the old |
| `KexLib.KexArray.Empty` | src/kexlib/array.h:160-169 | the new state is Emptied of the old: Init's state if a buffer and elements were present, otherwise unchanged |
| `KexLib.KexArray.IndexOf` | src/kexlib/array.h:175-183 | returns data[index] below length and data[length-1] at or past it |
| `KexLib.KexArray.Contains` | src/kexlib/array.h:189-200 | true exactly when one of the first length cells that lie in the buffer equals the value; callable whenever the scan cannot leave the buffer (every length cell present, or an earlier in-buffer match) |
| `KexLib.KexArray.Splice` | src/kexlib/array.h:206-229 | the new state is Spliced of the old: the buffer is the old data[start..start+n), length becomes length-n, aidx becomes length-1 modulo 2^32 |
| `KexLib.KexArray.Sort` | src/kexlib/array.h:238-249 | the first length cells end up ordered by the comparator and a permutation of what they were; the rest of the buffer is untouched |
| `KexLib.KexArray.SortFirst` | src/kexlib/array.h:258-269 | the same for the first count cells, which are bounded only by the buffer |
| `KexLib.KexArray.At` | src/kexlib/array.h:275-279 | the bounds-asserted read agrees with IndexOf |
| `KexLib.KexArray.Put` | src/kexlib/array.h:275-279 | writing through the reference changes exactly that one cell, and reading it back gives the value |
| `KexLib.KexArray.Assign` | src/kexlib/array.h:285-307 | from another array the new state is Assigned of its old state; from this array itself it is SelfAssigned of the old state; any new buffer is fresh |
| `KexLib.KexArray.Length` | src/kexlib/array.h:50 | returns the recorded length |
| `KexLib.KexArray.GetData` | src/kexlib/array.h:51 | the unchecked read agrees with IndexOf inside length, and reads any buffer cell outside it |
| `KexLib.IndexOfPastEndIsLast` | src/kexlib/array.h:177-182 | IndexOf at or past the end equals IndexOf(length-1) |
| `KexLib.IndexOfHolding` | src/kexlib/array.h:175-183 | on an array holding xs, IndexOf(i) and GetData(i) read xs[i] |
| `ArrayProperties.ExactIsKept` | src/kexlib/array.h:84-169 | Init, Resize, Push, Pop and Empty keep the buffer exact; on an exact array Pop is always safe, and Push is safe while aidx <= length and length + 1 < 2^32 |
| `ArrayProperties.AssignedIsExact` | src/kexlib/array.h:285-307 | assignment always yields an exact array, reproduces an exact source, and assigning twice equals assigning once |
| `ArrayProperties.SelfAssignmentLosesElements` | src/kexlib/array.h:289-302 | on an exact array with an element other than blank, a = a as written changes the state, while the intended copy Assigned gives it back unchanged |
| `ArrayProperties.EmptyResetsCursorButResizeZeroDoesNot` | src/kexlib/array.h:104-110 | on a live array Empty gives Init's state, while Resize(0) frees the buffer and keeps aidx |
| `ArrayProperties.EmptyIsInitOrNothing` | src/kexlib/array.h:160-169 | Empty gives Init's state or changes nothing, is idempotent, and keeps a stale cursor when there is no buffer |
| `ArrayProperties.ResizeToLengthIsNoOp` | src/kexlib/array.h:99-102 | Resize(length) changes nothing |
| `ArrayProperties.ResizeGrowKeepsElements` | src/kexlib/array.h:112-127 | growing keeps cells [0, length) in order and default-constructs the new ones |
| `ArrayProperties.ResizeShrinkKeepsPrefix` | src/kexlib/array.h:119-128 | shrinking to a non-zero size keeps exactly the first size cells |
| `ArrayProperties.ResizeAsWrittenOverrunsOnShrink` | src/kexlib/array.h:122-125 | the loop as written is undefined exactly when a non-empty array shrinks to a non-zero size, and agrees with Resized otherwise |
| `ArrayProperties.PopOfTwoOverrunsAsWritten` | src/kexlib/array.h:152 | Pop on [x, y] makes the loop as written overrun, while the corrected Pop leaves [x] |
| `ArrayProperties.PushAtEndAppends` | src/kexlib/array.h:135-139 | with aidx == length, Push grows both counters by one, stores o at the old length and keeps the earlier cells |
| `ArrayProperties.PushAppends` | src/kexlib/array.h:135-139 | on the exact array holding xs, Push(o) gives the exact array holding xs + [o] |
| `ArrayProperties.PushedAll` | src/kexlib/array.h:135-139 | pushing xs one by one onto an initialised array gives the array holding xs in push order |
| `ArrayProperties.PopRemovesLast` | src/kexlib/array.h:145-154 | Pop on the array holding xs + [o] gives the array holding xs |
| `ArrayProperties.PushThenPopRestores` | src/kexlib/array.h:135-154 | Pop after Push restores length and aidx, and the whole state when the array was exact with aidx == length |
| `ArrayProperties.PopKeepsPrefix` | src/kexlib/array.h:152 | Pop keeps every cell before the last |
| `ArrayProperties.MemberOfHolding` | src/kexlib/array.h:189-200 | on the array holding xs, Contains(v) holds exactly when v is in xs |
| `ArrayProperties.MemberAfterPush` | src/kexlib/array.h:135-139 | after Push(o), Contains(o) holds |
| `ArrayProperties.ContainsAfterShortSplice` | src/kexlib/array.h:189-228 | after a splice leaves 2 cells with length 3, Contains(20) stays in the buffer and finds 20, while Contains(99) would read past it |
| `ArrayProperties.SortKeepsMembers` | src/kexlib/array.h:238-268 | sorting keeps which values the sorted cells hold |
| `ArrayProperties.SortedIffAdjacent` | src/kexlib/array.h:248 | under a total preorder, pairwise order is the same as each cell being no greater than the next |
| `ArrayProperties.SpliceExample` | src/kexlib/array.h:218-228 | [10,20,30,40,50] spliced at (1, 2) stores [20,30] with recorded length 3 and aidx 2 |
| `ArrayProperties.SpliceIsExactOnlyAtHalf` | src/kexlib/array.h:218-228 | a splice that does something leaves the buffer exact exactly when length == 2n |
| `ArrayProperties.SpliceAllWrapsCursor` | src/kexlib/array.h:213-228 | splicing everything records length 0, keeps a buffer and wraps aidx to 2^32-1, after which Push is undefined |
| `ArrayProperties.PushPopSpliceScenario` | src/kexlib/array.h:135-228 | push 1,2,3, pop, then splice(0, 1): stores [1], length 1, aidx 0 |
| `ArrayScenarios.PushAll` | src/kexlib/array.h:135-139 | pushing xs onto a new object gives IndexOf(i) == xs[i] for every i, in a fresh buffer the caller may go on changing |
| `ArrayScenarios.PushPopSplice` | src/kexlib/array.h:135-228 | the push, pop and splice scenario on a real object |
| `ArrayScenarios.AssignmentIsDeep` | src/kexlib/array.h:285-307 | after b = a into a new array b, a write into a leaves b's copy as it was |
| `ArrayScenarios.SelfAssignmentWipes` | src/kexlib/array.h:285-303 | a = a on the object holding [7, 8] keeps length 2 and aidx 2 but leaves [0, 0] |

## Left out

- qsort (`src/kexlib/array.h:248`, `:268`) is a C library routine and is not modelled. Both `Sort` methods use an in-place insertion sort and are specified by their result: ordered, and a permutation of what they were. The order among elements the comparator ranks equal may differ from qsort's, which is unspecified anyway.
- The cast of the typed comparator to `int(*)(const void*, const void*)` is not modelled. The comparator is a function `(T, T) -> int`, required to be a total preorder (qsort's behaviour is undefined otherwise). The element type must hold no references (`T(!new)`) so that this can be stated.
- `new`, `delete[]` and the destructor `~kexArray` (which calls `Empty`) are not modelled: Dafny has no deallocation. Dropping a buffer is reassigning the field, and leaks such as the buffer Splice keeps for a zero length are invisible.
- The `assert` in `operator[]` terminates the process; here it is a precondition.
- Undefined behaviour is excluded by preconditions rather than modelled. These are out-of-range reads and writes, wrap of `length+1` in `Push`, a write at `aidx > length` in `Push`, `IndexOf` on an empty array, a negative `GetData` index, and `operator=` from another array that shares this array's buffer (the buffer is freed at :289 before it is read at :302).
- The class declares no copy constructor, so C++ supplies one that copies the `data` pointer. That shallow copy is not modelled; two arrays sharing one buffer arise only through it, and `Assign` excludes that case.
- `operator[]` returns a mutable reference. It is modelled by its two uses, a read (`At`) and a write (`Put`). A reference kept across later operations, which Push, Pop, Splice and Sort invalidate, is not modelled.
- The quadratic cost of repeated `Push` is a performance property: not modelled.
- KexLib.KexArray.Contains: requires that the scan stays inside the buffer: the buffer holds all `length` cells, or a cell inside it already matches. A scan that reads past the buffer, possible only after a Splice, is undefined behaviour and is not modelled.
- New cells are taken to hold `blank`. `new type[n]` default-initialises, so for a class type every cell is default-constructed, but for a scalar or pointer type the cells are indeterminate. `blank` is a fixed stand-in for them, so the new cells that `ResizeGrowKeepsElements` names, the last cell `Pushed` leaves when aidx < length, and the cells `SelfAssigned` copies onto themselves (a read of indeterminate values for a scalar type) are only as known as that stand-in.
- KexLib.KexArray.Sort: requires the buffer to hold all `length` cells. qsort over a longer range than the buffer is undefined.

## Findings

| source | as written | input that shows it | evidently intended | confidence | as-written member | corrected member |
|---|---|---|---|---|---|---|
| src/kexlib/array.h:119-125 | the copy loop of Resize runs for i below the old length and writes into the new block of `size` cells, so every shrink to a non-zero size writes past the new block (Resize(0) takes the freeing branch at :104-110 and copies nothing) | Pop on a two-element array [x, y] calls Resize(1), which writes data[1] into a one-cell block (ArrayProperties.PopOfTwoOverrunsAsWritten) | copy Min(old length, size) cells, so a shrink keeps the first size cells (ArrayProperties.ResizeShrinkKeepsPrefix) | high, not executed | ArrayModel.ResizedAsWritten | ArrayModel.Resized |
| src/kexlib/array.h:285-303 | operator= frees the buffer and allocates a fresh one before copying, with no check for self-assignment; when arr is this array, `arr.data` is the fresh block and every cell is copied onto itself | a = a on an array holding [7, 8] whose element type default-constructs to 0 keeps length 2 but leaves [0, 0] (ArrayScenarios.SelfAssignmentWipes, ArrayProperties.SelfAssignmentLosesElements) | a = a leaves an exact array unchanged, which is what the copy Assigned gives (ArrayProperties.AssignedIsExact) | high, not executed | ArrayModel.SelfAssigned | ArrayModel.Assigned |

Resize's overrun is undefined behaviour, so the class uses the corrected
`Resized`. Self-assignment is defined behaviour for a class element type,
so `KexLib.KexArray.Assign` keeps the code's result `SelfAssigned` when
the source is the array itself, and `Assigned`, the intended copy, from any
other array.
