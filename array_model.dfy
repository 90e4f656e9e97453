/** Value-level description of a kexArray: the three fields `data`, `length`
    and `aidx`, and, for every operation, the state it leaves behind.
    The class in kex_array.dfy is proved against these functions. */
module ArrayModel {

  /** 2^32: C++ `unsigned int` arithmetic is taken modulo this. */
  const U32_LIMIT: int := 0x1_0000_0000

  /** C++ `unsigned int` (the type of `length`, `aidx` and most indices). */
  type u32 = x: int | 0 <= x < 0x1_0000_0000

  /** C++ `int` (the index type of GetData). */
  type i32 = x: int | -0x8000_0000 <= x < 0x8000_0000

  /** The unsigned 32-bit value that C++ stores for the integer x. */
  function Wrap(x: int): (r: u32)
    ensures 0 <= x < U32_LIMIT ==> r == x
    ensures -U32_LIMIT <= x < 0 ==> r == x + U32_LIMIT
  {
    x % U32_LIMIT
  }

  function Min(a: int, b: int): int {
    if a < b then a else b
  }

  /** The `data` pointer: NULL, or a heap block of cells. */
  datatype Buffer<T> = Null | Block(cells: seq<T>)

  /** The cells a buffer holds; NULL holds none. */
  function Cells<T>(b: Buffer<T>): seq<T> {
    if b.Null? then [] else b.cells
  }

  /** The three fields of a kexArray at one moment. */
  datatype Snapshot<T> = Snapshot(buffer: Buffer<T>, length: u32, aidx: u32)

  /** A freshly allocated block `new type[n]`, every cell taken to hold
      `blank` (see KexLib.KexArray.blank). */
  function Blanks<T>(n: nat, blank: T): (r: seq<T>)
    ensures |r| == n
    ensures forall i :: 0 <= i < n ==> r[i] == blank
  {
    seq(n, _ => blank)
  }

  /** What holds in every state the operations can reach: a NULL buffer
      goes with length 0, and a block is never larger than an unsigned
      int can count (every allocation size is an unsigned int). */
  predicate WellFormed<T>(s: Snapshot<T>) {
    && (s.buffer.Null? ==> s.length == 0)
    && (s.buffer.Block? ==> |s.buffer.cells| < U32_LIMIT)
  }

  /** The intended invariant: no buffer exactly when length is 0, and
      otherwise a buffer of exactly `length` cells. Splice can leave it. */
  predicate Exact<T>(s: Snapshot<T>) {
    match s.buffer
    case Null => s.length == 0
    case Block(c) => s.length != 0 && |c| == s.length
  }

  /** The buffer holds at least `length` cells, so a scan over [0, length)
      stays inside it. */
  predicate Backed<T>(s: Snapshot<T>) {
    s.length != 0 ==> s.buffer.Block? && s.length <= |s.buffer.cells|
  }

  /** Exact state holding exactly the elements xs, with the append cursor
      just past the last one: what pushing xs onto an empty array gives. */
  function Holding<T>(xs: seq<T>): (s: Snapshot<T>)
    requires |xs| < U32_LIMIT
    ensures Exact(s) && WellFormed(s) && Cells(s.buffer) == xs
  {
    Snapshot(if xs == [] then Null else Block(xs), |xs|, |xs|)
  }

  // ---------------------------------------------------------------------
  // Init and Empty

  /** Init: no buffer, no elements, cursor at 0. */
  function Initial<T>(): (r: Snapshot<T>)
    ensures Exact(r) && WellFormed(r) && Cells(r.buffer) == []
    ensures r.length == 0 && r.aidx == 0
  {
    Snapshot(Null, 0, 0)
  }

  /** Empty: releases a present, non-empty buffer and resets both counters;
      any other state is left alone. */
  function Emptied<T>(s: Snapshot<T>): (r: Snapshot<T>)
    ensures r == Initial() || r == s
    ensures WellFormed(s) ==> WellFormed(r) && r.length == 0
  {
    if s.buffer.Block? && s.length > 0 then Initial() else s
  }

  // ---------------------------------------------------------------------
  // Resize

  /** Resize's copy loop reads the first Min(length, size) cells of the old
      buffer. */
  predicate CanResize<T>(s: Snapshot<T>, size: u32) {
    size != s.length && size != 0 && s.length != 0 ==>
      s.buffer.Block? && Min(s.length, size) <= |s.buffer.cells|
  }

  /** Resize(size), with the copy loop bounded by Min(old length, size).
      Resize never touches the append cursor. */
  function Resized<T>(s: Snapshot<T>, size: u32, blank: T): (r: Snapshot<T>)
    requires CanResize(s, size)
    ensures r.length == size && r.aidx == s.aidx
    ensures size != s.length && size != 0 ==> r.buffer.Block? && |r.buffer.cells| == size
  {
    if size == s.length then s
    else if size == 0 then Snapshot(Null, 0, s.aidx)
    else if s.length == 0 then Snapshot(Block(Blanks(size, blank)), size, s.aidx)
    else
      var kept := Min(s.length, size);
      Snapshot(Block(s.buffer.cells[..kept] + Blanks(size - kept, blank)), size, s.aidx)
  }

  /** The outcome of an operation whose C++ text may have undefined behaviour. */
  datatype Outcome<T> = Defined(value: T) | Undefined

  /** Resize exactly as its copy loop is written: the loop runs over the OLD
      length, so when a non-empty array shrinks it writes past the end of
      the new, smaller block. */
  function ResizedAsWritten<T>(s: Snapshot<T>, size: u32, blank: T): (r: Outcome<Snapshot<T>>)
    requires CanResize(s, size)
    ensures r.Defined? ==> r.value == Resized(s, size, blank)
  {
    if size == s.length then Defined(s)
    else if size == 0 then Defined(Snapshot(Null, 0, s.aidx))
    else if s.length == 0 then Defined(Snapshot(Block(Blanks(size, blank)), size, s.aidx))
    else if s.length > size then Undefined
    else Defined(Snapshot(Block(s.buffer.cells[..s.length] + Blanks(size - s.length, blank)), size, s.aidx))
  }

  // ---------------------------------------------------------------------
  // Push and Pop

  /** Push grows the buffer by one and then writes at the append cursor. */
  predicate CanPush<T>(s: Snapshot<T>) {
    // length+1 must not wrap to 0: Resize(0) would free the buffer written next
    && s.length + 1 < U32_LIMIT
    // the write data[aidx] must land inside the new block of length+1 cells
    && s.aidx <= s.length
    && CanResize(s, s.length + 1)
  }

  /** Push(o): Resize(length+1), then data[aidx++] = o. */
  function Pushed<T>(s: Snapshot<T>, o: T, blank: T): (r: Snapshot<T>)
    requires CanPush(s)
    ensures r.length == s.length + 1 && r.aidx == s.aidx + 1
    ensures r.buffer.Block? && |r.buffer.cells| == r.length
    ensures r.buffer.cells[s.aidx] == o
  {
    var grown := Resized(s, s.length + 1, blank);
    Snapshot(Block(grown.buffer.cells[s.aidx := o]), grown.length, s.aidx + 1)
  }

  predicate CanPop<T>(s: Snapshot<T>) {
    s.length != 0 ==> CanResize(s, s.length - 1)
  }

  /** Pop: nothing on an empty array; otherwise Resize(length-1) and an
      unsigned decrement of the cursor (0 wraps to 2^32-1). */
  function Popped<T>(s: Snapshot<T>, blank: T): (r: Snapshot<T>)
    requires CanPop(s)
    ensures s.length == 0 ==> r == s
    ensures s.length != 0 ==> r.length == s.length - 1 && r.aidx == Wrap(s.aidx - 1)
  {
    if s.length == 0 then s
    else
      var shrunk := Resized(s, s.length - 1, blank);
      shrunk.(aidx := Wrap(s.aidx - 1))
  }

  // ---------------------------------------------------------------------
  // IndexOf and Contains

  /** The index IndexOf actually reads: an index at or past the end is
      replaced by the last one. */
  function Clamp(index: u32, length: u32): (r: int)
    ensures index < length ==> r == index
    ensures length <= index ==> r == length - 1
  {
    if index >= length then length - 1 else index
  }

  /** Contains(v) is true exactly when one of the first `length` cells that
      lie inside the buffer is v. */
  ghost predicate Member<T>(s: Snapshot<T>, v: T)
    ensures Member(s, v) <==> v in Cells(s.buffer)[..Min(s.length, |Cells(s.buffer)|)]
  {
    s.buffer.Block? && exists i :: 0 <= i < s.length && i < |s.buffer.cells| && s.buffer.cells[i] == v
  }

  /** Contains' scan over [0, length) stops at the first match, so it stays
      inside the buffer when the buffer holds all `length` cells, or when
      some cell inside both the buffer and the length already matches. */
  predicate ScanStaysInside<T(==)>(s: Snapshot<T>, v: T) {
    || Backed(s)
    || (s.buffer.Block? && exists i :: 0 <= i < s.length && i < |s.buffer.cells| && s.buffer.cells[i] == v)
  }

  // ---------------------------------------------------------------------
  // Splice

  /** The number of cells Splice keeps: len, clamped to length. */
  function SpliceCount(length: u32, len: u32): (n: u32)
    ensures n <= length && n <= len
    ensures 0 < len && 0 < length ==> 0 < n
    ensures len < length ==> n == len
    ensures length <= len ==> n == length
  {
    if len >= length then length else len
  }

  /** Splice's copy loop reads data[start .. start+n). */
  predicate CanSplice<T>(s: Snapshot<T>, start: u32, len: u32) {
    s.length != 0 && len != 0 ==>
      s.buffer.Block? && start + SpliceCount(s.length, len) <= |s.buffer.cells|
  }

  /** Splice(start, len): keeps ONLY the n = min(len, length) cells from
      start on, records length - n as the new length, and sets the cursor
      to that length minus one, as an unsigned int. */
  function Spliced<T>(s: Snapshot<T>, start: u32, len: u32): (r: Snapshot<T>)
    requires CanSplice(s, start, len)
    ensures s.length == 0 || len == 0 ==> r == s
    ensures s.length != 0 && len != 0 ==>
      && r.buffer.Block? && |r.buffer.cells| == SpliceCount(s.length, len)
      && (forall i :: 0 <= i < |r.buffer.cells| ==> r.buffer.cells[i] == s.buffer.cells[start + i])
      && r.length + |r.buffer.cells| == s.length
      && r.aidx == Wrap(r.length - 1)
  {
    if s.length == 0 || len == 0 then s
    else
      var n := SpliceCount(s.length, len);
      var rest := s.length - n;
      Snapshot(Block(s.buffer.cells[start..start + n]), rest, Wrap(rest - 1))
  }

  // ---------------------------------------------------------------------
  // Sort

  /** The comparator is a three-way comparison inducing a total preorder:
      any two elements are related one way or the other, transitively. */
  ghost predicate TotalPreorder<T(!new)>(cmp: (T, T) -> int) {
    && (forall x, y :: cmp(x, y) <= 0 || cmp(y, x) <= 0)
    // triggered only on comparisons already at hand, so that it never
    // manufactures new ones
    && (forall x, y, z {:trigger cmp(x, y), cmp(y, z), cmp(x, z)} ::
          cmp(x, y) <= 0 && cmp(y, z) <= 0 ==> cmp(x, z) <= 0)
  }

  /** xs is in the order the comparator asks for. */
  ghost predicate SortedBy<T>(xs: seq<T>, cmp: (T, T) -> int) {
    forall i, j :: 0 <= i < j < |xs| ==> cmp(xs[i], xs[j]) <= 0
  }

  /** after is before with its first count cells rearranged into order and
      the remaining cells untouched. */
  ghost predicate SortsPrefix<T>(before: seq<T>, after: seq<T>, count: nat, cmp: (T, T) -> int) {
    && count <= |before| == |after|
    && SortedBy(after[..count], cmp)
    && multiset(after[..count]) == multiset(before[..count])
    && after[count..] == before[count..]
  }

  // ---------------------------------------------------------------------
  // operator= and operator[]

  /** The value operator= leaves in the target: the source's counters and a
      fresh copy of its first `length` cells (no buffer when length is 0). */
  function Assigned<T>(src: Snapshot<T>): (r: Snapshot<T>)
    requires Backed(src)
    ensures r.length == src.length && r.aidx == src.aidx
  {
    if src.length > 0 then Snapshot(Block(src.buffer.cells[..src.length]), src.length, src.aidx)
    else Snapshot(Null, 0, src.aidx)
  }

  /** operator= with the array itself as the source. The old block is
      freed, so `arr.data` is the fresh block just allocated, and each of
      its cells is copied onto itself: the counters stay and every cell is
      replaced by a fresh one. */
  function SelfAssigned<T>(s: Snapshot<T>, blank: T): (r: Snapshot<T>)
    ensures r.length == s.length && r.aidx == s.aidx
    ensures Exact(r) && Backed(r)
    ensures forall i :: 0 <= i < r.length ==> r.buffer.cells[i] == blank
  {
    if s.length > 0 then Snapshot(Block(Blanks(s.length, blank)), s.length, s.aidx)
    else Snapshot(Null, 0, s.aidx)
  }

  /** A write through the reference operator[] returns. */
  function Written<T>(s: Snapshot<T>, index: u32, x: T): (r: Snapshot<T>)
    requires s.buffer.Block? && index < |s.buffer.cells|
    ensures r.length == s.length && r.aidx == s.aidx
  {
    s.(buffer := Block(s.buffer.cells[index := x]))
  }
}
