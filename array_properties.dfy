/** Properties of the kexArray operations, stated on the values ArrayModel
    gives them: what each operation keeps and what combinations of them do. */
module ArrayProperties {
  import opened ArrayModel

  // ---------------------------------------------------------------------
  // The exact buffer invariant: absent exactly when length is 0, otherwise
  // exactly `length` cells.

  /** Init, Resize, Push, Pop and Empty keep the buffer exact; on an exact
      array Pop is always safe and Push is safe while the cursor is within
      the length and length+1 does not wrap. */
  lemma ExactIsKept<T>(s: Snapshot<T>, size: u32, o: T, blank: T)
    requires Exact(s)
    ensures Exact(Initial<T>())
    ensures CanResize(s, size) && Exact(Resized(s, size, blank))
    ensures CanPop(s) && Exact(Popped(s, blank))
    ensures Exact(Emptied(s))
    ensures s.aidx <= s.length && s.length + 1 < U32_LIMIT ==> CanPush(s) && Exact(Pushed(s, o, blank))
  {
    if s.aidx <= s.length && s.length + 1 < U32_LIMIT {
      assert CanResize(s, s.length + 1);
    }
  }

  /** Assignment always leaves an exact buffer, whatever the source's state;
      copying an exact array reproduces it, so assigning twice is assigning once. */
  lemma AssignedIsExact<T>(src: Snapshot<T>)
    requires Backed(src)
    ensures Exact(Assigned(src)) && Backed(Assigned(src))
    ensures Exact(src) ==> Assigned(src) == src
    ensures Assigned(Assigned(src)) == Assigned(src)
  {
    if src.length > 0 {
      assert Assigned(src).buffer.cells == src.buffer.cells[..src.length];
      if Exact(src) {
        assert src.buffer.cells[..src.length] == src.buffer.cells;
      }
      assert Assigned(src).buffer.cells[..src.length] == Assigned(src).buffer.cells;
    }
  }

  /** Self-assignment as written keeps both counters but replaces every
      element by a fresh cell, so an exact array holding anything other
      than `blank` changes; the intended copy, Assigned(s), is s itself. */
  lemma SelfAssignmentLosesElements<T>(s: Snapshot<T>, blank: T, i: nat)
    requires Exact(s) && i < s.length && s.buffer.cells[i] != blank
    ensures Assigned(s) == s
    ensures SelfAssigned(s, blank) != s
    ensures SelfAssigned(s, blank).length == s.length && SelfAssigned(s, blank).aidx == s.aidx
  {
    AssignedIsExact(s);
    assert SelfAssigned(s, blank).buffer.cells[i] == blank;
  }

  // ---------------------------------------------------------------------
  // Init and Empty

  /** Empty on a live buffer is Init; Resize(0) frees the same buffer but
      keeps the append cursor. */
  lemma EmptyResetsCursorButResizeZeroDoesNot<T>(s: Snapshot<T>, blank: T)
    requires WellFormed(s) && s.length != 0
    ensures Emptied(s) == Initial()
    ensures Resized(s, 0, blank) == Snapshot(Null, 0, s.aidx)
  {
  }

  /** Empty either produces Init's state or changes nothing, and doing it
      twice is doing it once. Without a buffer it keeps a stale cursor. */
  lemma EmptyIsInitOrNothing<T>(s: Snapshot<T>)
    ensures Emptied(s) == Initial() || Emptied(s) == s
    ensures Emptied(s) != s ==> s.buffer.Block? && s.length > 0
    ensures Emptied(Emptied(s)) == Emptied(s)
    ensures s.buffer.Null? ==> Emptied(s).aidx == s.aidx
  {
  }

  // ---------------------------------------------------------------------
  // Resize

  lemma ResizeToLengthIsNoOp<T>(s: Snapshot<T>, blank: T)
    ensures CanResize(s, s.length) && Resized(s, s.length, blank) == s
  {
  }

  /** Growing keeps the first `length` cells in order; the new cells hold
      `blank`, the value a fresh block is taken to hold. */
  lemma ResizeGrowKeepsElements<T>(s: Snapshot<T>, size: u32, blank: T)
    requires CanResize(s, size) && s.length < size
    ensures var r := Resized(s, size, blank);
      && r.buffer.Block? && |r.buffer.cells| == size && r.length == size && r.aidx == s.aidx
      && (forall i :: 0 <= i < s.length ==> r.buffer.cells[i] == s.buffer.cells[i])
      && (forall i :: s.length <= i < size ==> r.buffer.cells[i] == blank)
  {
  }

  /** Shrinking to a non-zero size keeps exactly the first `size` cells. */
  lemma ResizeShrinkKeepsPrefix<T>(s: Snapshot<T>, size: u32, blank: T)
    requires CanResize(s, size) && 0 < size < s.length
    ensures Resized(s, size, blank) == Snapshot(Block(s.buffer.cells[..size]), size, s.aidx)
  {
    assert Blanks(0, blank) == [];
  }

  /** The copy loop as written goes wrong exactly when a non-empty array
      shrinks to a non-zero size. */
  lemma ResizeAsWrittenOverrunsOnShrink<T>(s: Snapshot<T>, size: u32, blank: T)
    requires CanResize(s, size)
    ensures ResizedAsWritten(s, size, blank) == Undefined <==> 0 < size < s.length
    ensures ResizedAsWritten(s, size, blank) != Undefined ==>
      ResizedAsWritten(s, size, blank) == Defined(Resized(s, size, blank))
  {
  }

  /** The input that shows it: Pop on a two-element array calls Resize(1),
      whose loop as written copies two cells into a one-cell block. */
  lemma PopOfTwoOverrunsAsWritten<T>(x: T, y: T, blank: T)
    ensures CanPop(Holding([x, y]))
    ensures ResizedAsWritten(Holding([x, y]), Holding([x, y]).length - 1, blank) == Undefined
    ensures Popped(Holding([x, y]), blank) == Snapshot(Block([x]), 1, 1)
  {
    ResizeShrinkKeepsPrefix(Holding([x, y]), 1, blank);
    assert [x, y][..1] == [x];
  }

  // ---------------------------------------------------------------------
  // Push and Pop

  /** Push with the cursor at the end appends o: the length and the cursor
      grow by one, o is the new last cell and the earlier cells stay. */
  lemma PushAtEndAppends<T>(s: Snapshot<T>, o: T, blank: T)
    requires CanPush(s) && s.aidx == s.length && Backed(s)
    ensures var r := Pushed(s, o, blank);
      && r.length == s.length + 1 && r.aidx == s.aidx + 1
      && r.buffer.cells[s.length] == o
      && forall i :: 0 <= i < s.length ==> r.buffer.cells[i] == s.buffer.cells[i]
  {
  }

  /** On the exact array holding xs, Push(o) gives the array holding xs + [o]. */
  lemma PushAppends<T>(xs: seq<T>, o: T, blank: T)
    requires |xs| + 1 < U32_LIMIT
    ensures CanPush(Holding(xs)) && Pushed(Holding(xs), o, blank) == Holding(xs + [o])
  {
    var s := Holding(xs);
    assert CanResize(s, s.length + 1);
    var r := Pushed(s, o, blank);
    assert r.buffer.cells == xs + [o] by {
      if xs != [] {
        assert xs[..|xs|] == xs;
      }
    }
  }

  /** Pushing xs one by one onto a freshly initialised array: the result
      holds xs in push order, with length and cursor |xs|. */
  function PushedAll<T>(xs: seq<T>, blank: T): (r: Snapshot<T>)
    requires |xs| < U32_LIMIT
    ensures r == Holding(xs)
    decreases |xs|
  {
    if xs == [] then Initial()
    else
      var prefix := xs[..|xs| - 1];
      var last := xs[|xs| - 1];
      var before := PushedAll(prefix, blank);
      PushAppends(prefix, last, blank);
      assert prefix + [last] == xs;
      Pushed(before, last, blank)
  }

  /** Pop on the array holding xs + [o] gives the array holding xs. */
  lemma PopRemovesLast<T>(xs: seq<T>, o: T, blank: T)
    requires |xs| + 1 < U32_LIMIT
    ensures CanPop(Holding(xs + [o])) && Popped(Holding(xs + [o]), blank) == Holding(xs)
  {
    var s := Holding(xs + [o]);
    if xs != [] {
      ResizeShrinkKeepsPrefix(s, |xs|, blank);
      assert (xs + [o])[..|xs|] == xs;
    }
  }

  /** Pop after Push restores length and cursor in every state, and the
      whole state when the buffer was exact with the cursor at the end. */
  lemma PushThenPopRestores<T>(s: Snapshot<T>, o: T, blank: T)
    requires CanPush(s)
    ensures CanPop(Pushed(s, o, blank))
    ensures Popped(Pushed(s, o, blank), blank).length == s.length
    ensures Popped(Pushed(s, o, blank), blank).aidx == s.aidx
    ensures Exact(s) && s.aidx == s.length ==> Popped(Pushed(s, o, blank), blank) == s
  {
    if Exact(s) && s.aidx == s.length {
      assert s == Holding(Cells(s.buffer));
      PushAppends(Cells(s.buffer), o, blank);
      PopRemovesLast(Cells(s.buffer), o, blank);
    }
  }

  /** Pop keeps the cells before the last one. */
  lemma PopKeepsPrefix<T>(s: Snapshot<T>, blank: T)
    requires CanPop(s) && 1 < s.length
    ensures forall i :: 0 <= i < s.length - 1 ==> Popped(s, blank).buffer.cells[i] == s.buffer.cells[i]
  {
  }

  // ---------------------------------------------------------------------
  // Contains

  lemma MemberOfHolding<T>(xs: seq<T>, v: T)
    requires |xs| < U32_LIMIT
    ensures Backed(Holding(xs)) && (Member(Holding(xs), v) <==> v in xs)
  {
    if v in xs {
      var i :| 0 <= i < |xs| && xs[i] == v;
      assert Holding(xs).buffer.cells[i] == v;
    }
  }

  /** After Push(o), o is found. */
  lemma MemberAfterPush<T>(s: Snapshot<T>, o: T, blank: T)
    requires CanPush(s)
    ensures Backed(Pushed(s, o, blank)) && Member(Pushed(s, o, blank), o)
  {
    assert Pushed(s, o, blank).buffer.cells[s.aidx] == o;
  }

  /** After the splice of SpliceExample the buffer holds 2 cells but the
      recorded length is 3: Contains(20) stops inside the buffer and finds
      20, while Contains(99) would read the missing third cell. */
  lemma ContainsAfterShortSplice()
    ensures var s := Snapshot(Block([20, 30]), 3, 2);
      && !Backed(s)
      && ScanStaysInside(s, 20) && Member(s, 20)
      && !ScanStaysInside(s, 99) && !Member(s, 99)
  {
    assert Snapshot(Block([20, 30]), 3, 2).buffer.cells[0] == 20;
  }

  /** Sorting the first count cells changes which values they hold in no way. */
  lemma SortKeepsMembers<T>(before: seq<T>, after: seq<T>, count: nat, cmp: (T, T) -> int, v: T)
    requires SortsPrefix(before, after, count, cmp)
    ensures v in after[..count] <==> v in before[..count]
    ensures after[..count] == [] <==> before[..count] == []
  {
    assert v in after[..count] <==> v in multiset(after[..count]);
    assert v in before[..count] <==> v in multiset(before[..count]);
    assert |after[..count]| == |multiset(after[..count])|;
    assert |before[..count]| == |multiset(before[..count])|;
  }

  // ---------------------------------------------------------------------
  // Sort

  /** Under a total preorder, pairwise order and "each cell is not greater
      than the next" are the same thing. */
  lemma {:induction false} SortedIffAdjacent<T(!new)>(xs: seq<T>, cmp: (T, T) -> int)
    requires TotalPreorder(cmp)
    ensures SortedBy(xs, cmp) <==> forall i :: 0 <= i < |xs| - 1 ==> cmp(xs[i], xs[i + 1]) <= 0
  {
    if forall i :: 0 <= i < |xs| - 1 ==> cmp(xs[i], xs[i + 1]) <= 0 {
      if |xs| > 1 {
        SortedIffAdjacent(xs[1..], cmp);
        assert SortedBy(xs[1..], cmp) by {
          forall i | 0 <= i < |xs[1..]| - 1
            ensures cmp(xs[1..][i], xs[1..][i + 1]) <= 0
          {
            assert xs[1..][i] == xs[i + 1] && xs[1..][i + 1] == xs[i + 2];
          }
        }
        forall i, j | 0 <= i < j < |xs|
          ensures cmp(xs[i], xs[j]) <= 0
        {
          if 0 < i {
            assert xs[1..][i - 1] == xs[i] && xs[1..][j - 1] == xs[j];
          } else if 1 < j {
            assert xs[1..][0] == xs[1] && xs[1..][j - 1] == xs[j];
            assert cmp(xs[0], xs[1]) <= 0;
          }
        }
      }
    }
  }

  // ---------------------------------------------------------------------
  // Splice

  /** [10,20,30,40,50] spliced at (1, 2) stores [20,30]
      but records length 5-2 = 3 and cursor 2. */
  lemma SpliceExample()
    ensures CanSplice(Holding([10, 20, 30, 40, 50]), 1, 2)
    ensures Spliced(Holding([10, 20, 30, 40, 50]), 1, 2) == Snapshot(Block([20, 30]), 3, 2)
  {
    assert [10, 20, 30, 40, 50][1..3] == [20, 30];
  }

  /** A splice that does something leaves the buffer exact only when it
      keeps exactly half of the recorded length. */
  lemma SpliceIsExactOnlyAtHalf<T>(s: Snapshot<T>, start: u32, len: u32)
    requires CanSplice(s, start, len) && s.length != 0 && len != 0
    ensures Exact(Spliced(s, start, len)) <==> s.length == 2 * SpliceCount(s.length, len)
  {
  }

  /** Splicing everything records length 0 but keeps a buffer and wraps the
      cursor to 2^32-1, after which Push would write outside the buffer. */
  lemma SpliceAllWrapsCursor<T>(s: Snapshot<T>, start: u32, len: u32)
    requires CanSplice(s, start, len) && s.length != 0 && s.length <= len
    ensures var r := Spliced(s, start, len);
      && r.length == 0 && r.buffer.Block? && r.aidx == U32_LIMIT - 1
      && !Exact(r) && !CanPush(r)
  {
  }

  /** Push 1, 2, 3, pop, then splice(0, 1) stores [1] with
      recorded length 1 and cursor 0. */
  lemma PushPopSpliceScenario()
    ensures PushedAll([1, 2, 3], 0) == Holding([1, 2, 3])
    ensures CanPop(Holding([1, 2, 3])) && Popped(Holding([1, 2, 3]), 0) == Holding([1, 2])
    ensures CanSplice(Holding([1, 2]), 0, 1)
    ensures Spliced(Holding([1, 2]), 0, 1) == Snapshot(Block([1]), 1, 0)
  {
    PopRemovesLast([1, 2], 3, 0);
    assert [1, 2] + [3] == [1, 2, 3];
    assert [1, 2][0..1] == [1];
  }
}
