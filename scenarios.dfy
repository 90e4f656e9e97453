/** Clients of KexArray that string several operations together, as a
    caller of the container would. */
module ArrayScenarios {
  import opened ArrayModel
  import opened ArrayProperties
  import opened KexLib

  /** Pushes xs one by one onto a fresh array; every value reads back at
      its push position. */
  method PushAll(xs: seq<int>) returns (a: KexArray<int>)
    requires |xs| < U32_LIMIT
    ensures fresh(a) && a.Valid() && a.Abs() == Holding(xs)
    ensures a.blank == 0 && (a.data == null || fresh(a.data))
    ensures forall i: u32 :: i < |xs| ==> a.data != null && i < a.data.Length && a.IndexOf(i) == xs[i]
  {
    a := new KexArray<int>(0);
    var k := 0;
    while k < |xs|
      invariant 0 <= k <= |xs|
      invariant a.Valid() && a.Abs() == Holding(xs[..k]) && a.blank == 0
      invariant a.data == null || fresh(a.data)
      modifies a
    {
      PushAppends(xs[..k], xs[k], 0);
      a.Push(xs[k]);
      assert xs[..k] + [xs[k]] == xs[..k + 1];
      k := k + 1;
    }
    assert xs[..k] == xs;
    forall i: u32 | i < |xs|
      ensures a.data != null && i < a.data.Length && a.IndexOf(i) == xs[i]
    {
      IndexOfHolding(a, xs, i);
    }
  }

  /** Push 1, 2, 3; pop; splice(0, 1): the buffer stores [1], the recorded
      length is 2-1 = 1 and the cursor 0. */
  method PushPopSplice() returns (a: KexArray<int>)
    ensures a.Valid() && a.Abs() == Snapshot(Block([1]), 1, 0)
  {
    a := PushAll([1, 2, 3]);
    assert a.Length() == 3;
    var first := a.IndexOf(0);
    var last := a.IndexOf(5);
    IndexOfHolding(a, [1, 2, 3], 0);
    IndexOfPastEndIsLast(a, 5);
    IndexOfHolding(a, [1, 2, 3], 2);
    assert first == 1 && last == 3;
    PushPopSpliceScenario();
    a.Pop();
    assert a.Length() == 2;
    a.Splice(0, 1);
  }

  /** After b = a into a new array b, writing into a leaves b's copy as
      it was. */
  method AssignmentIsDeep(a: KexArray<int>, x: int) returns (b: KexArray<int>)
    requires a.Valid()
    requires a.data != null && 0 < a.length <= a.data.Length
    modifies a.data
    ensures b.Abs() == Assigned(old(a.Abs()))
    ensures a.data[0] == x
  {
    b := new KexArray<int>(0);
    b.Assign(a);
    a.Put(0, x);
  }

  /** a = a on the array holding [7, 8] keeps both counters but replaces
      both elements by fresh cells. */
  method SelfAssignmentWipes() returns (a: KexArray<int>)
    ensures a.Valid() && a.Abs() == Snapshot(Block([0, 0]), 2, 2)
  {
    a := PushAll([7, 8]);
    a.Assign(a);
    assert Blanks(2, 0) == [0, 0];
  }
}
