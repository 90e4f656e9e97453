/** The kexArray container: a heap buffer `data`, a recorded element count
    `length` and a separate append cursor `aidx`, updated in place. Each
    method is proved to leave the state that ArrayModel describes. */
module KexLib {
  import opened ArrayModel

  class KexArray<T(==,!new)> {
    var data: array?<T>
    var length: u32
    var aidx: u32
    /** The value every cell of a fresh `new type[n]` block is taken to
        hold: a class type's default-constructed value, and a fixed
        stand-in for the indeterminate cells of a scalar type. */
    const blank: T

    /** The three fields as a value. */
    ghost function Abs(): Snapshot<T>
      reads this, data
    {
      Snapshot(if data == null then Null else Block(data[..]), length, aidx)
    }

    ghost predicate Valid()
      reads this, data
    {
      WellFormed(Abs())
    }

    /** A new block of n cells, each holding `blank`. */
    method NewBlock(n: u32) returns (b: array<T>)
      ensures fresh(b) && b[..] == Blanks(n, blank)
    {
      var v := blank;
      b := new T[n](_ => v);
    }

    /** kexArray(): the constructor runs Init. */
    constructor (blank: T)
      ensures Valid() && Abs() == Initial() && this.blank == blank
    {
      this.blank := blank;
      new;
      Init();
    }

    method Init()
      modifies this
      ensures Valid() && Abs() == Initial()
    {
      data := null;
      length := 0;
      aidx := 0;
    }

    method Resize(size: u32)
      requires Valid() && CanResize(Abs(), size)
      modifies this
      ensures Valid() && Abs() == Resized(old(Abs()), size, blank)
      ensures data == old(data) || data == null || fresh(data)
      ensures size != old(length) && size != 0 ==> data != null && fresh(data)
    {
      if size == length {
        return;
      }
      if size == 0 && length != 0 {
        data := null;
        length := 0;
        return;
      }
      if length == 0 {
        data := NewBlock(size);
        length := size;
        return;
      }
      var tmp := data;
      var buf := NewBlock(size);
      // bounded by Min(length, size) rather than by the old length
      var kept := Min(length, size);
      for i := 0 to kept
        modifies buf
        invariant forall k :: 0 <= k < i ==> buf[k] == tmp[k]
        invariant forall k :: i <= k < size ==> buf[k] == blank
      {
        buf[i] := tmp[i];
      }
      assert buf[..] == tmp[..kept] + Blanks(size - kept, blank);
      data := buf;
      length := size;
    }

    method Push(o: T)
      requires Valid() && CanPush(Abs())
      modifies this
      ensures Valid() && Abs() == Pushed(old(Abs()), o, blank)
      ensures data != null && fresh(data)
    {
      Resize(length + 1);
      data[aidx] := o;
      aidx := aidx + 1;
    }

    method Pop()
      requires Valid() && CanPop(Abs())
      modifies this
      ensures Valid() && Abs() == Popped(old(Abs()), blank)
      ensures data == old(data) || data == null || fresh(data)
    {
      if length == 0 {
        return;
      }
      Resize(length - 1);
      aidx := Wrap(aidx - 1);
    }

    method Empty()
      requires Valid()
      modifies this
      ensures Valid() && Abs() == Emptied(old(Abs()))
    {
      if data != null && length > 0 {
        data := null;
        length := 0;
        aidx := 0;
      }
    }

    /** The clamped read: an index at or past the end reads the last cell. */
    function IndexOf(index: u32): (r: T)
      requires 0 < length && data != null && Clamp(index, length) < data.Length
      reads this, data
      ensures index < length ==> r == data[index]
      ensures length <= index ==> r == data[length - 1]
    {
      data[Clamp(index, length)]
    }

    /** Linear scan of the first `length` cells, stopping at the first
        match. */
    method Contains(check: T) returns (found: bool)
      requires Valid() && ScanStaysInside(Abs(), check)
      ensures found <==> data != null && exists k :: 0 <= k < length && k < data.Length && data[k] == check
      ensures found == Member(Abs(), check)
    {
      var i := 0;
      while i < length
        invariant 0 <= i <= length
        invariant i > 0 ==> data != null
        invariant forall k :: 0 <= k < i ==> k < data.Length && data[k] != check
      {
        if data[i] == check {
          return true;
        }
        i := i + 1;
      }
      return false;
    }

    method Splice(start: u32, len: u32)
      requires Valid() && CanSplice(Abs(), start, len)
      modifies this
      ensures Valid() && Abs() == Spliced(old(Abs()), start, len)
      ensures data == old(data) || fresh(data)
    {
      if length == 0 || len == 0 {
        return;
      }
      var n := len;
      if n >= length {
        n := length;
      }
      var src := data;
      var tmp := NewBlock(n);
      for i := 0 to n
        modifies tmp
        invariant forall k :: 0 <= k < i ==> tmp[k] == src[start + k]
      {
        tmp[i] := src[start + i];
      }
      assert tmp[..] == src[start..start + n];
      data := tmp;
      length := length - n;
      aidx := Wrap(length - 1);
    }

    /** Sort(function): orders the first `length` cells. */
    method Sort(cmp: (T, T) -> int)
      requires Valid() && TotalPreorder(cmp) && Backed(Abs())
      modifies data
      ensures Valid()
      ensures data != null ==> SortsPrefix(old(data[..]), data[..], length, cmp)
    {
      SortFirst(cmp, length);
    }

    /** Sort(function, count): orders the first `count` cells, which need not
        be within `length`, only within the buffer. */
    method SortFirst(cmp: (T, T) -> int, count: u32)
      requires Valid() && TotalPreorder(cmp)
      requires data != null ==> count <= data.Length
      modifies data
      ensures Valid()
      ensures data != null ==> SortsPrefix(old(data[..]), data[..], count, cmp)
    {
      if data == null {
        return;
      }
      var a := data;
      var i := 0;
      while i < count
        invariant 0 <= i <= count
        invariant SortedBy(a[..i], cmp)
        invariant multiset(a[..]) == multiset(old(a[..]))
        invariant a[count..] == old(a[count..])
      {
        Insert(a, cmp, i, count);
        i := i + 1;
      }
      PrefixMultisetKept(old(a[..]), a[..], count);
    }

    /** One insertion-sort step: moves a[i] left into the sorted a[..i]. */
    static method Insert(a: array<T>, cmp: (T, T) -> int, i: int, count: int)
      requires TotalPreorder(cmp)
      requires 0 <= i < count <= a.Length
      requires SortedBy(a[..i], cmp)
      modifies a
      ensures SortedBy(a[..i + 1], cmp)
      ensures multiset(a[..]) == multiset(old(a[..]))
      ensures a[i + 1..] == old(a[i + 1..])
    {
      var j := i;
      InsertStart(a[..], i, cmp);
      while j > 0 && cmp(a[j - 1], a[j]) > 0
        invariant 0 <= j <= i
        invariant Inserting(a[..], i, j, cmp)
        invariant multiset(a[..]) == multiset(old(a[..]))
        invariant a[i + 1..] == old(a[i + 1..])
      {
        SwapDown(a, cmp, i, j);
        j := j - 1;
      }
      InsertDone(a[..], i, j, cmp);
    }

    /** Swaps a[j-1] and a[j], moving the inserted cell one step left. */
    static method SwapDown(a: array<T>, cmp: (T, T) -> int, i: int, j: int)
      requires TotalPreorder(cmp)
      requires 0 < j <= i < a.Length && Inserting(a[..], i, j, cmp)
      requires cmp(a[j - 1], a[j]) > 0
      modifies a
      ensures Inserting(a[..], i, j - 1, cmp)
      ensures multiset(a[..]) == multiset(old(a[..]))
      ensures a[i + 1..] == old(a[i + 1..])
    {
      ghost var before := a[..];
      a[j - 1], a[j] := a[j], a[j - 1];
      assert a[..] == before[j - 1 := before[j]][j := before[j - 1]];
      InsertSwap(before, a[..], i, j, cmp);
    }

    /** operator[] used for reading; the source asserts index < length. */
    function At(index: u32): (r: T)
      requires index < length && data != null && index < data.Length
      reads this, data
      ensures r == IndexOf(index)
    {
      data[index]
    }

    /** operator[] used for writing through the returned reference. */
    method Put(index: u32, x: T)
      requires Valid() && index < length && data != null && index < data.Length
      modifies data
      ensures Valid() && Abs() == Written(old(Abs()), index, x)
      ensures At(index) == x
    {
      data[index] := x;
    }

    /** operator=: drops this array's buffer, takes arr's counters, and
        copies arr's first `length` cells into a fresh block. When arr is
        this array, `arr.data` is by then that fresh block, so each cell is
        copied onto itself. Another array whose buffer is this one's (a
        shallow copy) would be read after the drop. */
    method Assign(arr: KexArray<T>)
      requires Valid() && arr.Valid()
      requires arr != this ==> Backed(arr.Abs()) && (arr.data == null || arr.data != data)
      modifies this
      ensures Valid()
      ensures arr != this ==> Abs() == Assigned(old(arr.Abs()))
      ensures arr == this ==> Abs() == SelfAssigned(old(Abs()), blank)
      ensures data == null || fresh(data)
    {
      ghost var from := arr.Abs();
      data := null;
      length := arr.length;
      aidx := arr.aidx;
      if arr.length > 0 {
        var buf := NewBlock(arr.length);
        data := buf;
        var src := arr.data;
        for i := 0 to arr.length
          modifies buf
          invariant src == buf ==> buf[..] == Blanks(arr.length, blank)
          invariant src != buf ==> forall k :: 0 <= k < i ==> buf[k] == src[k]
        {
          buf[i] := src[i];
        }
        if arr != this {
          assert buf[..] == from.buffer.cells[..arr.length];
        }
      }
    }

    function Length(): (n: u32)
      reads this
      ensures n == length
    {
      length
    }

    /** The unchecked read: any cell of the buffer, inside `length` or not. */
    function GetData(index: i32): (r: T)
      requires data != null && 0 <= index < data.Length
      reads this, data
      ensures index < length ==> r == IndexOf(index)
    {
      data[index]
    }
  }

  /** IndexOf at or past the end reads the same cell as IndexOf(length-1). */
  lemma IndexOfPastEndIsLast<T(!new)>(a: KexArray<T>, index: u32)
    requires 0 < a.length <= index && a.data != null && a.length <= a.data.Length
    ensures a.IndexOf(index) == a.IndexOf(a.length - 1)
  {
  }

  /** On an array holding xs, IndexOf(i) reads xs[i] and GetData agrees. */
  lemma IndexOfHolding<T(!new)>(a: KexArray<T>, xs: seq<T>, i: u32)
    requires |xs| < U32_LIMIT && a.Abs() == Holding(xs) && i < |xs|
    ensures 0 < a.length && a.data != null && Clamp(i, a.length) < a.data.Length
    ensures a.IndexOf(i) == xs[i]
    ensures i < 0x8000_0000 ==> a.GetData(i) == xs[i]
  {
    assert a.data[..][i] == xs[i];
  }

  /** A rearrangement of the whole buffer that leaves the cells from k on
      in place rearranges the first k cells among themselves. */
  lemma PrefixMultisetKept<T>(before: seq<T>, after: seq<T>, k: nat)
    requires k <= |before| == |after|
    requires multiset(after) == multiset(before) && after[k..] == before[k..]
    ensures multiset(after[..k]) == multiset(before[..k])
  {
    assert after == after[..k] + after[k..];
    assert before == before[..k] + before[k..];
    assert multiset(after[..k]) == multiset(after) - multiset(after[k..]);
  }

  /** While cell j is moved left: the cells of s[..i+1] other than j are in
      order, and cell j is ordered before every cell to its right. */
  ghost predicate Inserting<T>(s: seq<T>, i: int, j: int, cmp: (T, T) -> int)
    requires 0 <= j <= i < |s|
  {
    && (forall p, q :: 0 <= p < q <= i && p != j && q != j ==> cmp(s[p], s[q]) <= 0)
    && (forall q :: j < q <= i ==> cmp(s[j], s[q]) <= 0)
  }

  lemma InsertStart<T>(s: seq<T>, i: int, cmp: (T, T) -> int)
    requires 0 <= i < |s| && SortedBy(s[..i], cmp)
    ensures Inserting(s, i, i, cmp)
  {
    forall p, q | 0 <= p < q <= i && p != i && q != i
      ensures cmp(s[p], s[q]) <= 0
    {
      assert s[..i][p] == s[p] && s[..i][q] == s[q];
    }
  }

  lemma InsertSwap<T(!new)>(before: seq<T>, after: seq<T>, i: int, j: int, cmp: (T, T) -> int)
    requires TotalPreorder(cmp)
    requires 0 < j <= i < |before| && Inserting(before, i, j, cmp)
    requires cmp(before[j - 1], before[j]) > 0
    requires after == before[j - 1 := before[j]][j := before[j - 1]]
    ensures Inserting(after, i, j - 1, cmp)
  {
    assert cmp(before[j], before[j - 1]) <= 0;
  }

  lemma InsertDone<T(!new)>(s: seq<T>, i: int, j: int, cmp: (T, T) -> int)
    requires TotalPreorder(cmp)
    requires 0 <= j <= i < |s| && Inserting(s, i, j, cmp)
    requires j == 0 || cmp(s[j - 1], s[j]) <= 0
    ensures SortedBy(s[..i + 1], cmp)
  {
    forall p, q | 0 <= p < q <= i
      ensures cmp(s[p], s[q]) <= 0
    {
      if q == j && p < j - 1 {
        assert cmp(s[p], s[j - 1]) <= 0;
      }
    }
  }
}
