/** The fixed-capacity ring buffer `circular_buffer<T, Size>` and its
    position-based iterator. The capacity `Size` is the length of the backing
    array; the logical write cursor `tail` grows by one on `push` and by
    the wrap distance on `update_head`, and `clear()` resets it to 0; `size`
    counts the valid elements, and the read cursor is `tail - size`. */
module CircularBuffers {
  import opened Ring

  /** Largest value of the host's 64-bit `size_t`; `back()` on a buffer whose
      cursor is still 0 reads the slot of `0 - 1`, which wraps to this. */
  const SizeMax: nat := 0xFFFF_FFFF_FFFF_FFFF

  class CircularBuffer<T(0)> {
    /** The backing slots; their number is the capacity. A DMA engine may
        write them directly (see `Storage`). */
    const data: array<T>
    /** Logical write cursor; physical slot `tail % Capacity()`. */
    var tail: nat
    /** Number of valid elements, ending just before `tail`. */
    var size: nat

    ghost predicate Valid()
      reads this
    {
      0 < data.Length && size <= data.Length && size <= tail
    }

    /** The valid elements, oldest first: slots `head`, ..., `tail - 1`, each
        taken modulo the capacity. */
    ghost function Contents(): (c: seq<T>)
      reads this, data
      requires Valid()
      ensures |c| == size
    {
      Window(data[..], Head(), size)
    }

    /** A fresh buffer: empty, cursor at 0, slots uninitialised. */
    constructor (capacity: nat)
      requires capacity > 0
      ensures Valid() && fresh(data) && data.Length == capacity
      ensures tail == 0 && size == 0 && Contents() == []
    {
      data := new T[capacity];
      tail, size := 0, 0;
    }

    /** The template parameter `Size`: the number of slots. */
    function Capacity(): (c: nat)
      reads this
      requires Valid()
      ensures 0 < c && size <= c
    {
      data.Length
    }

    /** The logical read cursor; its slot holds the oldest element. */
    function Head(): (h: nat)
      reads this
      requires Valid()
      ensures h + size == tail
    {
      tail - size
    }

    /** The logical write cursor; the next push lands in its slot. When the
        buffer is full that slot is the oldest element's, which the push
        overwrites; otherwise it holds none of the elements. */
    function Tail(): (t: nat)
      reads this
      requires Valid()
      ensures t == Head() + size
      ensures size == data.Length ==> Slot(t, data.Length) == Slot(Head(), data.Length)
      ensures size < data.Length ==>
                forall p :: Head() <= p < t ==> Slot(t, data.Length) != Slot(p, data.Length)
    {
      CursorSlot(tail - size, size, data.Length);
      tail
    }

    function Size(): (n: nat)
      reads this, data
      requires Valid()
      ensures n == |Contents()| && n <= Capacity()
    {
      size
    }

    predicate Empty()
      reads this, data
      requires Valid()
      ensures Empty() <==> Contents() == []
    {
      size == 0
    }

    predicate Full()
      reads this, data
      requires Valid()
      ensures Full() <==> |Contents()| == Capacity()
    {
      size >= data.Length
    }

    /** The element stored at logical index `index` (the private `data`
        accessor): every access goes through slot `index % Capacity()`, and
        a logical index between the cursors reads the element it names. */
    function Data(index: nat): (x: T)
      reads this, data
      requires Valid()
      ensures x == data[Slot(index, data.Length)]
      ensures Head() <= index < tail ==> x == Contents()[index - Head()]
    {
      if Head() <= index < tail then
        WindowAt(data[..], Head(), size, index - Head());
        data[index % data.Length]
      else
        data[index % data.Length]
    }

    /** The element at offset `i` from the read cursor. Unchecked, as in the
        source: past the valid elements it reads whatever the slot holds. */
    function At(i: nat): (x: T)
      reads this, data
      requires Valid()
      ensures x == data[Slot(Head() + i, data.Length)]
      ensures i < size ==> x == Contents()[i]
    {
      Data(Head() + i)
    }

    function Front(): (x: T)
      reads this, data
      requires Valid()
      ensures x == At(0)
      ensures size > 0 ==> x == Contents()[0]
    {
      Data(Head())
    }

    /** The slot just before the write cursor. At cursor 0 the source's
        `tail_ - 1` wraps around to the largest `size_t`. */
    function Back(): (x: T)
      reads this, data
      requires Valid()
      ensures size > 0 ==> x == Contents()[size - 1]
      ensures tail > 0 ==> x == data[(tail - 1) % data.Length]
    {
      if size > 0 then WindowAt(data[..], Head(), size, size - 1); Data(tail - 1)
      else
      Data(if tail == 0 then SizeMax else tail - 1)
    }

    /** The backing array, for an external writer such as a DMA engine. The
        logical contents are read through exactly these slots. */
    function Storage(): (a: array<T>)
      reads this, data
      requires Valid()
      ensures a == data
      ensures forall i :: 0 <= i < size ==> Contents()[i] == a[Slot(Head() + i, a.Length)]
    {
      WindowElements(data[..], Head(), size);
      data
    }

    function Begin(): (it: Iterator<T>)
      reads this, data
      requires Valid()
      ensures it.buf == this && it.pos == 0
      ensures size > 0 ==> it.Deref() == Contents()[0]
    {
      Iterator(this, 0)
    }

    function End(): (it: Iterator<T>)
      reads this, data
      requires Valid()
      ensures it.buf == this && it.pos == |Contents()|
    {
      Iterator(this, size)
    }

    /** Length of the run of valid elements from the read cursor that is
        contiguous in the backing array, i.e. stops where the logical window
        wraps from the last slot back to slot 0. */
    function SizeCircleEnd(): (r: nat)
      reads this
      requires Valid()
      ensures r == Min(size, data.Length - Head() % data.Length)
      ensures forall k :: Head() <= k < Head() + r ==> Slot(k, data.Length) == Head() % data.Length + (k - Head())
      ensures r < size ==> Slot(Head() + r, data.Length) == 0
      ensures size > 0 ==> r > 0
    {
      RunToBoundary(Head(), data.Length);
      Min(size, ((Head() / data.Length) + 1) * data.Length - Head())
    }

    /** End of the first physically contiguous run, never past `End()`. */
    function Mend(): (it: Iterator<T>)
      reads this, data
      requires Valid()
      ensures it.buf == this && it.LessEq(End())
      ensures it.pos == SizeCircleEnd()
    {
      Iterator(this, SizeCircleEnd())
    }

    method Clear()
      requires Valid()
      modifies this`tail, this`size
      ensures Valid() && tail == 0 && size == 0 && Contents() == []
    {
      size, tail := 0, 0;
    }

    /** Appends `x`; when full, the oldest element is overwritten. */
    method Push(x: T)
      requires Valid()
      modifies this`tail, this`size, data
      ensures Valid()
      ensures tail == old(tail) + 1 && size == Min(old(size) + 1, data.Length)
      ensures data[..] == old(data[..])[old(tail) % data.Length := x]
      ensures Contents() == if old(size) < data.Length then old(Contents()) + [x]
                            else old(Contents())[1..] + [x]
      ensures Contents() == Keep(old(Contents()) + [x], data.Length)
    {
      ghost var s := data[..];
      data[tail % data.Length] := x;
      tail := tail + 1;
      size := size + 1;
      size := Min(size, data.Length);
      PushWindow(s, old(tail), old(size), x);
    }

    /** Drops the oldest element; a no-op on an empty buffer. */
    method Pop()
      requires Valid()
      modifies this`size
      ensures Valid()
      ensures size == if old(size) == 0 then 0 else old(size) - 1
      ensures Contents() == if old(size) == 0 then old(Contents()) else old(Contents())[1..]
    {
      size := size - (if !Empty() then 1 else 0);
      if old(size) > 0 {
        WindowDrop(data[..], old(Head()), old(size), 1);
      }
    }

    /** Reconciles the cursors after an external writer has filled the slots
        from the write cursor up to (not including) physical position
        `headNext % Capacity()`: those slots join the contents, oldest
        dropped past the capacity, and the storage is not touched. */
    method UpdateHead(headNext: nat)
      requires Valid()
      modifies this`tail, this`size
      ensures Valid()
      ensures Contents() == Keep(old(Contents()) + Window(data[..], old(tail), WrapDistance(old(tail), headNext, data.Length)), data.Length)
      ensures tail == old(tail) + WrapDistance(old(tail), headNext, data.Length)
      ensures size == Min(old(size) + WrapDistance(old(tail), headNext, data.Length), data.Length)
      ensures tail % data.Length == headNext % data.Length
    {
      var inc := WrapDistance(tail, headNext, data.Length);
      ghost var s, c0 := data[..], Contents();
      AdvanceWindow(s, tail, size, inc);
      ghost var w := Keep(c0 + Window(s, tail, inc), data.Length);
      WrapDistanceLands(tail, headNext, data.Length);
      tail, size := tail + inc, Min(size + inc, data.Length);
      assert Contents() == w;
    }
  }

  /** The slot of the read cursor holds the oldest element. */
  lemma HeadHoldsOldest<T(0)>(b: CircularBuffer<T>)
    requires b.Valid() && b.size > 0
    ensures b.data[Slot(b.Head(), b.data.Length)] == b.Contents()[0]
  {
    WindowAt(b.data[..], b.Head(), b.size, 0);
  }

  /** A position relative to the read cursor of `buf`. Comparison and
      arithmetic look only at `pos`; dereferencing goes through `buf`. */
  datatype Iterator<T(0)> = Iterator(buf: CircularBuffer<T>, pos: nat)
  {
    function Deref(): (x: T)
      reads buf, buf.data
      requires buf.Valid()
      ensures pos < buf.size ==> x == buf.Contents()[pos]
    {
      buf.At(pos)
    }

    predicate Equal(rhs: Iterator<T>) { pos == rhs.pos }
    predicate NotEqual(rhs: Iterator<T>) { !Equal(rhs) }
    predicate Less(rhs: Iterator<T>) { pos < rhs.pos }
    predicate LessEq(rhs: Iterator<T>) { pos <= rhs.pos }
    predicate Greater(rhs: Iterator<T>) { pos > rhs.pos }
    predicate GreaterEq(rhs: Iterator<T>) { pos >= rhs.pos }

    /** `++it` */
    function Next(): Iterator<T> {
      this.(pos := pos + 1)
    }

    /** `--it` */
    function Prev(): Iterator<T>
      requires pos > 0
    {
      this.(pos := pos - 1)
    }

    /** `it + n` and `it += n` */
    function Advance(n: int): Iterator<T>
      requires pos + n >= 0
    {
      this.(pos := pos + n)
    }

    /** `it - n` and `it -= n`, which the source writes as `it += -n` */
    function Retreat(n: int): Iterator<T>
      requires pos - n >= 0
    {
      Advance(-n)
    }

    /** `it - rhs` */
    function Distance(rhs: Iterator<T>): int {
      pos - rhs.pos
    }
  }

  /** Iterator arithmetic is integer arithmetic on positions: the comparisons
      agree with the sign of the distance, and stepping is undone by the
      opposite step. */
  lemma IteratorArithmetic<T(0)>(a: Iterator<T>, b: Iterator<T>, n: int)
    requires a.pos + n >= 0
    ensures a.Advance(n).Distance(a) == n
    ensures a.Advance(n).Retreat(n) == a
    ensures a.Next() == a.Advance(1) && a.Next().Prev() == a
    ensures a.Less(b) <==> b.Distance(a) > 0
    ensures a.Equal(b) <==> a.Distance(b) == 0
    ensures a.Less(b) || a.Equal(b) || a.Greater(b)
    ensures a.LessEq(b) <==> !a.Greater(b)
    ensures a.GreaterEq(b) <==> !a.Less(b)
    ensures a.NotEqual(b) <==> (a.Less(b) || a.Greater(b))
  {
  }

  /** `end() - begin()` is the size, the iterators in between visit the
      contents in order, and `mend()` lies between them. */
  lemma IterationCoversContents<T(0)>(b: CircularBuffer<T>)
    requires b.Valid()
    ensures b.End().Distance(b.Begin()) == b.Size()
    ensures forall i :: 0 <= i < b.size ==> b.Begin().Advance(i).Deref() == b.Contents()[i]
    ensures b.Begin().LessEq(b.Mend()) && b.Mend().LessEq(b.End())
    ensures b.size > 0 ==> b.Begin().Less(b.Mend())
  {
  }
}
