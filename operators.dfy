/** The free stream operators over a ring buffer: `buffer << in_data`,
    `buffer >> count`, `buffer >> out_data` and `buffer == in_data`. */
module BufferOperators {
  import opened Ring
  import opened CircularBuffers

  /** `buffer << in_data`: pushes every element of `input` in order, so the
      buffer ends up holding the newest elements of its old contents
      followed by `input`, and the storage is the old storage with `input`
      written slot by slot from the old cursor (`StoreSlots` says which slot
      holds what when `input` is no longer than the capacity). */
  method PushAll<T(0)>(b: CircularBuffer<T>, input: seq<T>)
    requires b.Valid()
    modifies b, b.data
    ensures b.Valid()
    ensures b.tail == old(b.tail) + |input| && b.size == Min(old(b.size) + |input|, b.data.Length)
    ensures b.data[..] == Store(old(b.data[..]), old(b.tail), input)
    ensures b.Contents() == Keep(old(b.Contents()) + input, b.data.Length)
  {
    ghost var s0, c0, t0, n0 := b.data[..], b.Contents(), b.tail, b.size;
    ghost var n := b.data.Length;
    for i := 0 to |input|
      invariant b.Valid()
      invariant b.tail == t0 + i && b.size == Min(n0 + i, n)
      invariant b.data[..] == Store(s0, t0, input[..i])
      invariant b.Contents() == Keep(c0 + input[..i], n)
    {
      b.Push(input[i]);
      StoreExtend(s0, t0, input, i);
      KeepExtend(c0, input, i, n);
    }
    assert input[..|input|] == input;
  }

  /** `buffer >> count`: pops `count` times, counting with an iterator from
      `begin()` to `begin() + count`; pops past the last element do nothing,
      so the oldest `min(count, size)` elements go. */
  method Discard<T(0)>(b: CircularBuffer<T>, count: nat)
    requires b.Valid()
    modifies b`size
    ensures b.Valid() && b.tail == old(b.tail)
    ensures b.size == old(b.size) - Min(count, old(b.size))
    ensures b.Contents() == old(b.Contents())[Min(count, old(b.size))..]
  {
    var end := b.Begin().Advance(count);
    var it := b.Begin();
    while it.Less(end)
      invariant b.Valid() && b.tail == old(b.tail)
      invariant it.buf == b && end.pos == count && it.pos <= count
      invariant b.size == old(b.size) - Min(it.pos, old(b.size))
      invariant b.Contents() == old(b.Contents())[Min(it.pos, old(b.size))..]
      decreases count - it.pos
    {
      b.Pop();
      it := it.Next();
    }
  }

  /** `buffer >> out_data`: when the buffer holds at least `out.Length`
      elements, moves the oldest of them into `out`, in order; otherwise
      changes nothing. */
  method Drain<T(0)>(b: CircularBuffer<T>, out: array<T>)
    requires b.Valid() && out != b.data
    modifies b`size, out
    ensures b.Valid() && b.tail == old(b.tail)
    ensures old(b.size) < out.Length ==>
              b.size == old(b.size) && b.Contents() == old(b.Contents()) && out[..] == old(out[..])
    ensures out.Length <= old(b.size) ==>
              b.size == old(b.size) - out.Length
              && out[..] == old(b.Contents())[..out.Length]
              && b.Contents() == old(b.Contents())[out.Length..]
  {
    if b.Size() < out.Length {
      return;
    }
    for i := 0 to out.Length
      invariant b.Valid() && b.tail == old(b.tail)
      invariant b.size == old(b.size) - i
      invariant b.Contents() == old(b.Contents())[i..]
      invariant out[..i] == old(b.Contents())[..i]
    {
      out[i] := b.Front();
      b.Pop();
    }
  }

  /** `buffer == in_data` as the source writes it: the accumulator starts
      out uninitialised (its value is the parameter `indeterminate`), each
      element of `inData` is compared with the buffer element at the same
      offset, read unchecked past the valid elements, and the lengths are
      never compared. */
  method EqualsAsWritten<T(0,==)>(b: CircularBuffer<T>, inData: seq<T>, indeterminate: bool)
    returns (res: bool)
    requires b.Valid()
    ensures res <==> indeterminate && forall i :: 0 <= i < |inData| ==> inData[i] == b.At(i)
  {
    res := indeterminate;
    var iter := b.Begin();
    for k := 0 to |inData|
      invariant iter.buf == b && iter.pos == k
      invariant res <==> indeterminate && forall i :: 0 <= i < k ==> inData[i] == b.At(i)
    {
      res := res && inData[k] == iter.Deref();
      iter := iter.Next();
    }
  }

  /** `buffer == in_data` as intended: true exactly when the buffer holds
      `inData`, element for element and of the same length. */
  method Equals<T(0,==)>(b: CircularBuffer<T>, inData: seq<T>) returns (eq: bool)
    requires b.Valid()
    ensures eq <==> b.Contents() == inData
  {
    if b.Size() != |inData| {
      return false;
    }
    eq := true;
    var iter := b.Begin();
    for k := 0 to |inData|
      invariant iter.buf == b && iter.pos == k
      invariant eq <==> forall j :: 0 <= j < k ==> inData[j] == b.Contents()[j]
    {
      eq := eq && inData[k] == iter.Deref();
      iter := iter.Next();
    }
  }

  /** The source's comparison accepts any prefix of the contents: with the
      accumulator happening to start out true, a strictly shorter `inData`
      that agrees with the oldest elements compares equal although the
      buffer does not hold it. */
  lemma AsWrittenAcceptsPrefix<T(0)>(b: CircularBuffer<T>, inData: seq<T>)
    requires b.Valid() && |inData| < b.size && inData == b.Contents()[..|inData|]
    ensures forall i :: 0 <= i < |inData| ==> inData[i] == b.At(i)
    ensures b.Contents() != inData
  {
  }
}
