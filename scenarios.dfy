/** The behaviour the repository's unit tests expect, stated as the
    outputs of methods that build a buffer and drive it the way each test
    does, plus the inputs on which the stream comparison goes wrong. */
module Scenarios {
  import opened Ring
  import opened CircularBuffers
  import opened BufferOperators

  /** The tests' read-out loop: `count` times, read the oldest element
      (`front()`, or `*begin()`, which is the same slot) and `pop()` it. */
  method PopEach<T(0)>(b: CircularBuffer<T>, count: nat) returns (got: seq<T>)
    requires b.Valid() && count <= b.size
    modifies b`size
    ensures b.Valid() && b.tail == old(b.tail) && b.size == old(b.size) - count
    ensures got == old(b.Contents())[..count]
    ensures b.Contents() == old(b.Contents())[count..]
    ensures count == old(b.size) ==> got == old(b.Contents()) && b.Contents() == []
  {
    got := [];
    for j := 0 to count
      invariant b.Valid() && b.tail == old(b.tail) && b.size == old(b.size) - j
      invariant got == old(b.Contents())[..j]
      invariant b.Contents() == old(b.Contents())[j..]
    {
      got := got + [b.Front()];
      b.Pop();
    }
    assert old(b.Contents())[..|old(b.Contents())|] == old(b.Contents());
  }

  /** The tests' range-for loop `for (auto& item : buffer)`: walks the
      iterators from `begin()` until one equals `end()`. */
  method Collect<T(0)>(b: CircularBuffer<T>) returns (items: seq<T>)
    requires b.Valid()
    ensures items == b.Contents()
  {
    items := [];
    var it := b.Begin();
    while it.NotEqual(b.End())
      invariant it.buf == b && it.pos <= b.size
      invariant items == b.Contents()[..it.pos]
      decreases b.size - it.pos
    {
      items := items + [it.Deref()];
      it := it.Next();
    }
  }

  /** Copies `bytes` into the backing array from slot 0, as the tests do
      with `memcpy(buffer.storage(), ...)`; the cursors stay put. */
  method FillStorage<T(0)>(b: CircularBuffer<T>, bytes: seq<T>)
    requires b.Valid() && |bytes| == b.data.Length
    modifies b.data
    ensures b.Valid() && b.data[..] == bytes
  {
    var st := b.Storage();
    for i := 0 to |bytes|
      invariant st == b.data
      invariant st[..i] == bytes[..i]
    {
      st[i] := bytes[i];
    }
    assert st[..] == st[..|bytes|];
  }

  /** basic_push_pull: five pushes into eight slots come out in order. */
  method BasicPushPull() returns (capacity: nat, sz: nat, read: seq<char>, after: nat)
    ensures capacity == 8 && sz == 5 && read == "12345" && after == 0
  {
    var b := new CircularBuffer<char>(8);
    capacity := b.Capacity();
    PushAll(b, "12345");
    assert b.Contents() == "12345";
    sz := b.Size();
    read := PopEach(b, sz);
    after := b.Size();
  }

  /** basic_push_pull_mass: `end() - begin()` is the size, the range-for
      visits the elements in order and `buffer >> sz` empties the buffer. */
  method BasicPushPullMass() returns (sz: int, items: seq<char>, after: nat)
    ensures sz == 5 && items == "12345" && after == 0
  {
    var b := new CircularBuffer<char>(8);
    PushAll(b, "12345");
    assert b.Contents() == "12345";
    sz := b.End().Distance(b.Begin());
    items := Collect(b);
    Discard(b, sz);
    after := b.Size();
  }

  /** Sixteen pushes into ten slots keep the newest ten. */
  method Overburned() returns (b: CircularBuffer<char>)
    ensures fresh(b) && fresh(b.data) && b.Valid() && b.data.Length == 10
    ensures b.Contents() == "ghijklmnop"
  {
    b := new CircularBuffer<char>(10);
    PushAll(b, "abcdefgh");
    assert b.Contents() == "abcdefgh";
    PushAll(b, "ijklmnop");
    OverburnKeepsNewest();
  }

  lemma OverburnKeepsNewest()
    ensures Keep("abcdefgh" + "ijklmnop", 10) == "ghijklmnop"
  {
    assert ("abcdefgh" + "ijklmnop")[6..] == "ghijklmnop";
  }

  /** basic_push_pull_overburn */
  method BasicPushPullOverburn() returns (sz: nat, read: seq<char>, after: nat)
    ensures sz == 10 && read == "ghijklmnop" && after == 0
  {
    var b := Overburned();
    sz := b.Size();
    read := PopEach(b, sz);
    after := b.Size();
  }

  /** `std::array<T, k> ret; buffer >> ret;` on a buffer holding at least
      `k` elements. */
  method DrainNew<T(0)>(b: CircularBuffer<T>, k: nat) returns (ret: seq<T>)
    requires b.Valid() && k <= b.size
    modifies b`size
    ensures b.Valid() && b.tail == old(b.tail) && b.size == old(b.size) - k
    ensures ret == old(b.Contents())[..k] && b.Contents() == old(b.Contents())[k..]
  {
    var out := new T[k];
    Drain(b, out);
    ret := out[..];
  }

  /** First in, first out: whatever `<<` pushes into an empty buffer comes
      back out of `>>` in the same order, except that only the newest
      `Capacity()` elements survive. */
  method PushThenDrain<T(0)>(b: CircularBuffer<T>, input: seq<T>) returns (got: seq<T>)
    requires b.Valid() && b.size == 0
    modifies b, b.data
    ensures b.Valid() && b.Contents() == []
    ensures got == Keep(input, b.data.Length)
    ensures |input| <= b.data.Length ==> got == input
  {
    ghost var c0 := b.Contents();
    assert c0 + input == input;
    PushAll(b, input);
    got := DrainNew(b, b.Size());
  }

  lemma OverburnedSplits()
    ensures "ghijklmnop"[..4] == "ghij" && "ghijklmnop"[4..] == "klmnop" && "klmnop"[..6] == "klmnop"
  {
  }

  /** basic_push_pull_array: `buffer >> out` fills a four- and then a
      six-element array with the oldest elements. */
  method BasicPushPullArray() returns (sz1: int, ret1: seq<char>, sz2: int, ret2: seq<char>, after: nat)
    ensures sz1 == 10 && ret1 == "ghij" && sz2 == 6 && ret2 == "klmnop" && after == 0
  {
    var b := Overburned();
    OverburnedSplits();
    sz1 := b.End().Distance(b.Begin());
    ret1 := DrainNew(b, 4);
    sz2 := b.End().Distance(b.Begin());
    ret2 := DrainNew(b, 6);
    after := b.Size();
  }

  /** basic_push_pull_mass_overburn */
  method BasicPushPullMassOverburn() returns (sz: int, items: seq<char>, after: nat)
    ensures sz == 10 && items == "ghijklmnop" && after == 0
  {
    var b := Overburned();
    sz := b.End().Distance(b.Begin());
    items := Collect(b);
    Discard(b, sz);
    after := b.Size();
  }

  /** The windows the update_head tests expose over the slots
      "abcdefghij", and the distances `update_head` advances by there. */
  lemma FilledWindows(s: seq<char>)
    requires s == "abcdefghij"
    ensures Window(s, 0, 4) == "abcd" && Window(s, 4, 4) == "efgh" && Window(s, 0, 8) == "abcdefgh"
    ensures WrapDistance(0, 4, 10) == 4 && WrapDistance(4, 8, 10) == 4 && WrapDistance(0, 8, 10) == 8
  {
    WindowElements(s, 0, 4);
    WindowElements(s, 4, 4);
    WindowElements(s, 0, 8);
  }

  /** A buffer of ten slots that an external writer has filled with
      "abcdefghij" through `storage()`; the cursors are still at 0. */
  method Filled() returns (b: CircularBuffer<char>)
    ensures fresh(b) && fresh(b.data) && b.Valid() && b.data.Length == 10
    ensures b.data[..] == "abcdefghij" && b.tail == 0 && b.size == 0
  {
    b := new CircularBuffer<char>(10);
    FillStorage(b, "abcdefghij");
  }

  /** On an empty buffer over the filled slots, `update_head(headNext)`
      exposes the slots from the write cursor up to `headNext`. */
  method ExposeFilled(b: CircularBuffer<char>, headNext: nat, exposed: seq<char>)
    requires b.Valid() && b.data.Length == 10 && b.data[..] == "abcdefghij" && b.size == 0
    requires || (b.tail == 0 && headNext == 4 && exposed == "abcd")
             || (b.tail == 4 && headNext == 8 && exposed == "efgh")
             || (b.tail == 0 && headNext == 8 && exposed == "abcdefgh")
    modifies b`tail, b`size
    ensures b.Valid() && b.data[..] == "abcdefghij" && b.tail == old(b.tail) + |exposed|
    ensures b.Contents() == exposed
  {
    FilledWindows(b.data[..]);
    assert b.Contents() == [];
    b.UpdateHead(headNext);
    assert [] + exposed == exposed;
  }

  /** basic_update_head: after an external write of all ten slots,
      `update_head(4)` exposes slots 0..3, and after those are read,
      `update_head(8)` exposes slots 4..7. */
  method BasicUpdateHead() returns (sz1: int, read1: seq<char>, sz2: int, read2: seq<char>, after: nat)
    ensures sz1 == 4 && read1 == "abcd" && sz2 == 4 && read2 == "efgh" && after == 0
  {
    var b := Filled();
    ExposeFilled(b, 4, "abcd");
    sz1 := b.End().Distance(b.Begin());
    read1 := PopEach(b, 4);
    ExposeFilled(b, 8, "efgh");
    sz2 := b.End().Distance(b.Begin());
    read2 := PopEach(b, 4);
    after := b.Size();
  }

  /** basic_update_head_overburn: one `update_head(8)` exposes slots 0..7. */
  method BasicUpdateHeadOverburn() returns (sz: int, items: seq<char>, after: nat)
    ensures sz == 8 && items == "abcdefgh" && after == 0
  {
    var b := Filled();
    ExposeFilled(b, 8, "abcdefgh");
    sz := b.End().Distance(b.Begin());
    items := Collect(b);
    Discard(b, sz);
    after := b.Size();
  }

  /** The first loop of basic_boundary_test: pushing into an empty buffer
      of sixteen slots, the size after the `i`-th push is `i + 1`. */
  method FillCounting(b: CircularBuffer<int>) returns (grown: seq<nat>)
    requires b.Valid() && b.data.Length == 16 && b.size == 0
    modifies b, b.data
    ensures b.Valid() && b.size == 16
    ensures |grown| == 16 && forall i :: 0 <= i < 16 ==> grown[i] == i + 1
  {
    grown := [];
    for i := 0 to 16
      invariant b.Valid() && b.data.Length == 16 && b.size == i
      invariant |grown| == i && forall k :: 0 <= k < i ==> grown[k] == k + 1
    {
      b.Push(i);
      grown := grown + [b.Size()];
    }
  }

  /** The second loop of basic_boundary_test: popping a full buffer of
      sixteen, the size after the `k`-th pop is `15 - k`. */
  method DrainCounting(b: CircularBuffer<int>) returns (shrunk: seq<nat>)
    requires b.Valid() && b.size == 16
    modifies b`size
    ensures b.Valid() && b.size == 0
    ensures |shrunk| == 16 && forall k :: 0 <= k < 16 ==> shrunk[k] == 15 - k
  {
    shrunk := [];
    var i := 16;
    while i > 0
      invariant 0 <= i <= 16 && b.Valid() && b.size == i
      invariant |shrunk| == 16 - i && forall k :: 0 <= k < |shrunk| ==> shrunk[k] + k == 15
    {
      b.Pop();
      shrunk := shrunk + [b.Size()];
      i := i - 1;
    }
  }

  /** basic_boundary_test: the size grows by one per push up to the
      capacity, stays there on one more push, falls by one per pop, and a
      pop on the empty buffer leaves it at zero. */
  method BasicBoundary() returns (grown: seq<nat>, full: nat, shrunk: seq<nat>, after: nat)
    ensures |grown| == 16 && forall i :: 0 <= i < 16 ==> grown[i] == i + 1
    ensures full == 16
    ensures |shrunk| == 16 && forall i :: 0 <= i < 16 ==> shrunk[i] == 15 - i
    ensures after == 0
  {
    var b := new CircularBuffer<int>(16);
    grown := FillCounting(b);
    b.Push(10);
    full := b.Size();
    shrunk := DrainCounting(b);
    b.Pop();
    after := b.Size();
  }

  /** With the read cursor at slot 6 of ten and eight elements held, the
      first contiguous run is slots 6..9, so `mend()` sits four past
      `begin()` and the remaining four elements start at slot 0. */
  method MendAtWrap() returns (run: nat, rest: int)
    ensures run == 4 && rest == 4
  {
    var b := new CircularBuffer<char>(10);
    PushAll(b, "uvwxyz");
    Discard(b, 6);
    PushAll(b, "abcdefgh");
    assert b.tail == 14 && b.size == 8 && b.Head() == 6;
    assert b.SizeCircleEnd() == Min(8, 10 - 6 % 10) == 4;
    run := b.Mend().pos;
    rest := b.End().Distance(b.Mend());
  }

  /** The source's comparison with an accumulator that happens to start
      out false rejects a buffer that holds exactly `in_data`. */
  method EqualsUninitialisedFalse() returns (asWritten: bool, intended: bool)
    ensures !asWritten && intended
  {
    var b := new CircularBuffer<char>(4);
    PushAll(b, "ab");
    assert b.Contents() == "ab";
    asWritten := EqualsAsWritten(b, "ab", false);
    intended := Equals(b, "ab");
  }

  /** The source's comparison never compares lengths: a buffer holding
      "ab" equals "a", with the accumulator happening to start out true. */
  method EqualsIgnoresLength() returns (asWritten: bool, intended: bool)
    ensures asWritten && !intended
  {
    var b := new CircularBuffer<char>(4);
    PushAll(b, "ab");
    assert b.Contents() == "ab";
    AsWrittenAcceptsPrefix(b, "a");
    asWritten := EqualsAsWritten(b, "a", true);
    intended := Equals(b, "a");
  }
}
