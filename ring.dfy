/** Slot arithmetic of a ring of `n` physical slots addressed by unbounded
    logical indices: logical index `k` lives in physical slot `k % n`.
    Everything here is pure; the buffer class in module CircularBuffers is
    specified in these terms. */
module Ring {

  function Min(a: int, b: int): int {
    if a <= b then a else b
  }

  /** Physical slot of logical index `index` in a ring of `n` slots. */
  function Slot(index: nat, n: nat): (r: nat)
    requires n > 0
    ensures r < n
  {
    index % n
  }

  /** The `len` elements of the ring `s` that start at logical index `start`,
      each read through its physical slot. */
  function Window<T>(s: seq<T>, start: nat, len: nat): (w: seq<T>)
    requires |s| > 0
    ensures |w| == len
    decreases len
  {
    if len == 0 then [] else Window(s, start, len - 1) + [s[(start + len - 1) % |s|]]
  }

  /** The newest `n` elements of `s`: what survives when `s` is pushed into a
      ring of capacity `n` that overwrites its oldest element when full. */
  function Keep<T>(s: seq<T>, n: nat): (r: seq<T>)
    ensures |r| == Min(|s|, n)
    ensures r == s[|s| - |r|..]
  {
    if |s| <= n then s else s[|s| - n..]
  }

  /** The ring `s` after writing `xs` one element after another at logical
      indices `t`, `t + 1`, ... (later writes win over earlier ones). */
  function Store<T>(s: seq<T>, t: nat, xs: seq<T>): (r: seq<T>)
    requires |s| > 0
    ensures |r| == |s|
    decreases |xs|
  {
    if xs == [] then s
    else Store(s, t, xs[..|xs| - 1])[(t + |xs| - 1) % |s| := xs[|xs| - 1]]
  }

  /** Forward distance, modulo `n`, from the physical slot of the logical
      write cursor `tail` to the physical slot of `headNext`: the amount by
      which `update_head` advances the cursor. The two branches are the
      non-wrapping and the wrapping case. */
  function WrapDistance(tail: nat, headNext: nat, n: nat): (inc: nat)
    requires n > 0
    ensures inc < n
  {
    var t := tail % n;
    var h := headNext % n;
    if t > h then n - t + h else h - t
  }

  /** Advancing `tail` by the wrap distance lands on the slot of `headNext`. */
  lemma {:induction false} WrapDistanceLands(tail: nat, headNext: nat, n: nat)
    requires n > 0
    ensures (tail + WrapDistance(tail, headNext, n)) % n == headNext % n
  {
    var t, h := tail % n, headNext % n;
    DivMod(tail, n);
    if t > h {
      ModOfMultiplePlus(tail + (n - t + h), tail / n + 1, h, n);
    } else {
      ModOfMultiplePlus(tail + (h - t), tail / n, h, n);
    }
  }

  // ---------------------------------------------------------------------
  // Modular arithmetic

  lemma DivMod(a: int, n: int)
    requires n > 0
    ensures a == (a / n) * n + a % n && 0 <= a % n < n
  {
  }

  /** A quotient and remainder that add up to `a` are the ones of `a`. */
  lemma ModOfMultiplePlus(a: int, q: int, r: int, n: int)
    requires n > 0 && 0 <= r < n && a == q * n + r
    ensures a % n == r && a / n == q
  {
    DivMod(a, n);
    var d := q - a / n;
    assert d * n == a % n - r;
    MultipleInOpenRange(d, n);
  }

  /** The only multiple of `n` strictly between `-n` and `n` is zero. */
  lemma MultipleInOpenRange(d: int, n: int)
    requires n > 0 && -n < d * n < n
    ensures d == 0
  {
  }

  /** Two logical indices less than `n` apart live in different slots. */
  lemma {:induction false} ModDistinct(a: nat, b: nat, n: nat)
    requires n > 0 && a < b < a + n
    ensures a % n != b % n
  {
    DivMod(a, n);
    if a % n < n - (b - a) {
      ModOfMultiplePlus(b, a / n, a % n + (b - a), n);
    } else {
      ModOfMultiplePlus(b, a / n + 1, a % n + (b - a) - n, n);
    }
  }

  /** The wrap distance is the only advance below `n` that lands the cursor
      on the slot of `headNext`. */
  lemma {:induction false} WrapDistanceUnique(tail: nat, headNext: nat, n: nat, d: nat)
    requires n > 0 && d < n && (tail + d) % n == headNext % n
    ensures d == WrapDistance(tail, headNext, n)
  {
    var inc := WrapDistance(tail, headNext, n);
    WrapDistanceLands(tail, headNext, n);
    if d < inc {
      ModDistinct(tail + d, tail + inc, n);
    } else if inc < d {
      ModDistinct(tail + inc, tail + d, n);
    }
  }

  /** The wrap distance is `(headNext - tail) mod n`, and it is zero exactly
      when both indices name the same physical slot: a full turn of `n`
      slots cannot be told apart from no advance at all. */
  lemma {:induction false} WrapDistanceIsModDifference(tail: nat, headNext: nat, n: nat)
    requires n > 0
    ensures WrapDistance(tail, headNext, n) == (headNext - tail) % n
    ensures WrapDistance(tail, headNext, n) == 0 <==> tail % n == headNext % n
  {
    var d := (headNext - tail) % n;
    DivMod(headNext - tail, n);
    DivMod(headNext, n);
    var k := (headNext - tail) / n;
    assert tail + d == (headNext / n - k) * n + headNext % n by {
      assert (headNext / n - k) * n == (headNext / n) * n - k * n;
    }
    ModOfMultiplePlus(tail + d, headNext / n - k, headNext % n, n);
    WrapDistanceUnique(tail, headNext, n, d);
    if tail % n == headNext % n {
      assert (tail + 0) % n == headNext % n;
      WrapDistanceUnique(tail, headNext, n, 0);
    }
  }

  /** From logical index `head`, the slots `head % n`, `head % n + 1`, ...
      follow one another without wrapping for `n - head % n` steps, which is
      what `((head / n) + 1) * n - head` computes; the next index is slot 0. */
  lemma {:induction false} RunToBoundary(head: nat, n: nat)
    requires n > 0
    ensures ((head / n) + 1) * n - head == n - head % n
    ensures forall k :: head <= k < head + (n - head % n) ==> Slot(k, n) == head % n + (k - head)
    ensures (head + (n - head % n)) % n == 0
  {
    DivMod(head, n);
    assert ((head / n) + 1) * n == (head / n) * n + n;
    forall k | head <= k < head + (n - head % n)
      ensures Slot(k, n) == head % n + (k - head)
    {
      ModOfMultiplePlus(k, head / n, head % n + (k - head), n);
    }
    ModOfMultiplePlus(head + (n - head % n), head / n + 1, 0, n);
  }

  // ---------------------------------------------------------------------
  // Windows over the ring

  /** Element `i` of a window is read from the slot of index `start + i`. */
  lemma {:induction false} WindowAt<T>(s: seq<T>, start: nat, len: nat, i: nat)
    requires |s| > 0 && i < len
    ensures Window(s, start, len)[i] == s[(start + i) % |s|]
    decreases len
  {
    if i < len - 1 {
      WindowAt(s, start, len - 1, i);
    }
  }

  lemma WindowElements<T>(s: seq<T>, start: nat, len: nat)
    requires |s| > 0
    ensures forall i :: 0 <= i < len ==> Window(s, start, len)[i] == s[(start + i) % |s|]
  {
    forall i | 0 <= i < len
      ensures Window(s, start, len)[i] == s[(start + i) % |s|]
    {
      WindowAt(s, start, len, i);
    }
  }

  /** A window of `a + b` elements is the window of the first `a` followed
      by the window of the next `b`. */
  lemma {:induction false} WindowSplit<T>(s: seq<T>, start: nat, a: nat, b: nat)
    requires |s| > 0
    ensures Window(s, start, a + b) == Window(s, start, a) + Window(s, start + a, b)
    decreases b
  {
    if b > 0 {
      WindowSplit(s, start, a, b - 1);
      assert start + (a + b - 1) == (start + a) + (b - 1);
    }
  }

  /** Dropping the first `k` elements of a window moves its start by `k`. */
  lemma {:induction false} WindowDrop<T>(s: seq<T>, start: nat, len: nat, k: nat)
    requires |s| > 0 && k <= len
    ensures Window(s, start, len)[k..] == Window(s, start + k, len - k)
  {
    WindowSplit(s, start, k, len - k);
    assert k + (len - k) == len;
  }

  /** Writing the slot of logical index `t` leaves alone every window that
      ends at or before `t` and starts less than a full turn before it. */
  lemma {:induction false} WindowWriteOutside<T>(s: seq<T>, start: nat, len: nat, t: nat, x: T)
    requires |s| > 0 && start + len <= t < start + |s|
    ensures Window(s[t % |s| := x], start, len) == Window(s, start, len)
    decreases len
  {
    if len > 0 {
      WindowWriteOutside(s, start, len - 1, t, x);
      ModDistinct(start + len - 1, t, |s|);
    }
  }

  /** Keeping the newest `n` elements of a window is the window that ends at
      the same index and holds `min(len, n)` elements. */
  lemma KeepWindow<T>(s: seq<T>, start: nat, len: nat, n: nat)
    requires |s| > 0
    ensures Keep(Window(s, start, len), n) == Window(s, start + len - Min(len, n), Min(len, n))
  {
    var w := Window(s, start, len);
    if len <= n {
      assert Keep(w, n) == w;
    } else {
      assert Keep(w, n) == w[len - n..];
      WindowDrop(s, start, len, len - n);
    }
  }

  /** Pushing the elements of `xs` one at a time into a ring of capacity
      `n` and keeping the newest `n` after each push is the same as keeping
      the newest `n` once at the end. */
  lemma KeepExtend<T>(c: seq<T>, xs: seq<T>, i: nat, n: nat)
    requires i < |xs| && n > 0
    ensures Keep(Keep(c + xs[..i], n) + [xs[i]], n) == Keep(c + xs[..i + 1], n)
  {
    assert c + xs[..i + 1] == (c + xs[..i]) + [xs[i]];
  }

  /** Writing `x` at the write cursor `tail` of a ring holding the `size`
      elements that end there, and growing the count to at most `|s|`,
      holds the old elements followed by `x`, oldest dropped when full. */
  lemma {:induction false} PushWindow<T>(s: seq<T>, tail: nat, size: nat, x: T)
    requires |s| > 0 && size <= |s| && size <= tail
    ensures Window(s[tail % |s| := x], tail + 1 - Min(size + 1, |s|), Min(size + 1, |s|))
            == Keep(Window(s, tail - size, size) + [x], |s|)
  {
    var w := Window(s, tail - size, size);
    if size < |s| {
      PushWindowNotFull(s, tail, size, x);
      assert Min(size + 1, |s|) == size + 1 && tail + 1 - (size + 1) == tail - size;
      assert Keep(w + [x], |s|) == w + [x];
    } else {
      PushWindowFull(s, tail, x);
      assert Min(size + 1, |s|) == |s| && size == |s|;
      assert Keep(w + [x], |s|) == (w + [x])[1..] == w[1..] + [x];
    }
  }

  lemma {:induction false} PushWindowNotFull<T>(s: seq<T>, tail: nat, size: nat, x: T)
    requires |s| > 0 && size < |s| && size <= tail
    ensures Window(s[tail % |s| := x], tail - size, size + 1) == Window(s, tail - size, size) + [x]
  {
    var h, s' := tail - size, s[tail % |s| := x];
    assert Window(s', tail, 1) == [x];
    WindowSplit(s', h, size, 1);
    WindowWriteOutside(s, h, size, tail, x);
  }

  lemma {:induction false} PushWindowFull<T>(s: seq<T>, tail: nat, x: T)
    requires |s| > 0 && |s| <= tail
    ensures Window(s[tail % |s| := x], tail + 1 - |s|, |s|) == Window(s, tail - |s|, |s|)[1..] + [x]
  {
    var n, h, s' := |s|, tail - |s|, s[tail % |s| := x];
    assert Window(s', tail, 1) == [x];
    WindowSplit(s', h + 1, n - 1, 1);
    WindowWriteOutside(s, h + 1, n - 1, tail, x);
    WindowDrop(s, h, n, 1);
  }

  /** Advancing the write cursor by `inc` over slots that were written from
      outside appends those slots to the window, oldest dropped past `|s|`. */
  lemma {:induction false} AdvanceWindow<T>(s: seq<T>, tail: nat, size: nat, inc: nat)
    requires |s| > 0 && size <= |s| && size <= tail
    ensures Window(s, tail + inc - Min(size + inc, |s|), Min(size + inc, |s|))
            == Keep(Window(s, tail - size, size) + Window(s, tail, inc), |s|)
  {
    var joined := Window(s, tail - size, size) + Window(s, tail, inc);
    var len := size + inc;
    assert |joined| == len;
    if len <= |s| {
      AdvanceWindowFits(s, tail, size, inc);
      assert Keep(joined, |s|) == joined;
      assert Min(len, |s|) == len && tail + inc - len == tail - size;
    } else {
      AdvanceWindowOverruns(s, tail, size, inc);
      assert Keep(joined, |s|) == joined[len - |s|..];
      assert Min(len, |s|) == |s|;
    }
  }

  lemma {:induction false} AdvanceWindowFits<T>(s: seq<T>, tail: nat, size: nat, inc: nat)
    requires |s| > 0 && size + inc <= |s| && size <= tail
    ensures Window(s, tail - size, size + inc) == Window(s, tail - size, size) + Window(s, tail, inc)
  {
    WindowSplit(s, tail - size, size, inc);
  }

  lemma {:induction false} AdvanceWindowOverruns<T>(s: seq<T>, tail: nat, size: nat, inc: nat)
    requires |s| > 0 && size <= |s| < size + inc && size <= tail
    ensures Window(s, tail + inc - |s|, |s|) == (Window(s, tail - size, size) + Window(s, tail, inc))[size + inc - |s|..]
  {
    WindowSplit(s, tail - size, size, inc);
    WindowDrop(s, tail - size, size + inc, size + inc - |s|);
  }

  /** The slot of the write cursor `head + size` of a ring holding the
      logical positions `head .. head + size - 1`: when full it is the slot
      of the oldest element, which the next push overwrites; otherwise it is
      the slot of none of the elements. */
  lemma {:induction false} CursorSlot(head: nat, size: nat, n: nat)
    requires n > 0 && size <= n
    ensures size == n ==> Slot(head + size, n) == Slot(head, n)
    ensures size < n ==> forall p :: head <= p < head + size ==> Slot(head + size, n) != Slot(p, n)
  {
    if size == n {
      var q := head / n;
      DivMod(head, n);
      assert head + n == (q + 1) * n + head % n;
      ModOfMultiplePlus(head + n, q + 1, head % n, n);
    } else {
      forall p | head <= p < head + size
        ensures Slot(head + size, n) != Slot(p, n)
      {
        ModDistinct(p, head + size, n);
      }
    }
  }

  /** What `Store` leaves when it writes at most `|s|` elements: the slot of
      the `i`-th write holds `xs[i]`, and every slot that no logical position
      `t .. t + |xs| - 1` maps to keeps its old value. */
  lemma {:induction false} StoreSlots<T>(s: seq<T>, t: nat, xs: seq<T>)
    requires 0 < |s| && |xs| <= |s|
    ensures forall i :: 0 <= i < |xs| ==> Store(s, t, xs)[Slot(t + i, |s|)] == xs[i]
    ensures forall j :: 0 <= j < |s| && (forall p :: t <= p < t + |xs| ==> Slot(p, |s|) != j) ==>
              Store(s, t, xs)[j] == s[j]
    decreases |xs|
  {
    if xs != [] {
      var n, k := |s|, |xs| - 1;
      var pre := xs[..k];
      StoreSlots(s, t, pre);
      var r0 := Store(s, t, pre);
      var last := Slot(t + k, n);
      assert Store(s, t, xs) == r0[last := xs[k]];
      forall i | 0 <= i < |xs|
        ensures Store(s, t, xs)[Slot(t + i, n)] == xs[i]
      {
        if i < k {
          ModDistinct(t + i, t + k, n);
          assert r0[Slot(t + i, n)] == pre[i];
        }
      }
      forall j | 0 <= j < n && (forall p :: t <= p < t + |xs| ==> Slot(p, n) != j)
        ensures Store(s, t, xs)[j] == s[j]
      {
        assert last != j;
        assert r0[j] == s[j];
      }
    }
  }

  /** `Store` adds its last write on top of the earlier ones. */
  lemma StoreExtend<T>(s: seq<T>, t: nat, xs: seq<T>, i: nat)
    requires |s| > 0 && i < |xs|
    ensures Store(s, t, xs[..i + 1]) == Store(s, t, xs[..i])[(t + i) % |s| := xs[i]]
  {
    assert xs[..i + 1][..i] == xs[..i];
  }
}
