/// The kernel's bounded FIFO ring buffer (pipes, ttys): a fixed array of
/// slots with a read index and an occupied count, plus the splice that moves
/// elements from one buffer straight into another.
module KernelBuffer {
  import opened Common

  /// The least of three counts.
  function Least(a: nat, b: nat, c: nat): nat
  {
    if a <= b && a <= c then a else if b <= c then b else c
  }

  /// The slot `k` places after `start` in a ring of `cap` slots.
  function Ring(start: nat, k: nat, cap: nat): (p: nat)
    requires start < cap && k <= cap
    ensures p < cap
  {
    if start + k < cap then start + k else start + k - cap
  }

  /// Walking `a` then `b` slots is walking `a + b` slots.
  lemma RingAdd(start: nat, a: nat, b: nat, cap: nat)
    requires start < cap && a + b <= cap
    ensures Ring(Ring(start, a, cap), b, cap) == Ring(start, a + b, cap)
  {
  }

  /// A contiguous run of array slots: `len` slots from `start`.
  datatype Span = Span(start: nat, len: nat)

  /// The array slot holding the `k`-th element of the run `head` then `tail`.
  function Pos(head: Span, tail: Span, k: nat): nat
  {
    if k < head.len then head.start + k else tail.start + (k - head.len)
  }

  /// Whether slot `p` is among the first `m` slots of `head` then `tail`.
  predicate Covered(head: Span, tail: Span, m: nat, p: nat)
  {
    (head.start <= p < head.start + Min(m, head.len))
    || (m > head.len && tail.start <= p < tail.start + (m - head.len))
  }

  predicate Within(s: Span, n: nat)
  {
    s.start + s.len <= n
  }

  /// Two runs that share no slot.
  predicate Apart(a: Span, b: Span)
  {
    a.start + a.len <= b.start || b.start + b.len <= a.start
  }

  /// The first `m` elements of `sh` then `st` in `src` have been copied, in
  /// order, to the first `m` slots of `dh` then `dt` in `dst`, and no other
  /// slot of `dst` has changed since `before`.
  ghost predicate CopiedPrefix<T>(src: array<T>, sh: Span, st: Span, dst: array<T>, dh: Span, dt: Span,
                                  m: nat, before: seq<T>)
    requires Within(sh, src.Length) && Within(st, src.Length) && Within(dh, dst.Length) && Within(dt, dst.Length)
    requires m <= sh.len + st.len && m <= dh.len + dt.len && |before| == dst.Length
    reads src, dst
  {
    (forall k | 0 <= k < m :: dst[Pos(dh, dt, k)] == src[Pos(sh, st, k)])
    && (forall p | 0 <= p < dst.Length && !Covered(dh, dt, m, p) :: dst[p] == before[p])
  }

  /// `copy_from_slice`: slots `di .. di+n` of `dst` receive `src[si .. si+n]`.
  method CopyRange<T>(src: array<T>, si: nat, dst: array<T>, di: nat, n: nat)
    requires src != dst && si + n <= src.Length && di + n <= dst.Length
    modifies dst
    ensures forall p | 0 <= p < dst.Length ::
      dst[p] == if di <= p < di + n then src[si + (p - di)] else old(dst[p])
  {
    for j := 0 to n
      invariant forall p | 0 <= p < dst.Length ::
        dst[p] == if di <= p < di + j then src[si + (p - di)] else old(dst[p])
    {
      dst[di + j] := src[si + j];
    }
  }

  /// One step of `copy_slices`: copies `n` elements that are contiguous both
  /// in the source (from `s0`) and in the destination (from `d0`), extending
  /// a copied prefix of length `m` to `m + n`.
  method CopyStep<T>(src: array<T>, sh: Span, st: Span, s0: nat,
                     dst: array<T>, dh: Span, dt: Span, d0: nat,
                     m: nat, n: nat, ghost before: seq<T>)
    requires src != dst && |before| == dst.Length
    requires Within(sh, src.Length) && Within(st, src.Length)
    requires Within(dh, dst.Length) && Within(dt, dst.Length) && Apart(dh, dt)
    requires m + n <= sh.len + st.len && m + n <= dh.len + dt.len
    requires (m + n <= sh.len && s0 == sh.start + m) || (m >= sh.len && s0 == st.start + (m - sh.len))
    requires (m + n <= dh.len && d0 == dh.start + m) || (m >= dh.len && d0 == dt.start + (m - dh.len))
    requires CopiedPrefix(src, sh, st, dst, dh, dt, m, before)
    modifies dst
    ensures CopiedPrefix(src, sh, st, dst, dh, dt, m + n, before)
  {
    CopyRange(src, s0, dst, d0, n);
    forall k | 0 <= k < m + n
      ensures dst[Pos(dh, dt, k)] == src[Pos(sh, st, k)]
    {
      if k < m {
        assert !(d0 <= Pos(dh, dt, k) < d0 + n);
      } else {
        assert Pos(dh, dt, k) == d0 + (k - m) && Pos(sh, st, k) == s0 + (k - m);
      }
    }
    forall p | 0 <= p < dst.Length && !Covered(dh, dt, m + n, p)
      ensures dst[p] == before[p]
    {
      assert !Covered(dh, dt, m, p) && !(d0 <= p < d0 + n);
    }
  }

  /// The number of elements `copy_slices` moves as written: source head
  /// into destination head, the rest of the source head into the destination
  /// tail, then the source tail into the rest of the destination head.
  function CopyCountAsWritten(sh: nat, st: nat, dh: nat, dt: nat, amount: nat): (n: nat)
    ensures n <= amount && n <= sh + st && n <= dh + dt
  {
    var n1 := Min(amount, Min(sh, dh));
    var n2 := Min(amount - n1, Min(sh - n1, dt));
    var n3 := Min(amount - n1 - n2, Min(st, dh - n1));
    n1 + n2 + n3
  }

  /// When both the source data and the destination space wrap, the written
  /// steps never copy the source tail into the destination tail: with head
  /// and tail runs of 2 and 3 elements and 3 and 2 free slots, a request for
  /// 5 moves only 3.
  lemma CopySlicesShortAsWritten()
    ensures CopyCountAsWritten(2, 3, 3, 2, 5) == 3
    ensures Min(5, Min(2 + 3, 3 + 2)) == 5
  {
  }

  /// `copy_slices` with the missing fourth step (rest of the source tail into
  /// the rest of the destination tail): it copies exactly
  /// min(amount, source length, destination space) elements, in order.
  method CopySlices<T>(src: array<T>, sh: Span, st: Span,
                       dst: array<T>, dh: Span, dt: Span, amount: nat) returns (copied: nat)
    requires src != dst
    requires Within(sh, src.Length) && Within(st, src.Length)
    requires Within(dh, dst.Length) && Within(dt, dst.Length) && Apart(dh, dt)
    modifies dst
    ensures copied == Least(amount, sh.len + st.len, dh.len + dt.len)
    ensures CopiedPrefix(src, sh, st, dst, dh, dt, copied, old(dst[..]))
  {
    ghost var before := dst[..];
    assert CopiedPrefix(src, sh, st, dst, dh, dt, 0, before);
    var left := amount;
    // source head into destination head
    var n1 := Least(left, sh.len, dh.len);
    if n1 > 0 {
      CopyStep(src, sh, st, sh.start, dst, dh, dt, dh.start, 0, n1, before);
    }
    left := left - n1;
    if left == 0 {
      return amount;
    }
    // rest of the source head into the destination tail
    var n2 := Least(left, sh.len - n1, dt.len);
    if n2 > 0 {
      assert n1 == dh.len;
      CopyStep(src, sh, st, sh.start + n1, dst, dh, dt, dt.start, n1, n2, before);
    }
    left := left - n2;
    if left == 0 {
      return amount;
    }
    copied := CopySourceTail(src, sh, st, dst, dh, dt, n1, n2, left, before);
  }

  /// The steps of `copy_slices` that read the source tail, once `n1` and `n2`
  /// elements have gone from the source head into the destination head and
  /// tail and `left` elements are still wanted.
  method CopySourceTail<T>(src: array<T>, sh: Span, st: Span,
                           dst: array<T>, dh: Span, dt: Span,
                           n1: nat, n2: nat, left: nat, ghost before: seq<T>) returns (copied: nat)
    requires src != dst && |before| == dst.Length
    requires Within(sh, src.Length) && Within(st, src.Length)
    requires Within(dh, dst.Length) && Within(dt, dst.Length) && Apart(dh, dt)
    requires left > 0 && n1 <= dh.len && n1 + n2 <= sh.len && n2 <= dt.len
    requires n1 == sh.len || n1 == dh.len
    requires n1 + n2 == sh.len || n2 == dt.len
    requires CopiedPrefix(src, sh, st, dst, dh, dt, n1 + n2, before)
    modifies dst
    ensures copied == n1 + n2 + Least(left, sh.len + st.len - n1 - n2, dh.len + dt.len - n1 - n2)
    ensures CopiedPrefix(src, sh, st, dst, dh, dt, copied, before)
  {
    TailSteps(sh.len, st.len, dh.len, dt.len, n1, n2, left);
    copied := n1 + n2;
    // source tail into the rest of the destination head
    var n3 := Least(left, st.len, dh.len - n1);
    if n3 > 0 {
      CopyStep(src, sh, st, st.start, dst, dh, dt, dh.start + n1, copied, n3, before);
      copied := copied + n3;
    }
    if left - n3 > 0 {
      // rest of the source tail into the rest of the destination tail
      var n4 := Least(left - n3, st.len - n3, dt.len - n2);
      if n4 > 0 {
        CopyStep(src, sh, st, st.start + n3, dst, dh, dt, dt.start + n2, copied, n4, before);
        copied := copied + n4;
      }
    }
  }

  /// The counts of the last two steps of `copy_slices`: where each step reads
  /// and writes, and that together the four steps move as much as wanted and
  /// available.
  lemma TailSteps(sh: nat, st: nat, dh: nat, dt: nat, n1: nat, n2: nat, left: nat)
    requires left > 0 && n1 <= dh && n1 + n2 <= sh && n2 <= dt
    requires n1 == sh || n1 == dh
    requires n1 + n2 == sh || n2 == dt
    ensures var n3 := Least(left, st, dh - n1);
      && (n3 > 0 ==> n1 == sh && n2 == 0)
      && (left - n3 == 0 ==> n1 + n2 + n3 == n1 + n2 + Least(left, sh + st - n1 - n2, dh + dt - n1 - n2))
      && (left - n3 > 0 ==>
            var n4 := Least(left - n3, st - n3, dt - n2);
            && (n4 > 0 ==> n1 + n2 == sh && n1 + n3 == dh)
            && n1 + n2 + n3 + n4 == n1 + n2 + Least(left, sh + st - n1 - n2, dh + dt - n1 - n2))
  {
  }

  /// A ring buffer over a fixed storage array: `len` elements from slot `read`.
  class KBuf<T> {
    const storage: array<T>
    var read: nat
    var len: nat
    /// The buffered elements, oldest first.
    ghost var Contents: seq<T>

    ghost predicate Valid()
      reads this, storage
    {
      0 < storage.Length && read < storage.Length && len <= storage.Length
      && |Contents| == len
      && forall i | 0 <= i < len :: Contents[i] == storage[Ring(read, i, storage.Length)]
    }

    /// `KBufCore::new`: an empty buffer over `storage`, read and write indices 0.
    constructor(storage: array<T>)
      requires storage.Length > 0
      ensures Valid() && fresh(this)
      ensures this.storage == storage && read == 0 && len == 0
      ensures Contents == []
    {
      this.storage := storage;
      read := 0;
      len := 0;
      Contents := [];
    }

    /// `try_push`: appends `x` unless the buffer is full, in which case `x`
    /// is handed back.
    method TryPush(x: T) returns (rejected: Option<T>)
      requires Valid()
      modifies this, storage
      ensures Valid()
      ensures rejected.Some? <==> old(len) == storage.Length
      ensures rejected.Some? ==> rejected.value == x && Contents == old(Contents)
      ensures rejected.None? ==> Contents == old(Contents) + [x]
    {
      if len == storage.Length {
        return Some(x);
      }
      storage[Ring(read, len, storage.Length)] := x;
      len := len + 1;
      Contents := Contents + [x];
      rejected := None;
    }

    /// `try_pop`: removes and returns the oldest element, or None when empty.
    method TryPop() returns (r: Option<T>)
      requires Valid()
      modifies this
      ensures Valid()
      ensures r.None? <==> old(len) == 0
      ensures r.None? ==> Contents == old(Contents)
      ensures r.Some? ==> r.value == old(Contents)[0] && Contents == old(Contents)[1..]
    {
      if len == 0 {
        return None;
      }
      r := Some(storage[read]);
      forall i | 0 <= i < len - 1
        ensures Contents[i + 1] == storage[Ring(Ring(read, 1, storage.Length), i, storage.Length)]
      {
        RingAdd(read, 1, i, storage.Length);
      }
      read := Ring(read, 1, storage.Length);
      len := len - 1;
      Contents := Contents[1..];
    }

    /// `try_push_slice`: appends as many leading elements of `src` as fit.
    method TryPushSlice(src: seq<T>) returns (n: nat)
      requires Valid()
      modifies this, storage
      ensures Valid()
      ensures n == Min(|src|, storage.Length - old(len))
      ensures Contents == old(Contents) + src[..n]
    {
      n := Min(|src|, storage.Length - len);
      for i := 0 to n
        invariant Valid()
        invariant Contents == old(Contents) + src[..i]
      {
        var rejected := TryPush(src[i]);
        assert src[..i + 1] == src[..i] + [src[i]];
      }
    }

    /// `try_pop_slice`: moves as many of the oldest elements as `dst` holds
    /// into the front of `dst`.
    method TryPopSlice(dst: array<T>) returns (n: nat)
      requires Valid() && dst != storage
      modifies this, dst
      ensures Valid()
      ensures n == Min(dst.Length, old(len))
      ensures dst[..n] == old(Contents)[..n] && dst[n..] == old(dst[n..])
      ensures Contents == old(Contents)[n..]
    {
      n := Min(dst.Length, len);
      for i := 0 to n
        invariant Valid()
        invariant Contents == old(Contents)[i..]
        invariant dst[..i] == old(Contents)[..i] && dst[i..] == old(dst[i..])
      {
        var r := TryPop();
        dst[i] := r.value;
        assert dst[..i + 1] == dst[..i] + [dst[i]];
      }
    }

    /// The occupied slots, as the run to the end of the array then the run
    /// that wrapped to its start.
    function OccupiedSpans(): (r: (Span, Span))
      requires Valid()
      reads this, storage
      ensures r.0.len + r.1.len == len && Within(r.0, storage.Length) && Within(r.1, storage.Length)
      ensures forall k | 0 <= k < len :: Pos(r.0, r.1, k) == Ring(read, k, storage.Length)
    {
      var h := Min(len, storage.Length - read);
      (Span(read, h), Span(0, len - h))
    }

    /// The vacant slots, from the write index to the end of the array then
    /// from its start.
    function VacantSpans(): (r: (Span, Span))
      requires Valid()
      reads this, storage
      ensures r.0.len + r.1.len == storage.Length - len
      ensures Within(r.0, storage.Length) && Within(r.1, storage.Length) && Apart(r.0, r.1)
      ensures forall k | 0 <= k < storage.Length - len ::
        Pos(r.0, r.1, k) == Ring(read, len + k, storage.Length)
    {
      var w := Ring(read, len, storage.Length);
      var h := Min(storage.Length - len, storage.Length - w);
      (Span(w, h), Span(0, storage.Length - len - h))
    }

    /// One attempt of `splice_from`: moves up to `count` of `source`'s oldest
    /// elements to the end of this buffer. Nothing happens, and 0 is
    /// returned, for a zero count or when `source` is this same buffer. When
    /// nothing can move the call would wait, shown as None.
    method SpliceFrom(source: KBuf<T>, count: nat) returns (r: Option<nat>)
      requires Valid() && source.Valid()
      requires source == this || source.storage != storage
      modifies this, storage, source
      ensures Valid() && source.Valid()
      ensures count == 0 || source == this ==>
        r == Some(0) && Contents == old(Contents) && source.Contents == old(source.Contents)
      ensures count > 0 && source != this ==>
        var n := Min(count, Min(old(source.len), storage.Length - old(len)));
        (n == 0 ==> r.None? && Contents == old(Contents) && source.Contents == old(source.Contents))
        && (n > 0 ==> r == Some(n)
                      && Contents == old(Contents) + old(source.Contents)[..n]
                      && source.Contents == old(source.Contents)[n..])
    {
      if count == 0 || source == this {
        return Some(0);
      }
      var toMove := Min(count, Min(source.len, storage.Length - len));
      if toMove == 0 {
        return None;
      }
      var (sh, st) := source.OccupiedSpans();
      var (dh, dt) := VacantSpans();
      ghost var oldStore := storage[..];
      var copied := CopySlices(source.storage, sh, st, storage, dh, dt, toMove);
      assert copied == toMove;
      ghost var moved := source.Contents[..copied];
      forall i | 0 <= i < len + copied
        ensures (Contents + moved)[i] == storage[Ring(read, i, storage.Length)]
      {
        if i < len {
          assert !Covered(dh, dt, copied, Ring(read, i, storage.Length));
        } else {
          assert Pos(dh, dt, i - len) == Ring(read, i, storage.Length);
        }
      }
      forall i | 0 <= i < source.len - copied
        ensures source.Contents[copied + i]
             == source.storage[Ring(Ring(source.read, copied, source.storage.Length), i, source.storage.Length)]
      {
        RingAdd(source.read, copied, i, source.storage.Length);
      }
      Contents := Contents + moved;
      len := len + copied;
      source.Contents := source.Contents[copied..];
      source.read := Ring(source.read, copied, source.storage.Length);
      source.len := source.len - copied;
      r := Some(copied);
    }
  }

  /// Elements leave in the order they entered: two pushes into an empty
  /// buffer with room for both are popped back first-in first-out.
  method FifoOrder<T>(b: KBuf<T>, x: T, y: T) returns (first: Option<T>, second: Option<T>)
    requires b.Valid() && b.len == 0 && b.storage.Length >= 2
    modifies b, b.storage
    ensures b.Valid() && b.Contents == []
    ensures first == Some(x) && second == Some(y)
  {
    var r1 := b.TryPush(x);
    var r2 := b.TryPush(y);
    first := b.TryPop();
    second := b.TryPop();
  }
}
