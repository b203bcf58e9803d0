/// The slab manager of one size class: a `partial` list served first, a
/// `free` list of empty slabs kept as a cache, and full slabs that belong to no
/// list ("floating"). The kernel's slab allocator reaches a slab from an object
/// pointer through the frame list; here the caller passes the slab that lookup finds.
module SlabAllocator {
  import opened Common
  import opened Slabs

  const MAX_FREE_SLABS: nat := 32
  /// How many free slabs one batch hands back to the frame allocator.
  const BATCH_FREE: nat := 16

  /// `Freed` carries the slabs handed back to the frame allocator;
  /// `LayoutMismatch` stands for the panic on a slab of another size class.
  datatype FreeOutcome = Freed(released: seq<Slab>) | LayoutMismatch

  predicate NoDups(ss: seq<Slab>)
  {
    forall i, j | 0 <= i < j < |ss| :: ss[i] != ss[j]
  }

  /// `ss` with `x` unlinked, the others in their order.
  function Without(ss: seq<Slab>, x: Slab): (r: seq<Slab>)
    ensures forall t | t in r :: t in ss && t != x
    ensures forall t | t in ss && t != x :: t in r
    ensures NoDups(ss) ==> NoDups(r)
    ensures x !in ss ==> r == ss
  {
    if ss == [] then []
    else if ss[0] == x then Without(ss[1..], x)
    else
      var rest := Without(ss[1..], x);
      assert NoDups(ss) ==> ss[0] !in rest;
      [ss[0]] + rest
  }

  /// Every slab on `ss` is well formed, of size class `shift` and, unless it
  /// is pending, in state `st`.
  ghost predicate Listed(ss: seq<Slab>, shift: nat, st: SlabState, pending: set<Slab>)
    reads set s | s in ss
  {
    forall i | 0 <= i < |ss| :: ss[i].Valid() && ss[i].objShift == shift && (ss[i] !in pending ==> ss[i].State() == st)
  }

  /// The same for the floating slabs, which form a set.
  ghost predicate Placed(ss: set<Slab>, shift: nat, st: SlabState, pending: set<Slab>)
    reads ss
  {
    forall s | s in ss :: s.Valid() && s.objShift == shift && (s !in pending ==> s.State() == st)
  }

  lemma ListedSuffix(ss: seq<Slab>, k: nat, shift: nat, st: SlabState, pending: set<Slab>)
    requires Listed(ss, shift, st, pending) && k <= |ss|
    ensures Listed(ss[k..], shift, st, pending)
  {
    forall i | 0 <= i < |ss| - k ensures ss[k..][i] == ss[i + k] { }
  }

  lemma ListedPush(x: Slab, ss: seq<Slab>, shift: nat, st: SlabState, pending: set<Slab>)
    requires x.Valid() && x.objShift == shift && x.State() == st
    requires Listed(ss, shift, st, pending)
    ensures Listed([x] + ss, shift, st, pending)
  {
    forall i | 1 <= i < |ss| + 1 ensures ([x] + ss)[i] == ss[i - 1] { }
  }

  /// A pending slab that is not on the list, or is on it in the list's state,
  /// is pending no more.
  lemma ListedSettle(ss: seq<Slab>, x: Slab, shift: nat, st: SlabState, pending: set<Slab>)
    requires Listed(ss, shift, st, pending) && (x in ss ==> x.State() == st)
    ensures Listed(ss, shift, st, pending - {x})
  {
    forall i | 0 <= i < |ss| && ss[i] == x ensures x.State() == st { }
  }

  /// Unlinking a slab also settles it: it is no longer pending on that list.
  lemma ListedWithout(ss: seq<Slab>, x: Slab, shift: nat, st: SlabState, pending: set<Slab>)
    requires Listed(ss, shift, st, pending)
    ensures Listed(Without(ss, x), shift, st, pending - {x})
  {
    var r := Without(ss, x);
    forall i | 0 <= i < |r|
      ensures r[i].Valid() && r[i].objShift == shift && (r[i] !in pending - {x} ==> r[i].State() == st)
    {
      assert r[i] in ss && r[i] != x;
      var j :| 0 <= j < |ss| && ss[j] == r[i];
    }
  }

  class SlabManager {
    var partial: seq<Slab>
    var free: seq<Slab>
    var freeListSz: nat
    const objShift: nat
    /// The full slabs, on neither list; the allocator reaches them only
    /// through the frame list.
    ghost var floating: set<Slab>

    /// Every slab this size class owns.
    ghost function Owned(): set<Slab>
      reads this
    {
      (set s | s in partial) + (set s | s in free) + floating
    }

    /// The manager's invariant, except that slabs in `pending` (one whose
    /// object was just returned) need not yet be where their state puts them.
    ghost predicate Inv(pending: set<Slab>)
      reads this, Owned()
    {
      && objShift <= SLAB_MAX_OBJ_SHIFT
      && Listed(partial, objShift, Partial, pending)
      && Listed(free, objShift, Free, pending)
      && Placed(floating, objShift, Full, pending)
      && NoDups(partial) && NoDups(free)
      && (forall s | s in pending :: s !in free && !(s in partial && s in floating))
    }

    /// Partial slabs are on `partial`, free ones on `free`, full ones float;
    /// `freeListSz` counts `free` and never exceeds MAX_FREE_SLABS.
    ghost predicate Valid()
      reads this, Owned()
    {
      Inv({}) && freeListSz == |free| <= MAX_FREE_SLABS
    }

    constructor (shift: nat)
      requires shift <= SLAB_MAX_OBJ_SHIFT
      ensures Valid() && objShift == shift
      ensures partial == [] && free == [] && freeListSz == 0 && floating == {}
    {
      objShift := shift;
      partial, free, freeListSz := [], [], 0;
      floating := {};
    }

    /// Allocates from the head of `partial`; the slab stays at the front
    /// while it is still partial and starts floating when it becomes full.
    method AllocFromPartial() returns (p: Option<nat>)
      requires Valid() && partial != []
      modifies this`partial, this`floating, partial[0]
      ensures Valid() && free == old(free)
      ensures var s := old(partial)[0];
        && p == Some(s.SlotAddr(old(s.FreeList)[0]))
        && s.FreeList == old(s.FreeList)[1..]
        && (s.State() == Partial ==> partial == old(partial) && floating == old(floating))
        && (s.State() == Full ==> partial == old(partial)[1..] && floating == old(floating) + {s})
    {
      var s := partial[0];
      s.AllocatedSize();
      assert s !in free && s !in floating;
      p := s.AllocObject();
      if s.State() == Partial {
        RelinkPartial(s);
      } else {
        FloatFull(s);
      }
    }

    /// Unlinks the slab at the head of `partial`, which has just become
    /// full, and lets it float.
    method FloatFull(s: Slab)
      requires Inv({s}) && partial != [] && s == partial[0] && s.State() == Full
      requires freeListSz == |free| <= MAX_FREE_SLABS
      modifies this`partial, this`floating
      ensures Valid() && free == old(free)
      ensures partial == old(partial)[1..] && floating == old(floating) + {s}
    {
      ListedSuffix(partial, 1, objShift, Partial, {s});
      ListedSettle(partial[1..], s, objShift, Partial, {s});
      ListedSettle(free, s, objShift, Free, {s});
      partial := partial[1..];
      floating := floating + {s};
    }

    /// Allocates from the head of `free`; the slab, now partial, moves to the
    /// front of `partial`.
    method AllocFromFree() returns (p: Option<nat>)
      requires Valid() && partial == [] && free != []
      modifies this`partial, this`free, this`freeListSz, free[0]
      ensures Valid() && floating == old(floating)
      ensures var s := old(free)[0];
        && p == Some(s.SlotAddr(old(s.FreeList)[0]))
        && s.FreeList == old(s.FreeList)[1..]
        && free == old(free)[1..]
        && partial == [s]
    {
      var s := free[0];
      ListedSuffix(free, 1, objShift, Free, {});
      assert s !in free[1..] && s !in floating;
      free := free[1..];
      freeListSz := freeListSz - 1;
      s.AllocatedSize();
      p := s.AllocObject();
      assert Listed(free, objShift, Free, {});
      assert Placed(floating, objShift, Full, {});
      ListedPush(s, partial, objShift, Partial, {});
      partial := [s] + partial;
    }

    /// Serves from `partial` first, then from `free`, and returns `None` only
    /// when both are empty. Takes no new memory.
    method TryAlloc() returns (p: Option<nat>)
      requires Valid()
      modifies this`partial, this`free, this`freeListSz, this`floating, Owned()
      ensures Valid()
      ensures p.None? <==> old(partial) == [] && old(free) == []
      ensures p.None? ==> partial == old(partial) && free == old(free) && floating == old(floating)
      ensures old(partial) != [] ==>
        var s := old(partial)[0];
        && p == Some(s.SlotAddr(old(s.FreeList)[0]))
        && s.FreeList == old(s.FreeList)[1..]
        && free == old(free)
        && (s.State() == Partial ==> partial == old(partial) && floating == old(floating))
        && (s.State() == Full ==> partial == old(partial)[1..] && floating == old(floating) + {s})
      ensures old(partial) == [] && old(free) != [] ==>
        var s := old(free)[0];
        && p == Some(s.SlotAddr(old(s.FreeList)[0]))
        && s.FreeList == old(s.FreeList)[1..]
        && free == old(free)[1..]
        && partial == [s] && floating == old(floating)
    {
      if partial != [] {
        p := AllocFromPartial();
      } else if free != [] {
        p := AllocFromFree();
      } else {
        p := None;
      }
    }

    /// The fast path first; when it finds nothing, a fresh slab is built on
    /// the frames at `frameBase` (handed over by the frame allocator), its
    /// first object is returned and it joins `partial`.
    method Alloc(frameBase: nat) returns (p: nat)
      requires Valid() && 1 <= objShift
      modifies this`partial, this`free, this`freeListSz, this`floating, Owned()
      ensures Valid()
      ensures old(partial) == [] && old(free) == [] ==>
        && p == frameBase
        && |partial| == 1 && fresh(partial[0])
        && partial[0].base == frameBase && partial[0].objShift == objShift
        && [0] + partial[0].FreeList == Range(Capacity(objShift))
        && free == [] && floating == old(floating)
      ensures old(partial) != [] || old(free) != [] ==>
        var s := if old(partial) != [] then old(partial)[0] else old(free)[0];
        && p == s.SlotAddr(old(s.FreeList)[0])
        && s.FreeList == old(s.FreeList)[1..]
      ensures old(partial) != [] ==>
        var s := old(partial)[0];
        && free == old(free)
        && (s.State() == Partial ==> partial == old(partial) && floating == old(floating))
        && (s.State() == Full ==> partial == old(partial)[1..] && floating == old(floating) + {s})
      ensures old(partial) == [] && old(free) != [] ==>
        var s := old(free)[0];
        && free == old(free)[1..]
        && partial == [s] && floating == old(floating)
    {
      var q := TryAlloc();
      if q.Some? {
        p := q.value;
        return;
      }
      var s := new Slab(SLAB_SIZE_BYTES, frameBase, objShift);
      var obj := s.AllocObject();
      p := obj.value;
      assert s.State() == Partial;
      partial := [s] + partial;
    }

    /// Returns the object to its slab. The slab was not free before (it had
    /// this object out) and is not full after.
    method PutBack(s: Slab, ptr: nat)
      requires Valid() && s in Owned()
      requires s.base <= ptr < s.base + SLAB_SIZE_BYTES
      requires (ptr - s.base) % s.ObjSize() == 0 && (ptr - s.base) / s.ObjSize() in s.Allocated()
      modifies s
      ensures Inv({s}) && s in Owned() && s.State() != Full && freeListSz == |free| <= MAX_FREE_SLABS
      ensures s.FreeList == [(ptr - s.base) / s.ObjSize()] + old(s.FreeList)
    {
      s.AllocatedSize();
      assert s.State() != Free;
      assert s !in free;
      assert !(s in partial && s in floating);
      s.PutObject(ptr);
    }

    /// Hands the first BATCH_FREE slabs of a full `free` list back to the
    /// frame allocator, one at a time, and then lowers the count.
    method ReleaseBatch(ghost pending: Slab) returns (released: seq<Slab>)
      requires Inv({pending}) && freeListSz == |free| == MAX_FREE_SLABS
      modifies this`free, this`freeListSz
      ensures Inv({pending}) && freeListSz == |free|
      ensures released == old(free)[..BATCH_FREE] && free == old(free)[BATCH_FREE..]
    {
      released := [];
      for k := 0 to BATCH_FREE
        invariant free == old(free)[k..] && released == old(free)[..k]
        invariant Inv({pending}) && freeListSz == MAX_FREE_SLABS
      {
        released := released + [free[0]];
        free := free[1..];
      }
      freeListSz := freeListSz - BATCH_FREE;
    }

    /// Unlinks a slab that has become free from `partial` (or from the
    /// floating full slabs) and pushes it on the front of `free`.
    method CacheFree(s: Slab)
      requires Inv({s}) && s in Owned() && s.State() == Free && freeListSz == |free| < MAX_FREE_SLABS
      modifies this`partial, this`free, this`freeListSz, this`floating
      ensures Valid()
      ensures partial == Without(old(partial), s) && floating == old(floating) - {s}
      ensures free == [s] + old(free) && freeListSz == old(freeListSz) + 1
    {
      ListedWithout(partial, s, objShift, Partial, {s});
      ListedSettle(free, s, objShift, Free, {s});
      ListedPush(s, free, objShift, Free, {});
      partial := Without(partial, s);
      floating := floating - {s};
      free := [s] + free;
      freeListSz := freeListSz + 1;
    }

    /// Puts a slab that has become partial on the front of `partial` unless
    /// it is there already.
    method RelinkPartial(s: Slab)
      requires Inv({s}) && s in Owned() && s.State() == Partial && freeListSz == |free| <= MAX_FREE_SLABS
      modifies this`partial, this`floating
      ensures Valid() && free == old(free) && floating == old(floating) - {s}
      ensures partial == if s in old(partial) then old(partial) else [s] + old(partial)
    {
      ListedSettle(partial, s, objShift, Partial, {s});
      ListedSettle(free, s, objShift, Free, {s});
      if s !in partial {
        ListedPush(s, partial, objShift, Partial, {});
        partial := [s] + partial;
      }
      floating := floating - {s};
    }

    /// Frees the object at `ptr`, which lies in slab `s`. A slab of another
    /// size class is refused. A slab that becomes free moves to `free`, after
    /// half of a full `free` list has been released; a full slab that becomes
    /// partial joins `partial`.
    method FreeObject(s: Slab, ptr: nat) returns (r: FreeOutcome)
      requires Valid() && s.Valid()
      requires s.objShift == objShift ==> s in Owned()
      requires s.base <= ptr < s.base + SLAB_SIZE_BYTES
      requires (ptr - s.base) % s.ObjSize() == 0 && (ptr - s.base) / s.ObjSize() in s.Allocated()
      modifies this`partial, this`free, this`freeListSz, this`floating, s
      ensures Valid()
      ensures s.objShift != objShift ==> r == LayoutMismatch && unchanged(this) && unchanged(s)
      ensures s.objShift == objShift ==>
        && r.Freed?
        && s.FreeList == [(ptr - s.base) / s.ObjSize()] + old(s.FreeList)
        && s.State() != Full
        && floating == old(floating) - {s}
      ensures s.objShift == objShift && s.State() == Free ==>
        var batch := old(freeListSz) == MAX_FREE_SLABS;
        && r.released == (if batch then old(free)[..BATCH_FREE] else [])
        && free == [s] + (if batch then old(free)[BATCH_FREE..] else old(free))
        && partial == Without(old(partial), s)
      ensures s.objShift == objShift && s.State() == Partial ==>
        && r.released == []
        && free == old(free)
        && partial == if s in old(partial) then old(partial) else [s] + old(partial)
    {
      if s.objShift != objShift {
        return LayoutMismatch;
      }
      PutBack(s, ptr);
      if s.State() == Free {
        var released := [];
        if freeListSz == MAX_FREE_SLABS {
          released := ReleaseBatch(s);
        }
        CacheFree(s);
        r := Freed(released);
      } else {
        RelinkPartial(s);
        r := Freed([]);
      }
    }
  }

  /// The fourteen size classes: manager n serves objects of 2^n bytes.
  class SlabAllocators {
    const managers: seq<SlabManager>

    ghost predicate Valid()
      reads this
    {
      && |managers| == SLAB_MAX_OBJ_SHIFT + 1
      && forall n | 0 <= n < |managers| :: managers[n].objShift == n
    }

    constructor ()
      ensures Valid() && fresh(set m | m in managers)
      ensures forall n | 0 <= n < |managers| ::
                managers[n].Valid() && managers[n].partial == [] && managers[n].free == []
    {
      var ms: seq<SlabManager> := [];
      for n := 0 to SLAB_MAX_OBJ_SHIFT + 1
        invariant |ms| == n && fresh(set m | m in ms)
        invariant forall k | 0 <= k < n ::
                    ms[k].objShift == k && ms[k].Valid() && ms[k].partial == [] && ms[k].free == []
      {
        var m := new SlabManager(n);
        ms := ms + [m];
      }
      managers := ms;
    }

    /// The manager for an allocation of the given size order, or `None` when
    /// the layout has no order (too large for the slab allocator). The order
    /// must name one of the fourteen classes.
    function ForLayout(order: Option<nat>): (r: Option<SlabManager>)
      requires Valid()
      requires order.Some? ==> order.value <= SLAB_MAX_OBJ_SHIFT
      reads this, set m | m in managers
      ensures r.None? <==> order.None?
      ensures r.Some? ==> r.value in managers && r.value.objShift == order.value
    {
      if order.None? then None else Some(managers[order.value])
    }
  }

  /// The bookkeeping of the `free` list that the slab manager keeps: its length
  /// and the `free_list_sz` counter.
  datatype Tally = Tally(freeLen: nat, freeListSz: nat)

  /// One allocation as `try_alloc` is written: taking a slab from `free`
  /// shortens the list but leaves the counter alone; with `free` empty the
  /// slab comes from the frame allocator.
  function AllocTallyAsWritten(t: Tally): (r: Tally)
    ensures r.freeListSz == t.freeListSz
    ensures r.freeLen == if t.freeLen > 0 then t.freeLen - 1 else 0
  {
    if t.freeLen > 0 then Tally(t.freeLen - 1, t.freeListSz) else t
  }

  /// The same allocation with the counter kept in step with the list.
  function AllocTally(t: Tally): (r: Tally)
    requires t.freeLen == t.freeListSz
    ensures r.freeLen == r.freeListSz
    ensures r.freeLen == if t.freeLen > 0 then t.freeLen - 1 else 0
  {
    if t.freeLen > 0 then Tally(t.freeLen - 1, t.freeListSz - 1) else t
  }

  /// A slab becoming free: when the counter is at MAX_FREE_SLABS, BATCH_FREE
  /// slabs are popped first, and a pop from an empty list panics (`None`);
  /// then the slab is pushed.
  function FreeTally(t: Tally): (r: Option<Tally>)
    ensures t.freeListSz != MAX_FREE_SLABS ==> r == Some(Tally(t.freeLen + 1, t.freeListSz + 1))
    ensures t.freeListSz == MAX_FREE_SLABS ==>
      r == if t.freeLen < BATCH_FREE then None
           else Some(Tally(t.freeLen - BATCH_FREE + 1, t.freeListSz - BATCH_FREE + 1))
  {
    if t.freeListSz == MAX_FREE_SLABS then
      if t.freeLen < BATCH_FREE then None
      else Some(Tally(t.freeLen - BATCH_FREE + 1, t.freeListSz - BATCH_FREE + 1))
    else Some(Tally(t.freeLen + 1, t.freeListSz + 1))
  }

  /// `n` slabs becoming free one after another, none of them listed before.
  function Frees(t: Tally, n: nat): Option<Tally>
    decreases n
  {
    if n == 0 then Some(t)
    else
      match FreeTally(t)
      case None => None
      case Some(t') => Frees(t', n - 1)
  }

  /// Below MAX_FREE_SLABS each slab that becomes free is simply cached.
  lemma {:induction false} FreesBelowLimit(k: nat, n: nat, m: nat)
    requires k + n <= MAX_FREE_SLABS
    ensures Frees(Tally(k, k), n + m) == Frees(Tally(k + n, k + n), m)
    decreases n
  {
    if n > 0 {
      assert FreeTally(Tally(k, k)) == Some(Tally(k + 1, k + 1));
      FreesBelowLimit(k + 1, n - 1, m);
    } else {
      assert n + m == m;
    }
  }

  /// Freeing every object of 33 full slabs: the 33rd slab to become free
  /// finds the counter at MAX_FREE_SLABS, 16 slabs go back to the frame
  /// allocator first, and 17 stay cached.
  lemma BatchFreeingThreshold()
    ensures Frees(Tally(0, 0), 33) == Some(Tally(17, 17))
  {
    FreesBelowLimit(0, 32, 1);
    assert FreeTally(Tally(32, 32)) == Some(Tally(17, 17));
  }

  /// `n` rounds of allocating one object and freeing it again, as written.
  function CyclesAsWritten(t: Tally, n: nat): Option<Tally>
    decreases n
  {
    if n == 0 then Some(t)
    else
      match FreeTally(AllocTallyAsWritten(t))
      case None => None
      case Some(t') => CyclesAsWritten(t', n - 1)
  }

  /// The same rounds with the counter kept in step.
  function Cycles(t: Tally, n: nat): Option<Tally>
    requires t.freeLen == t.freeListSz
    decreases n
  {
    if n == 0 then Some(t)
    else
      match FreeTally(AllocTally(t))
      case None => None
      case Some(t') => if t'.freeLen == t'.freeListSz then Cycles(t', n - 1) else None
  }

  /// As written, every round on a lone free slab raises the counter while the
  /// list stays one long.
  lemma {:induction false} CounterDrifts(k: nat, n: nat, m: nat)
    requires 1 <= k && k + n <= MAX_FREE_SLABS
    ensures CyclesAsWritten(Tally(1, k), n + m) == CyclesAsWritten(Tally(1, k + n), m)
    decreases n
  {
    if n > 0 {
      assert FreeTally(AllocTallyAsWritten(Tally(1, k))) == Some(Tally(1, k + 1));
      CounterDrifts(k + 1, n - 1, m);
    }
  }

  /// Allocating and freeing one object 33 times on a fresh manager panics as
  /// written: after 32 rounds the counter reads 32 with one slab listed, and
  /// the 33rd free tries to release 16 slabs from an empty list.
  lemma FreeListPanicAsWritten()
    ensures CyclesAsWritten(Tally(0, 0), 32) == Some(Tally(1, 32))
    ensures CyclesAsWritten(Tally(0, 0), 33) == None
  {
    assert FreeTally(AllocTallyAsWritten(Tally(0, 0))) == Some(Tally(1, 1));
    CounterDrifts(1, 31, 0);
    CounterDrifts(1, 31, 1);
    assert FreeTally(AllocTallyAsWritten(Tally(1, 32))) == None;
  }

  /// With the counter kept in step, rounds never panic and the counter
  /// always equals the list length, at most MAX_FREE_SLABS.
  lemma {:induction false} CyclesStayBalanced(t: Tally, n: nat)
    requires t.freeLen == t.freeListSz <= MAX_FREE_SLABS
    ensures Cycles(t, n).Some?
    ensures Cycles(t, n).value.freeLen == Cycles(t, n).value.freeListSz <= MAX_FREE_SLABS
    decreases n
  {
    if n > 0 {
      var a := AllocTally(t);
      assert a.freeLen < MAX_FREE_SLABS;
      var t' := Tally(a.freeLen + 1, a.freeListSz + 1);
      assert FreeTally(a) == Some(t');
      CyclesStayBalanced(t', n - 1);
    }
  }
}
