/** The lifecycle of a byref cell (a __block variable): promotion from the
    stack to the heap by _Block_byref_copy, and _Block_byref_release. Every
    holder reaches the cell's storage through its forwarding pointer. */
module Byrefs {
  import opened Flags
  import opened Refcount
  import opened Memory

  predicate IsHeapCell(c: Byref) {
    Has(c.flags, ByrefNeedsFree)
  }

  predicate HasHelpers(c: Byref) {
    Has(c.flags, ByrefHasCopyDispose)
  }

  /** The cell at `p` with its flags word replaced; nothing else differs. */
  function WithCellFlags(m: Memory, p: Ptr, f: Word): (r: Memory)
    requires m.Valid() && m.IsCell(p)
    ensures r.Valid() && r.IsCell(p) && r.objs.Keys == m.objs.Keys
    ensures r.CellAt(p).flags == f
  {
    m.Put(p, CellObj(m.CellAt(p).(flags := f)))
  }

  /** The flags of a freshly promoted cell: the source's flags with the heap
      bit and the scaled count 4 or-ed in, so a cell promoted from a zero
      count starts with two owners, the caller and the stack frame. */
  function PromotedFlags(f: Word): (g: Word)
    ensures Upper(g) == Upper(f) | ByrefNeedsFree
    ensures IsDeallocating(g) == IsDeallocating(f)
    ensures Has(g, ByrefHasCopyDispose) == Has(f, ByrefHasCopyDispose)
    ensures Count(g) == Count(f) | 2
    ensures Count(f) == 0 ==> Count(g) == 2
    ensures Count(g) != 0
  {
    f | ByrefNeedsFree | 4
  }

  /** The heap cell that promotion of `src` builds at address `q`. With
      helpers, the keep and destroy pointers (and the layout, when the
      layout is extended) are copied and the variable is left for the keep
      helper; without them, everything after the header is copied bit for
      bit. */
  function PromotedCell(src: Byref, q: Ptr): (c: Byref)
  {
    var f := PromotedFlags(src.flags);
    if src.flags & ByrefHasCopyDispose != 0 then
      var layout := if src.flags & ByrefLayoutExtended != 0 then src.layout else None;
      Byref(NoClass, q, f, src.size, src.keep, src.destroy, layout, Unwritten)
    else
      Byref(NoClass, q, f, src.size, src.keep, src.destroy, src.layout, src.value)
  }

  /** The keep helper call of a promotion, if the cell has helpers. */
  function KeepCalls(src: Byref, dst: Ptr, p: Ptr): (r: seq<Event>)
  {
    if HasHelpers(src) then [CallByrefKeep(src.keep, dst, p)] else []
  }

  /** _Block_byref_copy. The authoritative cell is the one `p` forwards
      to. If its count is zero it has never been promoted: a heap cell is
      allocated with two owners (the caller and the stack frame), both
      forwarding pointers are aimed at it, and its variable is handed to the
      keep helper or bit-copied. If it is already on the heap it gains an
      owner. Either way the answer is the forwarding pointer of `p`.
      Allocation is assumed to succeed: the source does not check it. */
  function ByrefCopy(m: Memory, p: Ptr): (r: Step<Ptr>)
    requires m.Valid() && m.IsCell(p) && m.IsCell(m.CellAt(p).forwarding)
    ensures r.mem.Valid() && r.mem.IsCell(p) && r.mem.IsCell(r.result)
    ensures r.result == r.mem.CellAt(p).forwarding
    ensures var src := m.CellAt(p); var fwd := m.CellAt(src.forwarding);
      Count(fwd.flags) == 0 ==>
        && r.result != Null && r.result !in m.objs
        && r.mem.objs == m.objs[p := CellObj(src.(forwarding := r.result))][r.result := r.mem.objs[r.result]]
        && var c := r.mem.CellAt(r.result);
        && c.isa == NoClass && c.forwarding == r.result && c.size == src.size
        && c.flags == PromotedFlags(src.flags)
        && (HasHelpers(src) ==> c.keep == src.keep && c.destroy == src.destroy && c.value == Unwritten)
        && (!HasHelpers(src) ==> c.value == src.value)
        && c.layout == (if !HasHelpers(src) || Has(src.flags, ByrefLayoutExtended) then src.layout else None)
        && r.trace == KeepCalls(src, r.result, p)
    ensures var src := m.CellAt(p); var fwd := m.CellAt(src.forwarding);
      Count(fwd.flags) != 0 && IsHeapCell(fwd) ==>
        && r.result == src.forwarding && r.trace == []
        && r.mem == WithCellFlags(m, src.forwarding, r.mem.CellAt(src.forwarding).flags)
        && OneMoreOwner(fwd.flags, r.mem.CellAt(src.forwarding).flags)
    ensures var src := m.CellAt(p); var fwd := m.CellAt(src.forwarding);
      Count(fwd.flags) != 0 && !IsHeapCell(fwd) ==> r == Step(m, src.forwarding, [])
  {
    var src := m.CellAt(p);
    var fwd := m.CellAt(src.forwarding);
    if fwd.flags & RefcountMask == 0 then
      var q := m.next;
      var m1 := m.Alloc(CellObj(PromotedCell(src, q)));
      var m2 := m1.Put(p, CellObj(src.(forwarding := q)));
      Step(m2, q, KeepCalls(src, q, p))
    else if fwd.flags & ByrefNeedsFree == ByrefNeedsFree then
      Step(WithCellFlags(m, src.forwarding, LatchingIncr(fwd.flags).word), src.forwarding, [])
    else
      Step(m, src.forwarding, [])
  }

  /** The teardown calls of a heap cell, in order: the destroy helper if
      there is one, then the free. */
  function CellTeardownCalls(c: Byref, q: Ptr): (r: seq<Event>)
  {
    (if HasHelpers(c) then [CallByrefDestroy(c.destroy, q)] else []) + [Free(q)]
  }

  /** _Block_byref_release. Acts on the cell `p` forwards to; a cell not on
      the heap is left alone; a heap cell whose count is already zero fails
      the source's assertion; the last owner's release runs the destroy
      helper and frees the cell. */
  function ByrefRelease(m: Memory, p: Ptr): (r: Effect)
    requires m.Valid() && m.IsCell(p) && m.IsCell(m.CellAt(p).forwarding)
    ensures r.Done? ==> r.mem.Valid()
    ensures var q := m.CellAt(p).forwarding; var c := m.CellAt(q);
      && (!IsHeapCell(c) ==> r == Done(m, []))
      && (IsHeapCell(c) && Count(c.flags) == 0 ==> r == Aborted)
      && (IsHeapCell(c) && LastOwner(c.flags) ==>
            r.Done? && r.mem.objs == m.objs - {q} && r.trace == CellTeardownCalls(c, q))
      && (IsHeapCell(c) && Saturated(c.flags) ==> r == Done(m, []))
      && (IsHeapCell(c) && Count(c.flags) != 0 && !Saturated(c.flags) && !LastOwner(c.flags) ==>
            && r.Done? && r.trace == [] && r.mem.IsCell(q)
            && r.mem == WithCellFlags(m, q, r.mem.CellAt(q).flags)
            && OneFewerOwner(c.flags, r.mem.CellAt(q).flags))
  {
    var q := m.CellAt(p).forwarding;
    var c := m.CellAt(q);
    if c.flags & ByrefNeedsFree == 0 then Done(m, [])
    else if c.flags & RefcountMask == 0 then Aborted
    else
      var d := LatchingDecr(c.flags);
      var m1 := WithCellFlags(m, q, d.word);
      if d.result then Done(m1.Remove(q), CellTeardownCalls(m1.CellAt(q), q))
      else Done(m1, [])
  }

  // ---- The forwarding invariant ----

  /** What holds of every cell between runtime calls: teardown has not begun;
      a heap cell forwards to itself and has an owner; a stack cell has a
      zero count and forwards to itself, to a heap cell, or to storage that
      has since been freed. */
  predicate CellCoherent(m: Memory, q: Ptr)
    requires m.IsCell(q)
  {
    var c := m.CellAt(q);
    && !IsDeallocating(c.flags)
    && c.forwarding != Null && c.forwarding < m.next
    && (IsHeapCell(c) ==> c.forwarding == q && Count(c.flags) != 0)
    && (!IsHeapCell(c) ==> Count(c.flags) == 0)
    && (c.forwarding in m.objs ==>
          m.IsCell(c.forwarding) && (c.forwarding == q || IsHeapCell(m.CellAt(c.forwarding))))
  }

  predicate CellsCoherent(m: Memory) {
    forall q | q in m.objs :: m.IsCell(q) ==> CellCoherent(m, q)
  }

  /** Promotion keeps every cell coherent. */
  lemma ByrefCopyKeepsCoherence(m: Memory, p: Ptr)
    requires m.Valid() && m.IsCell(p) && m.IsCell(m.CellAt(p).forwarding)
    requires CellsCoherent(m)
    ensures CellsCoherent(ByrefCopy(m, p).mem)
  {
    var r := ByrefCopy(m, p);
    var src := m.CellAt(p);
    var fwd := m.CellAt(src.forwarding);
    forall q | r.mem.IsCell(q)
      ensures CellCoherent(r.mem, q)
    {
      if Count(fwd.flags) == 0 {
        assert !IsHeapCell(fwd);
        assert src.forwarding == p;
        if q != r.result && q != p {
          assert m.IsCell(q) && CellCoherent(m, q);
          assert r.mem.CellAt(q) == m.CellAt(q);
        }
      } else if IsHeapCell(fwd) {
        if q != src.forwarding {
          assert m.IsCell(q) && CellCoherent(m, q);
        }
      }
    }
  }

  /** Release keeps every cell coherent. */
  lemma ByrefReleaseKeepsCoherence(m: Memory, p: Ptr)
    requires m.Valid() && m.IsCell(p) && m.IsCell(m.CellAt(p).forwarding)
    requires CellsCoherent(m)
    ensures ByrefRelease(m, p).Done?
    ensures CellsCoherent(ByrefRelease(m, p).mem)
  {
    var r := ByrefRelease(m, p);
    assert CellCoherent(m, p);
    forall s | r.mem.IsCell(s)
      ensures CellCoherent(r.mem, s)
    {
      assert m.IsCell(s) && CellCoherent(m, s);
    }
  }

  /** Forwarding convergence: after a promotion of a coherent cell, the cell
      passed in and the cell handed back both forward to the handed-back
      cell, which lives on the heap. */
  lemma ForwardingConverges(m: Memory, p: Ptr)
    requires m.Valid() && m.IsCell(p) && m.IsCell(m.CellAt(p).forwarding)
    requires CellsCoherent(m)
    ensures var r := ByrefCopy(m, p);
      && r.mem.CellAt(p).forwarding == r.result
      && r.mem.CellAt(r.result).forwarding == r.result
      && IsHeapCell(r.mem.CellAt(r.result))
  {
    assert CellCoherent(m, p);
    assert CellCoherent(m, m.CellAt(p).forwarding);
  }

  /** A stack cell as the compiler lays it out: forwarding to itself, no
      owners counted, not on the heap, no teardown begun. */
  predicate FreshStackCell(m: Memory, p: Ptr) {
    && m.IsCell(p)
    && var c := m.CellAt(p);
    && c.forwarding == p && c.flags & 0xffff == 0 && !IsHeapCell(c)
  }

  /** Promoting the same stack cell twice yields the same heap cell, with no
      second allocation, and leaves its count word at 6: the caller of each
      promotion and the stack frame. */
  lemma PromoteTwiceIsRetain(m: Memory, p: Ptr)
    requires m.Valid() && FreshStackCell(m, p)
    ensures var first := ByrefCopy(m, p);
      var second := ByrefCopy(first.mem, p);
      && second.result == first.result
      && second.mem.objs.Keys == first.mem.objs.Keys
      && second.trace == []
      && first.mem.CellAt(first.result).flags & 0xffff == 4
      && second.mem.CellAt(second.result).flags & 0xffff == 6
  {
  }

  /** The whole life of a promoted cell: promotion, the release by the
      closure that captured it, and the release at the end of the stack
      frame's scope. The heap cell survives the first release and is freed
      by the second, after its destroy helper; the stack cell is left
      forwarding to the freed storage. */
  lemma PromoteThenReleaseTwice(m: Memory, p: Ptr)
    requires m.Valid() && FreshStackCell(m, p)
    ensures var pr := ByrefCopy(m, p);
      var q := pr.result;
      var r1 := ByrefRelease(pr.mem, p);
      && r1.Done? && r1.trace == [] && q in r1.mem.objs
      && var r2 := ByrefRelease(r1.mem, p);
      && r2.Done?
      && r2.mem.objs == m.objs[p := CellObj(m.CellAt(p).(forwarding := q))]
      && pr.trace + r2.trace == KeepCalls(m.CellAt(p), q, p) + CellTeardownCalls(pr.mem.CellAt(q), q)
  {
    var pr := ByrefCopy(m, p);
    var q := pr.result;
    var c := pr.mem.CellAt(q);
    assert Count(c.flags) == 2 && !IsDeallocating(c.flags);
    var r1 := ByrefRelease(pr.mem, p);
    assert r1.mem.CellAt(q).flags & 0xffff == 2;
    assert r1.mem.CellAt(q) == c.(flags := r1.mem.CellAt(q).flags);
    var r2 := ByrefRelease(r1.mem, p);
    assert r2.mem.objs == r1.mem.objs - {q};
  }
}
