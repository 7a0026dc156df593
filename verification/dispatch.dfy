/** _Block_object_assign and _Block_object_dispose: the entry points the
    compiler's copy/dispose and keep/destroy helpers call for each captured
    field. The field tag, masked by AllCopyDisposeFlags, selects the action
    from a closed table; a masked tag outside the table does nothing. */
module Dispatch {
  import opened Flags
  import opened Refcount
  import opened Memory
  import opened Closures
  import opened Byrefs

  /** The eight rows of the table. */
  datatype FieldKind =
    | Object            // 3: a captured object
    | NestedBlock       // 7: a captured closure
    | ByrefCell         // 8: a captured __block variable
    | WeakByrefCell     // 8|16
    | CallerObject      // 128|3: the object inside a byref cell
    | CallerBlock       // 128|7: the closure inside a byref cell
    | CallerWeakObject  // 128|3|16
    | CallerWeakBlock   // 128|7|16

  function TagOf(k: FieldKind): (t: Word)
    ensures t in LegalTags && t & AllCopyDisposeFlags == t
  {
    match k
    case Object => FieldIsObject
    case NestedBlock => FieldIsBlock
    case ByrefCell => FieldIsByref
    case WeakByrefCell => FieldIsByref | FieldIsWeak
    case CallerObject => ByrefCaller | FieldIsObject
    case CallerBlock => ByrefCaller | FieldIsBlock
    case CallerWeakObject => ByrefCaller | FieldIsObject | FieldIsWeak
    case CallerWeakBlock => ByrefCaller | FieldIsBlock | FieldIsWeak
  }

  /** The switch of the source: mask the flags, then look the result up. */
  function KindOf(flags: Word): (r: Option<FieldKind>)
    ensures r.Some? ==> TagOf(r.value) == flags & AllCopyDisposeFlags
    ensures r.None? ==> forall k: FieldKind :: TagOf(k) != flags & AllCopyDisposeFlags
  {
    var t := flags & AllCopyDisposeFlags;
    if t == FieldIsObject then Some(Object)
    else if t == FieldIsBlock then Some(NestedBlock)
    else if t == FieldIsByref then Some(ByrefCell)
    else if t == FieldIsByref | FieldIsWeak then Some(WeakByrefCell)
    else if t == ByrefCaller | FieldIsObject then Some(CallerObject)
    else if t == ByrefCaller | FieldIsBlock then Some(CallerBlock)
    else if t == ByrefCaller | FieldIsObject | FieldIsWeak then Some(CallerWeakObject)
    else if t == ByrefCaller | FieldIsBlock | FieldIsWeak then Some(CallerWeakBlock)
    else None
  }

  /** Every row's tag is read back as that row, and the table's tags are
      exactly the legal tags the compiler emits. */
  lemma KindTagRoundTrip(k: FieldKind)
    ensures KindOf(TagOf(k)) == Some(k)
    ensures exists i :: 0 <= i < |LegalTags| && LegalTags[i] == TagOf(k)
  {
    match k
    case Object => assert LegalTags[0] == TagOf(k);
    case NestedBlock => assert LegalTags[1] == TagOf(k);
    case ByrefCell => assert LegalTags[2] == TagOf(k);
    case WeakByrefCell => assert LegalTags[3] == TagOf(k);
    case CallerObject => assert LegalTags[4] == TagOf(k);
    case CallerBlock => assert LegalTags[5] == TagOf(k);
    case CallerWeakObject => assert LegalTags[6] == TagOf(k);
    case CallerWeakBlock => assert LegalTags[7] == TagOf(k);
  }

  /** Bits outside the mask do not change the row chosen. */
  lemma KindIgnoresUnmaskedBits(flags: Word, extra: Word)
    requires extra & AllCopyDisposeFlags == 0
    ensures KindOf(flags | extra) == KindOf(flags)
  {
    assert (flags | extra) & AllCopyDisposeFlags == flags & AllCopyDisposeFlags;
  }

  predicate IsByrefKind(k: FieldKind) {
    k == ByrefCell || k == WeakByrefCell
  }

  predicate IsCallerKind(k: FieldKind) {
    k == CallerObject || k == CallerBlock || k == CallerWeakObject || k == CallerWeakBlock
  }

  /** What the chosen action needs of `arg`: a closure (or NULL) for a
      nested closure, a cell forwarding to a cell for a byref. */
  predicate FieldPre(m: Memory, arg: Ptr, flags: Word) {
    match KindOf(flags)
    case Some(NestedBlock) => arg == Null || m.IsBlock(arg)
    case Some(ByrefCell) => m.IsCell(arg) && m.IsCell(m.CellAt(arg).forwarding)
    case Some(WeakByrefCell) => m.IsCell(arg) && m.IsCell(m.CellAt(arg).forwarding)
    case _ => true
  }

  /** _Block_object_assign. The result is the value stored into the
      destination slot, or None when the slot is left untouched. */
  function ObjectAssign(m: Memory, cb: Callbacks, arg: Ptr, flags: Word, allocOk: bool): (r: Step<Option<Ptr>>)
    requires m.Valid() && FieldPre(m, arg, flags)
    ensures r.mem.Valid()
    ensures KindOf(flags).None? ==> r == Step(m, None, [])
    ensures KindOf(flags) == Some(Object) ==> r == Step(m, Some(arg), [RetainObject(cb.retain, arg)])
    ensures KindOf(flags).Some? && IsCallerKind(KindOf(flags).value) ==> r == Step(m, Some(arg), [])
    ensures KindOf(flags) == Some(NestedBlock) ==>
      var c := Copy(m, arg, allocOk); r == Step(c.mem, Some(c.result), c.trace)
    ensures KindOf(flags).Some? && IsByrefKind(KindOf(flags).value) ==>
      && r.result.Some? && r.mem.IsCell(r.result.value) && r.mem.IsCell(arg)
      && r.mem.CellAt(arg).forwarding == r.result.value
      && var c := ByrefCopy(m, arg); r == Step(c.mem, Some(c.result), c.trace)
  {
    match KindOf(flags)
    case None => Step(m, None, [])
    case Some(Object) => Step(m, Some(arg), [RetainObject(cb.retain, arg)])
    case Some(NestedBlock) =>
      var c := Copy(m, arg, allocOk);
      Step(c.mem, Some(c.result), c.trace)
    case Some(ByrefCell) =>
      var c := ByrefCopy(m, arg);
      Step(c.mem, Some(c.result), c.trace)
    case Some(WeakByrefCell) =>
      var c := ByrefCopy(m, arg);
      Step(c.mem, Some(c.result), c.trace)
    case Some(_) => Step(m, Some(arg), [])
  }

  /** _Block_object_dispose. */
  function ObjectDispose(m: Memory, cb: Callbacks, arg: Ptr, flags: Word): (r: Effect)
    requires m.Valid() && FieldPre(m, arg, flags)
    ensures r.Done? ==> r.mem.Valid()
    ensures KindOf(flags).None? ==> r == Done(m, [])
    ensures KindOf(flags) == Some(Object) ==> r == Done(m, [ReleaseObject(cb.release, arg)])
    ensures KindOf(flags).Some? && IsCallerKind(KindOf(flags).value) ==> r == Done(m, [])
    ensures KindOf(flags) == Some(NestedBlock) ==> r == Release(m, cb, arg)
    ensures KindOf(flags).Some? && IsByrefKind(KindOf(flags).value) ==> r == ByrefRelease(m, arg)
    ensures r.Aborted? ==> KindOf(flags).Some? && IsByrefKind(KindOf(flags).value)
  {
    match KindOf(flags)
    case None => Done(m, [])
    case Some(Object) => Done(m, [ReleaseObject(cb.release, arg)])
    case Some(NestedBlock) => Release(m, cb, arg)
    case Some(ByrefCell) => ByrefRelease(m, arg)
    case Some(WeakByrefCell) => ByrefRelease(m, arg)
    case Some(_) => Done(m, [])
  }

  /** Field dispatch keeps every byref cell coherent. */
  lemma DispatchKeepsCoherence(m: Memory, cb: Callbacks, arg: Ptr, flags: Word, allocOk: bool)
    requires m.Valid() && FieldPre(m, arg, flags) && CellsCoherent(m)
    ensures CellsCoherent(ObjectAssign(m, cb, arg, flags, allocOk).mem)
    ensures ObjectDispose(m, cb, arg, flags).Done?
    ensures CellsCoherent(ObjectDispose(m, cb, arg, flags).mem)
  {
    match KindOf(flags)
    case Some(NestedBlock) =>
      ClosureOpsKeepCoherence(m, cb, arg, allocOk);
    case Some(ByrefCell) =>
      ByrefCopyKeepsCoherence(m, arg);
      ByrefReleaseKeepsCoherence(m, arg);
    case Some(WeakByrefCell) =>
      ByrefCopyKeepsCoherence(m, arg);
      ByrefReleaseKeepsCoherence(m, arg);
    case _ =>
  }

  /** Copy and release of closures never touch a cell. */
  lemma ClosureOpsKeepCoherence(m: Memory, cb: Callbacks, p: Ptr, allocOk: bool)
    requires m.Valid() && (p == Null || m.IsBlock(p)) && CellsCoherent(m)
    ensures CellsCoherent(Copy(m, p, allocOk).mem)
    ensures CellsCoherent(Release(m, cb, p).mem)
  {
    var c := Copy(m, p, allocOk).mem;
    forall q | q in c.objs && c.IsCell(q)
      ensures CellCoherent(c, q)
    {
      assert m.IsCell(q) && CellCoherent(m, q);
    }
    var r := Release(m, cb, p).mem;
    forall q | q in r.objs && r.IsCell(q)
      ensures CellCoherent(r, q)
    {
      assert m.IsCell(q) && CellCoherent(m, q);
    }
  }

  /** A heap cell that forwards to itself, has an owner, and can take one
      more without saturating. */
  predicate RetainableCell(m: Memory, p: Ptr) {
    && m.IsCell(p) && m.IsCell(m.CellAt(p).forwarding)
    && var q := m.CellAt(p).forwarding;
    && IsHeapCell(m.CellAt(q)) && m.CellAt(q).forwarding == q
    && Count(m.CellAt(q).flags) != 0 && !Saturated(LatchingIncr(m.CellAt(q).flags).word)
  }

  /** Promoting a cell that is already on the heap and releasing it again
      gives back the memory it started from. */
  lemma ByrefCopyThenReleaseRestores(m: Memory, p: Ptr)
    requires m.Valid() && RetainableCell(m, p)
    ensures var a := ByrefCopy(m, p);
      && a.trace == [] && a.mem.IsCell(p) && a.mem.IsCell(a.mem.CellAt(p).forwarding)
      && ByrefRelease(a.mem, p) == Done(m, [])
  {
    var q := m.CellAt(p).forwarding;
    var w := m.CellAt(q).flags;
    DecrUndoesIncr(w);
    var a := ByrefCopy(m, p);
    assert a.mem.CellAt(q).flags == LatchingIncr(w).word;
    assert a.mem.CellAt(p).forwarding == q;
    assert WithCellFlags(a.mem, q, w) == m;
  }

  /** Assign then dispose of the same field with the same tag balances out:
      an object is retained and then released through the host callbacks; a
      heap closure or a heap cell gains an owner and loses it again, giving
      back the memory it started from; the byref-caller tags do nothing. */
  lemma AssignThenDisposeBalances(m: Memory, cb: Callbacks, arg: Ptr, flags: Word)
    requires m.Valid() && FieldPre(m, arg, flags)
    requires KindOf(flags).Some?
    requires KindOf(flags) == Some(NestedBlock) ==>
      && arg != Null && IsHeapBlock(m.BlockAt(arg)) && !Has(m.BlockAt(arg).flags, IsGlobal)
      && Count(m.BlockAt(arg).flags) != 0 && !Saturated(LatchingIncr(m.BlockAt(arg).flags).word)
    requires IsByrefKind(KindOf(flags).value) ==> RetainableCell(m, arg)
    ensures var a := ObjectAssign(m, cb, arg, flags, true);
      && a.mem.Valid() && FieldPre(a.mem, arg, flags)
      && var d := ObjectDispose(a.mem, cb, arg, flags);
      && d.Done? && d.mem == m
      && a.trace + d.trace ==
         (if KindOf(flags) == Some(Object)
          then [RetainObject(cb.retain, arg), ReleaseObject(cb.release, arg)]
          else [])
  {
    var k := KindOf(flags).value;
    if k == NestedBlock {
      RetainThenReleaseRestores(m, cb, arg);
    } else if IsByrefKind(k) {
      ByrefCopyThenReleaseRestores(m, arg);
    }
  }
}
