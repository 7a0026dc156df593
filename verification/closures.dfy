/** The lifecycle of a closure object: _Block_copy, _Block_release, the
    weak-reference entry points _Block_tryRetain and _Block_isDeallocating,
    and the flag-driven descriptor accessors. */
module Closures {
  import opened Flags
  import opened Refcount
  import opened Memory

  // ---- Storage kind, as read from the flags ----

  /** A heap closure: created by a copy, owned by its count. */
  predicate IsHeapBlock(b: Block) {
    Has(b.flags, NeedsFree)
  }

  /** Neither heap nor global: a closure living in a caller's frame. */
  predicate IsStackBlock(b: Block) {
    !Has(b.flags, NeedsFree) && !Has(b.flags, IsGlobal)
  }

  /** The flags of a fresh heap copy of a closure with flags `src`: the
      property bits are kept, the heap bit is added, and the count holds
      one owner with no teardown begun. */
  predicate FreshHeapFlags(src: Word, f: Word) {
    && Upper(f) == Upper(src) | NeedsFree
    && Count(f) == 1
    && !IsDeallocating(f)
  }

  /** The closure `b` with its flags word replaced; nothing else differs. */
  function WithFlags(m: Memory, p: Ptr, f: Word): (r: Memory)
    requires m.Valid() && m.IsBlock(p)
    ensures r.Valid() && r.IsBlock(p) && r.objs.Keys == m.objs.Keys
    ensures r.BlockAt(p).flags == f
  {
    m.Put(p, BlockObj(m.BlockAt(p).(flags := f)))
  }

  // ---- Descriptor accessors ----

  datatype CopyDispose = CopyDispose(copy: CodeRef, dispose: CodeRef)
  datatype SignatureLayout = SignatureLayout(signature: Option<string>, layout: Option<string>)

  /** _Block_descriptor_2: the helper pair exists only under HasCopyDispose. */
  function Descriptor2(b: Block): (r: Option<CopyDispose>)
    ensures r.Some? <==> Has(b.flags, HasCopyDispose)
    ensures r.Some? ==> r.value.copy == b.descriptor.copy && r.value.dispose == b.descriptor.dispose
  {
    if b.flags & HasCopyDispose == 0 then None
    else Some(CopyDispose(b.descriptor.copy, b.descriptor.dispose))
  }

  /** _Block_descriptor_3: the strings exist only under HasSignature. */
  function Descriptor3(b: Block): (r: Option<SignatureLayout>)
    ensures r.Some? <==> Has(b.flags, HasSignature)
    ensures r.Some? ==> r.value.signature == b.descriptor.signature && r.value.layout == b.descriptor.layout
  {
    if b.flags & HasSignature == 0 then None
    else Some(SignatureLayout(b.descriptor.signature, b.descriptor.layout))
  }

  /** _Block_use_stret: both the signature bit and the stret bit are set. */
  function UsesStret(b: Block): (r: bool)
    ensures r ==> Descriptor3(b).Some?
    ensures r <==> Has(b.flags, HasSignature) && Has(b.flags, UseStret)
  {
    var required := HasSignature | UseStret;
    b.flags & required == required
  }

  /** _Block_signature: NULL without a Block_descriptor_3. */
  function Signature(b: Block): (r: Option<string>)
    ensures r.Some? ==> Has(b.flags, HasSignature) && r == b.descriptor.signature
    ensures Has(b.flags, HasSignature) ==> r == b.descriptor.signature
  {
    match Descriptor3(b)
    case None => None
    case Some(d3) => d3.signature
  }

  /** _Block_has_signature: a signature string is really there, not merely
      the bit. */
  function HasSignatureString(b: Block): (r: bool)
    ensures r <==> Has(b.flags, HasSignature) && b.descriptor.signature.Some?
  {
    Signature(b).Some?
  }

  /** _Block_layout: the old-style layout, withheld from closures with an
      extended layout. */
  function Layout(b: Block): (r: Option<string>)
    ensures r.Some? ==> !Has(b.flags, HasExtendedLayout) && Has(b.flags, HasSignature)
    ensures r.Some? ==> r == b.descriptor.layout
    ensures !Has(b.flags, HasExtendedLayout) && Has(b.flags, HasSignature) ==> r == b.descriptor.layout
  {
    if b.flags & HasExtendedLayout != 0 then None
    else match Descriptor3(b)
      case None => None
      case Some(d3) => d3.layout
  }

  /** _Block_extended_layout: only for closures with an extended layout, and
      an absent layout string reads as the empty string, so callers can tell
      "no layout" from "all non-object bytes". */
  function ExtendedLayout(b: Block): (r: Option<string>)
    ensures r.Some? <==> Has(b.flags, HasExtendedLayout) && Has(b.flags, HasSignature)
    ensures r.Some? ==> r.value == (if b.descriptor.layout.Some? then b.descriptor.layout.value else "")
  {
    if b.flags & HasExtendedLayout == 0 then None
    else match Descriptor3(b)
      case None => None
      case Some(d3) => if d3.layout.None? then Some("") else d3.layout
  }

  /** The two layout readers never both answer for the same closure. */
  lemma LayoutReadersExclusive(b: Block)
    ensures Layout(b).None? || ExtendedLayout(b).None?
  {
  }

  // ---- Copy ----

  /** The copy helper call that a fresh heap copy triggers, if the closure
      has helpers. */
  function CopyHelperCalls(b: Block, dst: Ptr, src: Ptr): (r: seq<Event>)
  {
    match Descriptor2(b)
    case None => []
    case Some(d2) => [CallCopyHelper(d2.copy, dst, src)]
  }

  /** _Block_copy. The heap check comes before the global check; a stack
      closure is cloned into fresh storage, or the call answers NULL when
      allocation fails (`allocOk` is false). */
  function Copy(m: Memory, p: Ptr, allocOk: bool): (r: Step<Ptr>)
    requires m.Valid() && (p == Null || m.IsBlock(p))
    ensures r.mem.Valid()
    ensures p == Null ==> r == Step(m, Null, [])
    ensures p != Null && IsHeapBlock(m.BlockAt(p)) ==>
      && r.result == p && r.trace == [] && r.mem.IsBlock(p)
      && r.mem == WithFlags(m, p, r.mem.BlockAt(p).flags)
      && OneMoreOwner(m.BlockAt(p).flags, r.mem.BlockAt(p).flags)
    ensures p != Null && !IsHeapBlock(m.BlockAt(p)) && Has(m.BlockAt(p).flags, IsGlobal) ==>
      r == Step(m, p, [])
    ensures p != Null && IsStackBlock(m.BlockAt(p)) && !allocOk ==> r == Step(m, Null, [])
    ensures p != Null && IsStackBlock(m.BlockAt(p)) && allocOk ==>
      var src := m.BlockAt(p);
      && r.result != Null && r.result !in m.objs
      && r.mem.IsBlock(r.result)
      && r.mem.objs == m.objs[r.result := r.mem.objs[r.result]]
      && r.mem.BlockAt(r.result) == src.(isa := MallocBlockClass, flags := r.mem.BlockAt(r.result).flags)
      && FreshHeapFlags(src.flags, r.mem.BlockAt(r.result).flags)
      && r.trace == CopyHelperCalls(src, r.result, p)
  {
    if p == Null then Step(m, Null, [])
    else
      var b := m.BlockAt(p);
      if b.flags & NeedsFree != 0 then
        Step(WithFlags(m, p, LatchingIncr(b.flags).word), p, [])
      else if b.flags & IsGlobal != 0 then
        Step(m, p, [])
      else if !allocOk then
        Step(m, Null, [])
      else
        var q := m.next;
        var f := (b.flags & !(RefcountMask | Deallocating)) | NeedsFree | 2;
        var copy := b.(flags := f, isa := MallocBlockClass);
        Step(m.Alloc(BlockObj(copy)), q, CopyHelperCalls(b, q, p))
  }

  // ---- Release ----

  /** The first half of _Block_release on a heap closure: the decrement,
      answering whether the caller must tear the closure down. The word it
      leaves is what the dispose helper and any weak-reference observer see
      during teardown. */
  function BeginRelease(m: Memory, p: Ptr): (r: Step<bool>)
    requires m.Valid() && m.IsBlock(p)
    ensures r.trace == [] && r.mem.IsBlock(p)
    ensures r.result <==> LastOwner(m.BlockAt(p).flags)
    ensures r.result ==> IsDeallocating(r.mem.BlockAt(p).flags) && Count(r.mem.BlockAt(p).flags) == 0
    ensures Upper(r.mem.BlockAt(p).flags) == Upper(m.BlockAt(p).flags)
    ensures Saturated(m.BlockAt(p).flags) || Count(m.BlockAt(p).flags) == 0 ==> r.mem == m
    ensures !r.result && !Saturated(m.BlockAt(p).flags) && Count(m.BlockAt(p).flags) != 0 ==>
      OneFewerOwner(m.BlockAt(p).flags, r.mem.BlockAt(p).flags)
    ensures r.mem == WithFlags(m, p, r.mem.BlockAt(p).flags)
  {
    var d := LatchingDecr(m.BlockAt(p).flags);
    Step(WithFlags(m, p, d.word), d.result, [])
  }

  /** The teardown calls of a closure, in the order they must run: the
      dispose helper if there is one, the destruct-instance hook, and the
      free of the storage. */
  function TeardownCalls(b: Block, cb: Callbacks, p: Ptr): (r: seq<Event>)
  {
    (match Descriptor2(b)
     case None => []
     case Some(d2) => [CallDisposeHelper(d2.dispose, p)])
    + [DestructInstance(cb.destructInstance, p), Free(p)]
  }

  /** _Block_release. NULL, global and non-heap closures are left alone
      (the global test comes first); otherwise the count drops, and the
      last owner's release runs the teardown and frees the closure. */
  function Release(m: Memory, cb: Callbacks, p: Ptr): (r: Effect)
    requires m.Valid() && (p == Null || m.IsBlock(p))
    ensures r.Done? && r.mem.Valid()
    ensures p == Null ==> r == Done(m, [])
    ensures p != Null && (Has(m.BlockAt(p).flags, IsGlobal) || !IsHeapBlock(m.BlockAt(p))) ==>
      r == Done(m, [])
    ensures p != Null && !Has(m.BlockAt(p).flags, IsGlobal) && IsHeapBlock(m.BlockAt(p)) ==>
      var w := m.BlockAt(p).flags;
      if LastOwner(w) then
        && r.mem.objs == m.objs - {p}
        && r.trace == TeardownCalls(m.BlockAt(p), cb, p)
      else if Saturated(w) || Count(w) == 0 then
        r == Done(m, [])
      else
        && r.trace == [] && r.mem.IsBlock(p)
        && r.mem == WithFlags(m, p, r.mem.BlockAt(p).flags)
        && OneFewerOwner(w, r.mem.BlockAt(p).flags)
  {
    if p == Null then Done(m, [])
    else
      var b := m.BlockAt(p);
      if b.flags & IsGlobal != 0 then Done(m, [])
      else if b.flags & NeedsFree == 0 then Done(m, [])
      else
        var d := BeginRelease(m, p);
        if d.result then Done(d.mem.Remove(p), TeardownCalls(d.mem.BlockAt(p), cb, p))
        else Done(d.mem, [])
  }

  // ---- Weak-reference entry points ----

  /** _Block_tryRetain: one more owner, unless teardown has begun. */
  function TryRetain(m: Memory, p: Ptr): (r: Step<bool>)
    requires m.Valid() && m.IsBlock(p)
    ensures r.trace == [] && r.mem.IsBlock(p)
    ensures r.result <==> !IsDeallocating(m.BlockAt(p).flags)
    ensures r.result ==> OneMoreOwner(m.BlockAt(p).flags, r.mem.BlockAt(p).flags)
    ensures !r.result ==> r.mem == m
    ensures r.mem == WithFlags(m, p, r.mem.BlockAt(p).flags)
  {
    var t := LatchingIncrNotDeallocating(m.BlockAt(p).flags);
    if t.result then Step(WithFlags(m, p, t.word), true, [])
    else
      assert m.Put(p, BlockObj(m.BlockAt(p))) == m;
      Step(m, false, [])
  }

  /** _Block_isDeallocating: a closure reports teardown exactly when a
      weak reference can no longer retain it. */
  function IsDeallocatingBlock(m: Memory, p: Ptr): (r: bool)
    requires m.Valid() && m.IsBlock(p)
    ensures r <==> !TryRetain(m, p).result
  {
    m.BlockAt(p).flags & Deallocating != 0
  }

  // ---- Lifecycle properties ----

  /** No resurrection: once the release of a heap closure has decided to
      tear it down, a weak reference can neither retain it nor see it as
      live, and a second release does not decide again. */
  lemma NoResurrectionDuringTeardown(m: Memory, p: Ptr)
    requires m.Valid() && m.IsBlock(p)
    requires BeginRelease(m, p).result
    ensures var mid := BeginRelease(m, p).mem;
      && IsDeallocatingBlock(mid, p)
      && TryRetain(mid, p) == Step(mid, false, [])
      && !BeginRelease(mid, p).result
  {
    NoResurrection(m.BlockAt(p).flags);
  }

  /** Copying a stack closure and releasing the copy once frees it again:
      memory holds the same objects as before, and the calls ran in the
      order copy helper, dispose helper, destruct hook, free. */
  lemma StackCopyThenReleaseFrees(m: Memory, cb: Callbacks, p: Ptr)
    requires m.Valid() && m.IsBlock(p) && IsStackBlock(m.BlockAt(p))
    ensures var c := Copy(m, p, true);
      var rel := Release(c.mem, cb, c.result);
      var b := m.BlockAt(p);
      && rel.mem.objs == m.objs
      && c.trace + rel.trace ==
         CopyHelperCalls(b, c.result, p)
         + TeardownCalls(b.(isa := MallocBlockClass, flags := c.mem.BlockAt(c.result).flags), cb, c.result)
  {
    var c := Copy(m, p, true);
    var q := c.result;
    var f := c.mem.BlockAt(q).flags;
    assert Has(f, NeedsFree) && !Has(f, IsGlobal) && LastOwner(f);
    var rel := Release(c.mem, cb, q);
    assert rel.mem.objs == c.mem.objs - {q};
  }

  /** Retain then release of a heap closure gives back the same memory and
      calls nothing, as long as the retain did not saturate the count and
      the closure had an owner. */
  lemma RetainThenReleaseRestores(m: Memory, cb: Callbacks, p: Ptr)
    requires m.Valid() && m.IsBlock(p) && IsHeapBlock(m.BlockAt(p))
    requires !Has(m.BlockAt(p).flags, IsGlobal)
    requires !Saturated(LatchingIncr(m.BlockAt(p).flags).word)
    requires Count(m.BlockAt(p).flags) != 0
    ensures var c := Copy(m, p, true);
      c.result == p && Release(c.mem, cb, p) == Done(m, [])
  {
    var w := m.BlockAt(p).flags;
    DecrUndoesIncr(w);
    var c := Copy(m, p, true);
    assert c.mem.BlockAt(p).flags == LatchingIncr(w).word;
    assert WithFlags(c.mem, p, w) == m;
  }
}
