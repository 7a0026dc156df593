/** The flag words of closures (Block_layout) and byref cells (Block_byref),
    and the field tags handed to the assign/dispose entry points.

    A flags word is 32 bits: bit 0 marks an object whose teardown has begun,
    bits 1..15 hold the reference count scaled by two, and the top byte holds
    single-bit properties set by the compiler or the runtime. */
module Flags {

  type Word = bv32

  // ---- Closure flags ----

  const Deallocating: Word := 0x0001
  const RefcountMask: Word := 0xfffe

  const NeedsFree: Word := 1 << 24
  const HasCopyDispose: Word := 1 << 25
  const HasCtor: Word := 1 << 26
  const IsGc: Word := 1 << 27
  const IsGlobal: Word := 1 << 28
  const UseStret: Word := 1 << 29
  const HasSignature: Word := 1 << 30
  const HasExtendedLayout: Word := 1 << 31

  /** The eight property bits of a closure, in declaration order. */
  const ClosureBits: seq<Word> :=
    [NeedsFree, HasCopyDispose, HasCtor, IsGc, IsGlobal, UseStret, HasSignature, HasExtendedLayout]

  // ---- Byref cell flags (the count bits are shared with closures) ----

  const ByrefLayoutMask: Word := 0xf << 28
  const ByrefLayoutExtended: Word := 1 << 28
  const ByrefLayoutNonObject: Word := 2 << 28
  const ByrefLayoutStrong: Word := 3 << 28
  const ByrefLayoutWeak: Word := 4 << 28
  const ByrefLayoutUnretained: Word := 5 << 28

  const ByrefIsGc: Word := 1 << 27
  const ByrefHasCopyDispose: Word := 1 << 25
  const ByrefNeedsFree: Word := 1 << 24

  const ByrefLayoutKinds: seq<Word> :=
    [ByrefLayoutExtended, ByrefLayoutNonObject, ByrefLayoutStrong, ByrefLayoutWeak, ByrefLayoutUnretained]

  // ---- Field tags of _Block_object_assign / _Block_object_dispose ----

  const FieldIsObject: Word := 3
  const FieldIsBlock: Word := 7
  const FieldIsByref: Word := 8
  const FieldIsWeak: Word := 16
  const ByrefCaller: Word := 128

  const AllCopyDisposeFlags: Word :=
    FieldIsObject | FieldIsBlock | FieldIsByref | FieldIsWeak | ByrefCaller

  /** The tags the compiler emits: 3, 7, 8 and 24 from closure helpers,
      0x83, 0x87, 0x93 and 0x97 from byref helpers. */
  const LegalTags: seq<Word> :=
    [FieldIsObject, FieldIsBlock, FieldIsByref, FieldIsByref | FieldIsWeak,
     ByrefCaller | FieldIsObject, ByrefCaller | FieldIsBlock,
     ByrefCaller | FieldIsObject | FieldIsWeak, ByrefCaller | FieldIsBlock | FieldIsWeak]

  // ---- Views of a word ----

  predicate Has(w: Word, bit: Word) {
    w & bit != 0
  }

  /** The reference count, unscaled: 0 .. 0x7fff. */
  function Count(w: Word): (c: Word) {
    (w & RefcountMask) >> 1
  }

  /** The count field is all ones: the object is leaked on purpose. */
  predicate Saturated(w: Word) {
    w & RefcountMask == RefcountMask
  }

  predicate IsDeallocating(w: Word) {
    Has(w, Deallocating)
  }

  /** Every bit above the count field. */
  function Upper(w: Word): (u: Word) {
    w & 0xffff_0000
  }

  /** `b` is the single bit at position `k`. */
  predicate BitAt(b: Word, k: nat) {
    k < 32 && b == (1 as Word) << k
  }

  // ---- Layout facts ----

  /** The deallocating bit and the count field split the low half-word. */
  lemma CountFieldPartition()
    ensures Deallocating & RefcountMask == 0
    ensures Deallocating | RefcountMask == 0xffff
  {
  }

  /** A word is exactly its upper bits, its count and its deallocating bit,
      so a contract that fixes these three fixes the word. */
  lemma WordFields(w: Word, v: Word)
    requires Upper(w) == Upper(v) && Count(w) == Count(v)
    requires IsDeallocating(w) == IsDeallocating(v)
    ensures w == v
  {
  }

  lemma CountIsBounded(w: Word)
    ensures Count(w) <= 0x7fff
    ensures Saturated(w) <==> Count(w) == 0x7fff
  {
  }

  /** Each closure property is one bit at positions 24..31, in order, so
      all eight are distinct and none touches the count or deallocating bits. */
  lemma ClosureBitsAreDistinctHighBits()
    ensures |ClosureBits| == 8
    ensures forall i :: 0 <= i < 8 ==> BitAt(ClosureBits[i], 24 + i)
    ensures forall i :: 0 <= i < 8 ==> ClosureBits[i] & 0xffff == 0
    ensures forall i, j :: 0 <= i < j < 8 ==> ClosureBits[i] & ClosureBits[j] == 0
  {
  }

  /** Adding two to an unsaturated word raises the count by one and can
      neither carry into the upper bits nor touch the deallocating bit. */
  lemma AddTwoStaysInCountField(w: Word)
    requires !Saturated(w)
    ensures Count(w + 2) == Count(w) + 1
    ensures Upper(w + 2) == Upper(w)
    ensures IsDeallocating(w + 2) == IsDeallocating(w)
  {
  }

  /** Byref cells keep their count in the same bits as closures, and their
      heap and helper bits sit where the closure ones do. */
  lemma ByrefSharesClosureBits()
    ensures ByrefNeedsFree == NeedsFree
    ensures ByrefHasCopyDispose == HasCopyDispose
    ensures ByrefIsGc == IsGc
    ensures ByrefNeedsFree & (Deallocating | RefcountMask) == 0
    ensures ByrefHasCopyDispose & (Deallocating | RefcountMask) == 0
  {
  }

  /** The byref layout kind lives in the top nibble, away from the
      collector, helper and heap bits. */
  lemma ByrefLayoutNibble()
    ensures ByrefLayoutMask == 0xf000_0000
    ensures forall i :: 0 <= i < |ByrefLayoutKinds| ==> ByrefLayoutKinds[i] & ByrefLayoutMask == ByrefLayoutKinds[i]
    ensures ByrefLayoutMask & (ByrefIsGc | ByrefHasCopyDispose | ByrefNeedsFree) == 0
    ensures ByrefLayoutMask & (Deallocating | RefcountMask) == 0
  {
  }

  /** The tag mask is 0x9f and leaves every legal tag as it is. */
  lemma LegalTagsAreMaskFixedPoints()
    ensures AllCopyDisposeFlags == 0x9f
    ensures LegalTags == [3, 7, 8, 24, 0x83, 0x87, 0x93, 0x97]
    ensures forall i :: 0 <= i < |LegalTags| ==> LegalTags[i] & AllCopyDisposeFlags == LegalTags[i]
  {
  }
}
