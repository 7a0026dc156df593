/** The three latching operations on a flags word. Each is one sequential
    read-modify-write step: the body of the source's compare-and-swap retry
    loop on the iteration whose swap succeeds. */
module Refcount {
  import opened Flags

  /** The word left behind and the value handed back to the caller. */
  datatype Latched<T> = Latched(word: Word, result: T)

  /** `after` holds one more owner than `before`, or is `before` itself when
      the count was already saturated. No other bit differs. */
  predicate OneMoreOwner(before: Word, after: Word) {
    && Upper(after) == Upper(before)
    && IsDeallocating(after) == IsDeallocating(before)
    && if Saturated(before) then after == before else Count(after) == Count(before) + 1
  }

  /** `after` holds one owner fewer than `before`; no other bit differs. */
  predicate OneFewerOwner(before: Word, after: Word) {
    && Upper(after) == Upper(before)
    && IsDeallocating(after) == IsDeallocating(before)
    && Count(before) != 0 && !Saturated(before)
    && Count(after) == Count(before) - 1
  }

  /** The only owner of a live object: the next release tears it down. */
  predicate LastOwner(w: Word) {
    Count(w) == 1 && !IsDeallocating(w)
  }

  /** latching_incr_int: one more owner, unless the count is saturated,
      in which case the word is left alone and the mask is returned. The
      deallocating bit is not looked at. */
  function LatchingIncr(w: Word): (r: Latched<Word>)
    ensures Saturated(w) ==> r.word == w && r.result == RefcountMask
    ensures !Saturated(w) ==> Count(r.word) == Count(w) + 1 && r.result == r.word
    ensures Upper(r.word) == Upper(w)
    ensures IsDeallocating(r.word) == IsDeallocating(w)
    ensures OneMoreOwner(w, r.word)
  {
    if w & RefcountMask == RefcountMask then Latched(w, RefcountMask)
    else AddTwoStaysInCountField(w); Latched(w + 2, w + 2)
  }

  /** latching_incr_int_not_deallocating: refuses once teardown has begun;
      a saturated count succeeds without changing the word. */
  function LatchingIncrNotDeallocating(w: Word): (r: Latched<bool>)
    ensures r.result <==> !IsDeallocating(w)
    ensures IsDeallocating(w) || Saturated(w) ==> r.word == w
    ensures !IsDeallocating(w) && !Saturated(w) ==> Count(r.word) == Count(w) + 1
    ensures Upper(r.word) == Upper(w)
    ensures IsDeallocating(r.word) == IsDeallocating(w)
    ensures r.result ==> OneMoreOwner(w, r.word)
  {
    if w & Deallocating != 0 then Latched(w, false)
    else if w & RefcountMask == RefcountMask then Latched(w, true)
    else Latched(w + 2, true)
  }

  /** latching_decr_int_should_deallocate: latches at the top and at zero;
      the last owner of a live object turns the count into "zero and
      deallocating" and is told to deallocate; anyone else drops one owner. */
  function LatchingDecr(w: Word): (r: Latched<bool>)
    ensures r.result <==> LastOwner(w)
    ensures Saturated(w) || Count(w) == 0 ==> r.word == w
    ensures r.result ==> Count(r.word) == 0 && IsDeallocating(r.word)
    ensures !r.result && !Saturated(w) && Count(w) != 0 ==> OneFewerOwner(w, r.word)
    ensures Upper(r.word) == Upper(w)
  {
    if w & RefcountMask == RefcountMask then Latched(w, false)
    else if w & RefcountMask == 0 then Latched(w, false)
    else if w & (RefcountMask | Deallocating) == 2 then Latched(w - 1, true)
    else Latched(w - 2, false)
  }

  /** A decrement undoes an increment that did not saturate, provided the
      increment did not start from an empty live count (from which the
      decrement deallocates instead). */
  lemma DecrUndoesIncr(w: Word)
    requires !Saturated(LatchingIncr(w).word)
    requires Count(w) != 0 || IsDeallocating(w)
    ensures LatchingDecr(LatchingIncr(w).word) == Latched(w, false)
  {
    var u := LatchingIncr(w).word;
    WordFields(LatchingDecr(u).word, w);
  }

  /** The same for a successful tryRetain followed by a release. */
  lemma DecrUndoesTryRetain(w: Word)
    requires !Saturated(LatchingIncrNotDeallocating(w).word) && Count(w) != 0
    requires !IsDeallocating(w)
    ensures LatchingIncrNotDeallocating(w).result
    ensures LatchingDecr(LatchingIncrNotDeallocating(w).word) == Latched(w, false)
  {
    var u := LatchingIncrNotDeallocating(w).word;
    WordFields(LatchingDecr(u).word, w);
  }

  /** No resurrection: once a decrement has said "deallocate", no later
      tryRetain succeeds and no later decrement says it again, and neither
      changes the word. */
  lemma NoResurrection(w: Word)
    requires LatchingDecr(w).result
    ensures var d := LatchingDecr(w).word;
      && IsDeallocating(d)
      && LatchingIncrNotDeallocating(d) == Latched(d, false)
      && LatchingDecr(d) == Latched(d, false)
  {
  }

  /** Once saturated, a word never changes again through these operations. */
  lemma SaturationIsPermanent(w: Word)
    requires Saturated(w)
    ensures LatchingIncr(w).word == w
    ensures LatchingIncrNotDeallocating(w).word == w
    ensures LatchingDecr(w) == Latched(w, false)
  {
  }

  /** `n` increments in a row. */
  function IncrRepeat(w: Word, n: nat): (r: Word)
    decreases n
  {
    if n == 0 then w else IncrRepeat(LatchingIncr(w).word, n - 1)
  }

  /** `n` decrements in a row; the result is how many of them said
      "deallocate". */
  function DecrRepeat(w: Word, n: nat): (r: Latched<nat>)
  {
    if n == 0 then Latched(w, 0)
    else
      var d := LatchingDecr(w);
      var rest := DecrRepeat(d.word, n - 1);
      Latched(rest.word, rest.result + if d.result then 1 else 0)
  }

  /** The last of `n + 1` increments can be peeled off the end. */
  lemma {:induction false} IncrRepeatLast(w: Word, n: nat)
    decreases n
    ensures IncrRepeat(w, n + 1) == LatchingIncr(IncrRepeat(w, n)).word
  {
    if n > 0 {
      IncrRepeatLast(LatchingIncr(w).word, n - 1);
    }
  }

  /** Increments never empty a count that was not empty, nor clear the
      deallocating bit. */
  lemma {:induction false} IncrRepeatKeepsOwners(w: Word, n: nat)
    requires Count(w) != 0 || IsDeallocating(w)
    decreases n
    ensures Count(IncrRepeat(w, n)) != 0 || IsDeallocating(IncrRepeat(w, n))
  {
    if n > 0 {
      CountIsBounded(w);
      IncrRepeatKeepsOwners(LatchingIncr(w).word, n - 1);
    }
  }

  /** Retain and release balance: `k` increments that end below saturation,
      followed by `k` decrements, give back the original word, and none of
      those decrements asks for deallocation. */
  lemma {:induction false} RetainsThenReleasesRestore(w: Word, k: nat)
    requires Count(w) != 0 || IsDeallocating(w)
    requires !Saturated(IncrRepeat(w, k))
    ensures DecrRepeat(IncrRepeat(w, k), k) == Latched(w, 0)
  {
    if k > 0 {
      var y := IncrRepeat(w, k - 1);
      IncrRepeatLast(w, k - 1);
      assert !Saturated(y);
      IncrRepeatKeepsOwners(w, k - 1);
      RetainsThenReleasesRestore(w, k - 1);
      DecrUndoesIncr(y);
    }
  }

  /** Conservation of owners: an object created with one owner and retained
      `k` times survives the first `k` releases and is told to deallocate by
      the next one, which is release number `k + 1`. */
  lemma OwnersAreConserved(w: Word, k: nat)
    requires Count(w) == 1 && !IsDeallocating(w)
    requires !Saturated(IncrRepeat(w, k))
    ensures DecrRepeat(IncrRepeat(w, k), k) == Latched(w, 0)
    ensures LatchingDecr(w).result
  {
    RetainsThenReleasesRestore(w, k);
  }
}
