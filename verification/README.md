# Block runtime: reference counting and promotion

A Dafny model of the core of libclosure's block runtime. The runtime keeps
closures ("blocks") and their shared `__block` variables ("byref cells")
alive by reference counting. It also moves them from a caller's stack frame
to the heap when a closure escapes. The model covers four parts:

- **Flag words** (`flags.dfy`, module `Flags`). This is the 32-bit layout
  from `Block_private.h`: bit 0 marks teardown, bits 1..15 hold the count
  scaled by two, and the top byte holds the property bits. It also holds the
  byref layout nibble and the field tags. Facts about the layout are stated
  as lemmas.
- **Latching counts** (`refcount.dfy`, module `Refcount`). These are
  `latching_incr_int`, `latching_incr_int_not_deallocating` and
  `latching_decr_int_should_deallocate`. Each is a pure function on a `bv32`
  word. A compare-and-swap retry loop is modelled as one read-modify-write:
  the iteration whose swap succeeds.
- **Closures** (`closures.dfy`, module `Closures`). These are `_Block_copy`,
  `_Block_release`, `_Block_tryRetain`, `_Block_isDeallocating` and the
  flag-driven descriptor accessors.
- **Byref cells and field dispatch** (`byrefs.dfy`, `dispatch.dfy`). These
  are `_Block_byref_copy`, `_Block_byref_release`, `_Block_object_assign`
  and `_Block_object_dispose`.

Memory (`memory.dfy`) is a map from addresses to closure and cell records.
Address 0 is NULL. Allocation hands out a fresh, never-reused address. Every
operation returns the new memory, its result, and a trace of the calls it
makes into code the runtime cannot see: copy/dispose helpers, keep/destroy
helpers and the host callbacks. Each free of storage is also recorded in the
trace, so teardown order shows up in the trace.

Points where the source's behaviour is easy to misread, modelled as the code
is written:

- A masked field tag outside the table falls into `default: break` and does
  nothing. `os_assumes` only reports; it does not stop the process.
- `_Block_byref_copy` does not check its `malloc` result, so promotion
  cannot fail in the model. `_Block_copy` can fail: its allocation outcome
  is a parameter (`allocOk`).
- Promotion tests the count of the cell that `src` forwards to. The new
  flags, though, are `src->flags | BLOCK_BYREF_NEEDS_FREE | 4`: an OR of 4,
  not an assignment of the count.
- The decrement tests `(w & 0xffff) == 2`. A word with count 1 that already
  has the deallocating bit set therefore drops to count 0 and answers
  "do not deallocate".
- `_Block_copy` tests `BLOCK_NEEDS_FREE` before `BLOCK_IS_GLOBAL`.
  `_Block_release` tests them in the other order.

## Model

| member | source | states |
|---|---|---|
| Flags.CountFieldPartition | Block_private.h:213-214 | The deallocating bit and the count mask are disjoint, and together they fill the low 16 bits. |
| Flags.WordFields | Block_private.h:212-229 | A flags word is fixed by its upper half, its count and its deallocating bit. So the field-wise contracts below pin down the exact word. |
| Flags.CountIsBounded | Block_private.h:214 | The unscaled count is at most 0x7fff, and it equals 0x7fff exactly when the word is saturated. |
| Flags.ClosureBitsAreDistinctHighBits | Block_private.h:216-228 | The eight closure property bits are the single bits 24..31, in declaration order. They are pairwise disjoint and do not touch the low 16 bits. |
| Flags.AddTwoStaysInCountField | Block_private.h:213-214 | Adding 2 to an unsaturated word raises the count by one. It cannot carry into the upper bits or change the deallocating bit. |
| Flags.ByrefSharesClosureBits | Block_private.h:292-309 | A byref cell's heap, helper and collector bits sit at the same positions as the closure's. They are disjoint from the shared count and deallocating bits. |
| Flags.ByrefLayoutNibble | Block_private.h:298-309 | The byref layout kinds all lie in the top nibble 0xf0000000. That nibble is disjoint from the collector, helper, heap and count bits. |
| Flags.LegalTagsAreMaskFixedPoints | Block_private.h:388-405 | The tag mask is 0x9f. The legal tags are 3, 7, 8, 24, 0x83, 0x87, 0x93 and 0x97, and masking leaves each one unchanged. |
| Refcount.LatchingIncr | runtime.cpp:54-73 | A saturated word stays as it is and the call answers the mask. Otherwise the count rises by one, the new word is the answer, and the upper bits and deallocating bit are kept. |
| Refcount.LatchingIncrNotDeallocating | runtime.cpp:75-91 | The call succeeds exactly when the deallocating bit is clear. A refused or saturated word is left unchanged. Otherwise the count rises by one with every other bit kept. |
| Refcount.LatchingDecr | runtime.cpp:95-123 | The call says "deallocate" exactly for a live word with count 1, which then has count 0 and the deallocating bit set. A saturated or zero count is left unchanged. Any other word loses one owner and its other bits are kept. |
| Refcount.DecrUndoesIncr | runtime.cpp:54-123 | A decrement undoes an increment that did not saturate and did not start from an empty live count. The word is restored and the decrement does not say "deallocate". |
| Refcount.DecrUndoesTryRetain | runtime.cpp:75-123 | The same holds for a successful increment-if-not-deallocating followed by a decrement. |
| Refcount.NoResurrection | runtime.cpp:75-123 | After a decrement has said "deallocate", the word shows teardown. A later increment-if-not-deallocating fails and a later decrement does not say "deallocate" again. Neither changes the word. |
| Refcount.SaturationIsPermanent | runtime.cpp:59-60 | A saturated word is never changed by any of the three operations, and it never triggers deallocation. |
| Refcount.RetainsThenReleasesRestore | runtime.cpp:54-123 | Take k increments that stay below saturation, then k decrements. The result is the original word, and none of the decrements says "deallocate". |
| Refcount.OwnersAreConserved | runtime.cpp:54-123 | An object created with one owner and retained k times survives k releases. Release number k + 1 is the one that says "deallocate". |
| Closures.Descriptor2 | runtime.cpp:164-176 | The copy/dispose pair exists exactly when BLOCK_HAS_COPY_DISPOSE is set, and it is the descriptor's pair. |
| Closures.Descriptor3 | runtime.cpp:178-187 | The signature/layout pair exists exactly when BLOCK_HAS_SIGNATURE is set, and it is the descriptor's pair. |
| Closures.UsesStret | runtime.cpp:459-464 | The answer is true exactly when both the signature bit and the stret bit are set, so a Block_descriptor_3 is present. |
| Closures.Signature | runtime.cpp:471-478 | The result is NULL without BLOCK_HAS_SIGNATURE. Otherwise it is the descriptor's signature. |
| Closures.HasSignatureString | runtime.cpp:466-469 | The answer is true exactly when the signature bit is set and a signature string is really present. |
| Closures.Layout | runtime.cpp:480-490 | The old-style layout is given exactly for closures without an extended layout that have a Block_descriptor_3, and it is then the descriptor's layout. |
| Closures.ExtendedLayout | runtime.cpp:492-505 | The result is present exactly when the extended-layout and signature bits are both set. A missing layout string reads as "". |
| Closures.LayoutReadersExclusive | runtime.cpp:480-505 | The old-style and extended layout readers never both answer for the same closure. |
| Closures.Copy | runtime.cpp:221-291 | NULL maps to NULL. A heap closure is the same object with one more owner, or with its word unchanged when the count is saturated, and nothing else changed; this test comes before the global test. A global closure is unchanged. On a failed allocation, a stack closure gives NULL and memory is untouched. Otherwise the result is a fresh object equal to the source except for the malloc isa and flags with one owner plus NEEDS_FREE. The copy helper is called once with (new, old) exactly when the closure has helpers. |
| Closures.BeginRelease | runtime.cpp:425 | The decrement inside release says "tear down" exactly for the last owner of a live closure, and then leaves count 0 with the deallocating bit set. A saturated or zero count latches and leaves memory unchanged. Any other word drops one owner. The upper bits are always kept, and only the flags change. |
| Closures.Release | runtime.cpp:408-436 | Release of NULL, of a global closure or of a non-heap closure changes nothing and calls nothing. The last owner's release removes the closure, and the trace is the dispose helper (if any), then the destruct hook, then the free. A saturated or zero count latches: nothing changes and nothing is called. Any other release changes only the flags, by exactly one owner fewer. |
| Closures.TryRetain | runtime.cpp:438-441 | The call succeeds exactly when teardown has not begun, and then adds one owner unless the count is saturated, in which case the word is unchanged. On failure memory is unchanged. |
| Closures.IsDeallocatingBlock | runtime.cpp:443-446 | A closure reports teardown exactly when tryRetain on it would fail. |
| Closures.NoResurrectionDuringTeardown | runtime.cpp:408-446 | In the state after release has decided on teardown (the state the dispose helper sees), the closure reports deallocating. tryRetain fails without changing anything, and a second release does not decide again. |
| Closures.StackCopyThenReleaseFrees | runtime.cpp:247-290 | Copy a stack closure and release the copy once: memory holds exactly the original objects again. The calls were copy helper, dispose helper, destruct hook, free, in that order. |
| Closures.RetainThenReleaseRestores | runtime.cpp:237-241 | Retain then release a heap closure that has an owner and does not saturate: the result is the identical memory with no calls. The retain keeps the object's identity. |
| Byrefs.PromotedFlags | runtime.cpp:315-317 | A promoted cell's flags keep the source's upper bits and add BLOCK_BYREF_NEEDS_FREE. The helper bit and deallocating bit are kept. The new count is the old count with bit 1 or-ed in, not an assignment; so from a zero count it is 2, one owner for the caller and one for the stack frame. |
| Byrefs.ByrefCopy | runtime.cpp:300-366 | The result is always the forwarding pointer of the argument. If the authoritative cell has count 0, a fresh cell is allocated. It has NULL isa, forwards to itself, has the same size and promoted flags, and the argument now forwards to it. With helpers, keep/destroy are copied, the variable is left for the keep helper, and keep is called once with (new, old). Without helpers, the variable and the layout are bit-copied; with helpers the layout is copied only when BLOCK_BYREF_LAYOUT_EXTENDED is set. An authoritative heap cell with a nonzero count instead gains one owner (its word is unchanged when the count is saturated), with nothing else changed. An authoritative non-heap cell with a nonzero count changes nothing, and its forwarding pointer is returned. |
| Byrefs.ByrefRelease | runtime.cpp:368-391 | The call acts on the forwarded cell. A non-heap cell is left alone. A heap cell with count 0 fails the assertion. The last owner's release removes the cell after its destroy helper (if any). A saturated cell is left unchanged. Any other release drops exactly one owner. |
| Byrefs.ByrefCopyKeepsCoherence | runtime.cpp:308-365 | Promotion preserves the forwarding invariant. A heap cell forwards to itself and has an owner. A stack cell has count 0 and forwards to itself, to a heap cell, or to freed storage. |
| Byrefs.ByrefReleaseKeepsCoherence | runtime.cpp:368-391 | Release of a coherent cell never hits the assertion and preserves the forwarding invariant. |
| Byrefs.ForwardingConverges | runtime.cpp:319-324 | After promoting a coherent cell, both the argument and the returned cell forward to the returned cell, which is on the heap. |
| Byrefs.PromoteTwiceIsRetain | runtime.cpp:308-365 | Promote a fresh stack cell twice: the same heap cell comes back with no second allocation and no calls. Its low count word goes from 4 to 6. |
| Byrefs.PromoteThenReleaseTwice | runtime.cpp:300-391 | A promoted cell survives the capturing closure's release. The stack frame's release then frees it after the destroy helper. Memory is back to the original objects, except that the stack cell now forwards to the freed address. |
| Dispatch.TagOf | Block_private.h:384-406 | Each field kind's tag is one of the eight legal tags and is built from the field-tag bits alone, so masking with BLOCK_ALL_COPY_DISPOSE_FLAGS leaves it unchanged. |
| Dispatch.KindOf | Block_private.h:384-406 | The masked flags select a table row exactly when they equal that row's tag. Otherwise no row's tag matches and no row is chosen. |
| Dispatch.KindTagRoundTrip | runtime.cpp:525-540 | Every row's tag is one of the legal tags, and it is read back as that same row. |
| Dispatch.KindIgnoresUnmaskedBits | runtime.cpp:555 | Bits outside BLOCK_ALL_COPY_DISPOSE_FLAGS never change the row chosen. |
| Dispatch.ObjectAssign | runtime.cpp:552-622 | OBJECT calls the retain callback once and then stores the object. BLOCK stores the result of copy. BYREF and BYREF or WEAK store the promoted cell, which the argument now forwards to. The four byref-caller tags store the pointer as it is. Any other tag leaves the slot and memory untouched. |
| Dispatch.ObjectDispose | runtime.cpp:628-653 | BYREF and BYREF or WEAK release the cell. BLOCK releases the closure. OBJECT calls the release callback once. The byref-caller tags and unknown tags do nothing. Only a byref release can hit the assertion. |
| Dispatch.ClosureOpsKeepCoherence | runtime.cpp:221-436 | Copy and release of closures preserve the byref forwarding invariant. |
| Dispatch.DispatchKeepsCoherence | runtime.cpp:552-653 | Assign and dispose of any field preserve the byref forwarding invariant, and dispose never hits the assertion on coherent memory. |
| Dispatch.ByrefCopyThenReleaseRestores | runtime.cpp:359-389 | Promote and then release a cell that is already on the heap: the result is the identical memory and no calls. |
| Dispatch.AssignThenDisposeBalances | runtime.cpp:552-653 | Assign then dispose of one field with one tag gives back the original memory. For OBJECT the trace is exactly retain then release. For a heap closure, a heap cell or a byref-caller tag the trace is empty. |

## Left out

- Atomics and concurrency: the compare-and-swap macros, the Win32 shims and the retry loops are modelled as one sequential step each. Interleavings, including concurrent first promotion of one cell, are not modelled.
- Pointer authentication: the signed function-pointer macros and the re-signing of `invoke` in `_Block_copy` are platform hardening and are not modelled. The copy keeps `invoke` as it was.
- Raw memory: `malloc`, `free` and `memmove` are abstract. Allocation takes a fresh address, free removes the address, and a copy copies the record. Failure is modelled only where the source checks for it, in `_Block_copy`.
- Helper and callback bodies: the compiler-synthesised copy/dispose/keep/destroy helpers and the host retain/release/destruct callbacks are opaque. Their calls are recorded in the trace, but their effects on memory are not modelled. So a closure copy does not recurse into field dispatch for its captured fields.
- `_Block_use_RR2`: the installed callbacks are a `Callbacks` value passed to the operations that call them. The one-time global registration is not modelled.
- Introspection: `Block_size` only reads the descriptor's size and is not modelled. The signature and layout readers are modelled only as far as their flag tests and NULL / "" answers.
- Extended-layout encoding (the `BLOCK_LAYOUT_*` byte codes): nothing in the runtime decodes it.
- Byrefs.PromotedCell: fields that a flag says do not exist (keep/destroy without BLOCK_BYREF_HAS_COPY_DISPOSE) are copied anyway in the bit-copy branch. No reader looks at them.
- Closures.Release: the return value is void in the source. The model always answers `Done`, and the freed closure's teardown calls run as one atomic step after the decrement (see `BeginRelease` for the state in between).
- Byrefs.ByrefCopy: allocation is assumed to succeed. The source writes through an unchecked `malloc` result.
