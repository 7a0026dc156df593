/** The records the runtime works on (Block_layout with its descriptor, and
    Block_byref with its optional tails), an addressable memory holding
    them, and the trace of calls the runtime makes into code it cannot see. */
module Memory {
  import opened Flags

  datatype Option<T> = None | Some(value: T)

  /** An address. Address 0 is NULL and never holds an object. */
  type Ptr = nat
  const Null: Ptr := 0

  /** A reference to code the runtime only calls: an invoke function, a
      compiler-synthesised helper, or a host callback. */
  type CodeRef = nat

  /** The isa slot: one of the block classes, or NULL for a promoted cell. */
  datatype ClassRef = NoClass | StackBlockClass | MallocBlockClass | GlobalBlockClass | OtherClass(id: nat)

  /** Block_descriptor_1 followed by the optional parts _2 (copy and dispose
      helpers) and _3 (signature and layout strings). Which optional parts
      exist is decided by the closure's flags, not by this record. */
  datatype Descriptor = Descriptor(
    reserved: nat,
    size: nat,
    copy: CodeRef,
    dispose: CodeRef,
    signature: Option<string>,
    layout: Option<string>)

  /** Block_layout: header fields, then the captured variables as bytes. */
  datatype Block = Block(
    isa: ClassRef,
    flags: Word,
    reserved: bv32,
    invoke: CodeRef,
    descriptor: Descriptor,
    captures: seq<bv8>)

  /** The variable stored inline in a byref cell. A freshly promoted cell
      whose keep helper has not yet filled it in holds nothing written. */
  datatype Payload = Unwritten | Bytes(bytes: seq<bv8>)

  /** Block_byref: header fields, then Block_byref_2 (keep and destroy
      helpers, present under ByrefHasCopyDispose), Block_byref_3 (layout,
      present under ByrefLayoutExtended), then the variable itself. */
  datatype Byref = Byref(
    isa: ClassRef,
    forwarding: Ptr,
    flags: Word,
    size: bv32,
    keep: CodeRef,
    destroy: CodeRef,
    layout: Option<string>,
    value: Payload)

  datatype Obj = BlockObj(block: Block) | CellObj(cell: Byref)

  /** Every call the runtime makes to code outside it, in order, and every
      free of an object's storage. */
  datatype Event =
    | CallCopyHelper(helper: CodeRef, dst: Ptr, src: Ptr)
    | CallDisposeHelper(helper: CodeRef, block: Ptr)
    | DestructInstance(callback: CodeRef, block: Ptr)
    | RetainObject(callback: CodeRef, object: Ptr)
    | ReleaseObject(callback: CodeRef, object: Ptr)
    | CallByrefKeep(helper: CodeRef, dst: Ptr, src: Ptr)
    | CallByrefDestroy(helper: CodeRef, cell: Ptr)
    | Free(storage: Ptr)

  /** The host callbacks installed by _Block_use_RR2: retain and release of
      a captured object, and the destruct-instance hook. */
  datatype Callbacks = Callbacks(retain: CodeRef, release: CodeRef, destructInstance: CodeRef)

  /** Memory: the objects at their addresses, and the next address that
      allocation hands out. Addresses are never reused, so a freed address
      stays dangling. */
  datatype Memory = Memory(objs: map<Ptr, Obj>, next: Ptr) {

    predicate Valid() {
      && next != Null
      && Null !in objs
      && forall p :: p in objs ==> p < next
    }

    predicate IsBlock(p: Ptr) {
      p in objs && objs[p].BlockObj?
    }

    predicate IsCell(p: Ptr) {
      p in objs && objs[p].CellObj?
    }

    function BlockAt(p: Ptr): (b: Block)
      requires IsBlock(p)
    {
      objs[p].block
    }

    function CellAt(p: Ptr): (c: Byref)
      requires IsCell(p)
    {
      objs[p].cell
    }

    /** Store `o` at the next fresh address. */
    function Alloc(o: Obj): (r: Memory)
      requires Valid()
      ensures r.Valid()
      ensures next !in objs && r.objs == objs[next := o]
    {
      Memory(objs[next := o], next + 1)
    }

    function Put(p: Ptr, o: Obj): (r: Memory)
      requires Valid() && p in objs
      ensures r.Valid() && r.objs.Keys == objs.Keys
    {
      Memory(objs[p := o], next)
    }

    function Remove(p: Ptr): (r: Memory)
      requires Valid()
      ensures r.Valid() && r.objs.Keys == objs.Keys - {p}
    {
      Memory(objs - {p}, next)
    }
  }

  /** The result of an operation that returns a value. */
  datatype Step<T> = Step(mem: Memory, result: T, trace: seq<Event>)

  /** The result of an operation that returns nothing; it may stop the
      process on a failed assertion. */
  datatype Effect = Done(mem: Memory, trace: seq<Event>) | Aborted
}
