/**
 * The handle checks and accessors of the JNI local reference table: turning
 * an opaque handle into a slot, with the three diagnosed ways a handle can be
 * bad, and reading or rebinding the object a good handle names.
 */
module LocalReferenceTables {
  import opened Base
  import opened LrtEntries

  /** The kind tag a handle carries; this table hands out `Local` handles only. */
  datatype IndirectRefKind = JniTransition | Local | Global | WeakGlobal

  /**
   * A handle (`IndirectRef`), seen through its decoded fields. How the three
   * fields are packed into one pointer-sized word is left abstract.
   */
  datatype IndirectRef = IndirectRef(kind: IndirectRefKind, index: u32, serial: u32)

  /** Why a handle was rejected; the fields are the values its diagnostic message reports. */
  datatype InvalidReason =
    | OutOfRange(index: u32, topIndex: u32)
    | Deleted(index: u32)
    | Stale(refSerial: u32, entrySerial: u32)

  /** The outcome of validating a handle: `Ok` is `true`, `Invalid` is `false` with its message. */
  datatype Validity = Ok | Invalid(reason: InvalidReason)

  class LocalReferenceTable {
    /** `table_`: the slot storage, one `LrtEntry` per index. */
    var table: array<LrtEntry>
    /** `segment_state_.top_index`: indices at or above it are not live. */
    var topIndex: u32

    /**
     * The table's invariant: the live range fits in the storage, the slots are
     * distinct (they are stored by value, so no two indices share one) and
     * every serial is in range.
     */
    ghost predicate Valid()
      reads this, table, table[..]
    {
      && topIndex as int <= table.Length
      && (forall i, j :: 0 <= i < j < table.Length ==> table[i] != table[j])
      && (forall i :: 0 <= i < table.Length ==> table[i].serial < kLRTMaxSerial)
    }

    /** A table over already allocated storage whose live range is `[0, top)`. */
    constructor (storage: array<LrtEntry>, top: u32)
      requires top as int <= storage.Length
      requires forall i, j :: 0 <= i < j < storage.Length ==> storage[i] != storage[j]
      requires forall i :: 0 <= i < storage.Length ==> storage[i].serial < kLRTMaxSerial
      ensures Valid()
      ensures table == storage && topIndex == top
    {
      table := storage;
      topIndex := top;
    }

    /**
     * The canonical handle of slot `idx`: its index together with the slot's
     * current serial. This is the modelling assumption about the handle codec.
     */
    function ToIndirectRef(idx: u32): IndirectRef
      reads this, table, table[..]
      requires idx as int < table.Length
    {
      IndirectRef(Local, idx, table[idx].serial)
    }

    /**
     * Validates a handle: first its index against the live range (before any
     * slot is looked at), then that its slot is occupied, then that the
     * handle's serial is the slot's current one.
     */
    function IsValidReference(iref: IndirectRef): (r: Validity)
      reads this, table, table[..]
      requires Valid()
      requires iref.kind == Local
      ensures iref.index >= topIndex ==> r == Invalid(OutOfRange(iref.index, topIndex))
      ensures iref.index < topIndex && table[iref.index].reference.None? ==>
                r == Invalid(Deleted(iref.index))
      ensures iref.index < topIndex && table[iref.index].reference.Some?
              && iref.serial != table[iref.index].serial ==>
                r == Invalid(Stale(iref.serial, table[iref.index].serial))
      ensures r == Ok <==>
                iref.index < topIndex && table[iref.index].reference.Some?
                && iref.serial == table[iref.index].serial
    {
      var idx := iref.index;
      if idx >= topIndex then
        Invalid(OutOfRange(idx, topIndex))
      else if table[idx].reference.None? then
        Invalid(Deleted(idx))
      else if iref.serial != table[idx].serial then
        Invalid(Stale(iref.serial, table[idx].serial))
      else
        Ok
    }

    /** The handles the table currently honours: the canonical handles of its occupied live slots. */
    ghost function LiveRefs(): set<IndirectRef>
      reads this, table, table[..]
      requires Valid()
    {
      set i: u32 | i < topIndex && table[i].reference.Some? :: ToIndirectRef(i)
    }

    /** A handle passes validation exactly when it is one of the table's live handles. */
    lemma ValidExactlyForLiveRefs(iref: IndirectRef)
      requires Valid()
      ensures (iref.kind == Local && IsValidReference(iref) == Ok) <==> iref in LiveRefs()
    {
    }

    /**
     * Checks that `iref` is the handle slot `idx` would hand out now; a
     * mismatch (a stale or foreign handle) yields `false`.
     */
    function CheckEntry(iref: IndirectRef, idx: u32): (ok: bool)
      reads this, table, table[..]
      requires Valid()
      requires idx as int < table.Length
      ensures ok <==> iref.kind == Local && iref.index == idx && iref.serial == table[idx].serial
    {
      ToIndirectRef(idx) == iref
    }

    /**
     * On an occupied live slot, the entry check and validation agree: the
     * handle pairs with the slot exactly when it is valid and names that slot.
     */
    lemma CheckEntryAgreesWithValidation(iref: IndirectRef, idx: u32)
      requires Valid()
      requires iref.kind == Local
      requires idx < topIndex && table[idx].reference.Some?
      ensures CheckEntry(iref, idx) <==> IsValidReference(iref) == Ok && iref.index == idx
    {
    }

    /** The object a valid handle names. */
    function Get(iref: IndirectRef): (obj: Obj)
      reads this, table, table[..]
      requires Valid()
      requires iref.kind == Local
      requires iref.index < topIndex
      requires iref.serial == table[iref.index].serial
      requires table[iref.index].reference.Some?
      ensures table[iref.index].reference == Some(obj)
      ensures iref in LiveRefs()
    {
      ValidExactlyForLiveRefs(iref);
      table[iref.index].reference.value
    }

    /** The checks `Get` and `Update` demand of their caller are exactly the three that validation makes. */
    lemma GetDemandsValidReference(iref: IndirectRef)
      requires Valid()
      requires iref.kind == Local
      ensures (iref.index < topIndex && iref.serial == table[iref.index].serial
               && table[iref.index].reference.Some?) <==> IsValidReference(iref) == Ok
    {
    }

    /**
     * Rebinds the slot a valid handle names to `obj`. Only that slot's
     * reference changes; every serial, every other slot and the live range
     * stay as they were, so the handle now yields `obj` (or, when `obj` is
     * null, reads as deleted).
     */
    method Update(iref: IndirectRef, obj: Option<Obj>)
      requires Valid()
      requires iref.kind == Local
      requires iref.index < topIndex
      requires iref.serial == table[iref.index].serial
      requires table[iref.index].reference.Some?
      modifies table[iref.index]
      ensures Valid()
      ensures table == old(table) && topIndex == old(topIndex)
      ensures table[iref.index].reference == obj
      ensures forall i :: 0 <= i < table.Length ==> table[i].serial == old(table[i].serial)
      ensures forall i :: 0 <= i < table.Length && i != iref.index as int ==>
                table[i].reference == old(table[i].reference)
      ensures obj.Some? ==> IsValidReference(iref) == Ok && Get(iref) == obj.value
      ensures obj.None? ==> IsValidReference(iref) == Invalid(Deleted(iref.index))
    {
      table[iref.index].SetReference(obj);
    }
  }
}
