# ART JNI local reference table: handle checks and slot accessors

This project models the accessor and validation layer of the Android Runtime's
JNI local reference table. Native code holds a *handle* (`IndirectRef`) rather
than an object pointer. The handle names a slot (`LrtEntry`) of the table by
index and carries the slot's *serial* from when it was issued. The table
checks a handle before use. A handle is rejected when its index is outside
the live range `[0, top_index)`, when its slot is empty (deleted), or when the
slot's serial has moved on (stale: the slot has been reused since). Each
population of a slot advances the serial, wrapping at `kLRTMaxSerial`.

Modules:

- `Base`: `u32` (a `uint32_t`), an abstract object type `Obj`, and `Option`
  for a possibly-null object pointer.
- `LrtEntries`: the slot class `LrtEntry` and its `Add` and `SetReference`,
  which update its fields in place. Also `NextSerial`, the serial arithmetic
  of `Add` including the `uint32_t` wrap of `++`, and lemmas about the serial
  over repeated reuse of a slot.
- `LocalReferenceTables`: the handle datatype, the failure reasons, and the
  class `LocalReferenceTable` over an `array<LrtEntry>` with `topIndex`.
  `IsValidReference`, `CheckEntry` and `Get` are functions over the table's
  state. `Update` is a method that changes one slot in place.

Modelling assumptions:

- `kLRTMaxSerial` is declared in `local_reference_table.h`, which is not part
  of this model. It is a `u32` constant with no value given, so every proof
  holds for any bound.
- The handle codec (`ExtractIndex`, `DecodeSerial`, `GetIndirectRefKind`,
  `ToIndirectRef`) is also declared in that header. A handle is modelled by
  its decoded fields `(kind, index, serial)`. `ToIndirectRef(idx)` is taken to
  be `(Local, idx, serial of slot idx)`, and decoding is taken to invert it.
  No bit layout is modelled.
- The `DCHECK`s of `Get` and `Update`, and the kind `DCHECK` of
  `IsValidReference`, are `requires` clauses.
- A null handle cannot be expressed, so `DCHECK(iref != nullptr)` holds by
  construction.
- `LrtEntry` is stored by value in C++. In the model, the table's invariant
  `Valid()` makes the array's entries pairwise distinct and keeps every serial
  below the bound. `SetReference` demands that bound.

## Model

| member | source | states |
|---|---|---|
| `LrtEntries.NextSerial` | runtime/jni/local_reference_table-inl.h:105-108 | The serial after `Add` stays below `kLRTMaxSerial` when it started below it. It equals the old serial exactly when the bound is 1 and the serial was 0, so with a bound above 1 `Add` always changes the serial. |
| `LrtEntries.LrtEntry.Add` | runtime/jni/local_reference_table-inl.h:104-110 | The new serial is the old one bumped (with `uint32_t` wrap), reset to 0 when it reaches `kLRTMaxSerial`. It stays in range and differs from the old serial when the bound exceeds 1. The slot now holds the given object. |
| `LrtEntries.LrtEntry.SetReference` | runtime/jni/local_reference_table-inl.h:112-115 | Requires the serial to be below `kLRTMaxSerial`. Replaces the reference and leaves the serial unchanged. |
| `LrtEntries.SerialAfterSplit` | runtime/jni/local_reference_table-inl.h:104-110 | `j` then `k` successive `Add`s on one slot leave the same serial as `j + k` `Add`s. |
| `LrtEntries.SerialAfterCountsUp` | runtime/jni/local_reference_table-inl.h:105-108 | While below the bound, `k` `Add`s raise the serial by exactly `k`. |
| `LrtEntries.SerialCycle` | runtime/jni/local_reference_table-inl.h:104-110 | From any in-range serial, the next `kLRTMaxSerial - 1` occupants of a slot get serials different from it. The occupant after them gets the same serial again, which is the window in which a stale handle goes undetected. |
| `LrtEntries.SerialPeriodic` | runtime/jni/local_reference_table-inl.h:104-110 | A slot's serial repeats with period `kLRTMaxSerial` over any number of `Add`s. |
| `LocalReferenceTables.LocalReferenceTable.IsValidReference` | runtime/jni/local_reference_table-inl.h:38-63 | An index at or above `top_index` fails as out of range, whatever the slots hold. An in-range empty slot fails as deleted. An in-range occupied slot with another serial fails as stale, reporting both serials. The result is success exactly when the index is in range, the slot is occupied and the serials match. |
| `LocalReferenceTables.LocalReferenceTable.ValidExactlyForLiveRefs` | runtime/jni/local_reference_table-inl.h:38-63 | A local handle passes validation if and only if it is the canonical handle of some occupied slot below `top_index`. |
| `LocalReferenceTables.LocalReferenceTable.CheckEntry` | runtime/jni/local_reference_table-inl.h:66-81 | True iff the handle equals the canonical handle of slot `idx`: local kind, index `idx`, and the slot's current serial. It only reads the table. |
| `LocalReferenceTables.LocalReferenceTable.CheckEntryAgreesWithValidation` | runtime/jni/local_reference_table-inl.h:66-81 | For an occupied slot below `top_index`, `CheckEntry` holds exactly when the handle is valid and names that slot. |
| `LocalReferenceTables.LocalReferenceTable.Get` | runtime/jni/local_reference_table-inl.h:84-93 | Requires the handle to be in range, to carry the slot's serial, and to name an occupied slot. Returns the object stored in that slot, and the handle is then one of the table's live handles. |
| `LocalReferenceTables.LocalReferenceTable.GetDemandsValidReference` | runtime/jni/local_reference_table-inl.h:85-89 | The three `DCHECK`s of `Get` (and of `Update`) hold together exactly when `IsValidReference` succeeds. |
| `LocalReferenceTables.LocalReferenceTable.Update` | runtime/jni/local_reference_table-inl.h:95-102 | For a valid handle, only the reference of the named slot changes, to `obj`. Every serial, every other slot, the storage and `top_index` are unchanged, and the invariant is kept. Afterwards the handle is valid and `Get` returns `obj`, unless `obj` is null, in which case the handle reads as deleted. |

## Left out

- Read barriers and `VerifyObject` in `Get`: garbage-collector machinery. The read is a plain field read.
- `GcRoot` and `ObjPtr` internals: an object is an abstract `Obj`, and null is `None`.
- Diagnostic strings: `StringPrintf` messages become the failure reason, carrying the values the message would print.
- `CheckEntry`'s `what` argument only feeds the message, so it is omitted.
- `AbortIfNoCheckJNI` in `CheckEntry` may end the process when CheckJNI is off. Process termination is not modelled: a mismatch returns `false`.
- The handle bit layout and the codec functions: declared in `local_reference_table.h`, which is not part of this model. Round-trip consistency is assumed via `ToIndirectRef`.
- `kLRTMaxSerial`'s concrete value: declared in that same header, and left unconstrained.
- Table-level `Add` and `Remove`, `top_index` contraction, segment push and pop, capacity growth and root visiting: not in the modelled file. The table constructor therefore takes storage that was allocated elsewhere.
- Concurrency with the collector: the table has a single owner, and every operation here is sequential.
