# Malfunction central: the active fault-code registry

rusEFI keeps the OBD malfunction codes that are currently active in one
module-level record, `error_codes_set`: a fixed array of `MAX_ERROR_CODES_COUNT`
slots and a `count` of live entries at its front. A code is reported with
`addError`, cleared with `removeError`, or either through `setError`. A
snapshot is copied out with `getErrorCodes`, and `hasErrorCodes` says whether
anything is active. The live entries behave as a bounded, duplicate-free set
that remembers reporting order. Clearing a code closes the gap, keeps the order
of the rest, and writes the filler code 0 into the freed slot.

The project has two modules:

- `ErrorCodeList` (`error_code_list.dfy`) is the abstract view. The live codes
  are a `seq<int>`. `IndexOf` is the search, `Added` is reporting and `Removed`
  is clearing. Lemmas say what they mean for the set: no duplicates, which codes
  are present, multiset effect, idempotence and the report-then-clear round trip.
- `MalfunctionCentral` (`malfunction_central.dfy`) is the registry itself.
  Class `ErrorCodesSet` has the slot array `errorCodes` and the field `count`.
  Its invariant `Valid()` says the array has `capacity` slots,
  `count <= capacity`, and the live slots hold no code twice. `Codes()` is the
  live region `errorCodes[..count]`. There is one member per C function. Each
  is proved against the functions of `ErrorCodeList`, and its ensures
  give the whole new state of the array and of `count`. The module also holds
  the shift loop of `removeError` exactly as written (see Findings).

Modelling choices:

- `MAX_ERROR_CODES_COUNT` and `obd_code_e` come from `malfunction_central.h`,
  which is not part of this model. The capacity is the constant field `capacity`,
  fixed by the constructor, with no value assumed. Codes are plain integers.
- The single static record becomes one `ErrorCodesSet` object. Its constructor
  stands for static storage: every slot is zero and `count` is 0.
- **The shift loop of `removeError`.** The source loops `t` from the found
  position while `t < count` and copies slot `t + 1` into slot `t`. Its last
  step reads slot `count`, which is one past the live region. When the
  registry is full this read is one past an array of `MAX_ERROR_CODES_COUNT`
  slots. The value read there is overwritten at once by the 0 written into
  slot `count - 1`. The model's loop, `ErrorCodesSet.ShiftLeftFrom` (called by
  `ErrorCodesSet.RemoveError`), therefore stops at `count - 1`, over an array
  of exactly `capacity` slots.
  `RemoveAtAsWrittenFaultsWhenFull` proves the two loops agree. Whenever the
  loop as written has a slot to read at `count`, it leaves the same slots as
  `RemoveError`. It lacks such a slot exactly when the registry is full.

## Model

| member | source | states |
|---|---|---|
| `ErrorCodeList.IndexOf` | firmware/controllers/algo/malfunction_central.c:13-23 | the result is -1 exactly when the code is not live; otherwise it is a live index holding the code, and no earlier live slot holds it |
| `ErrorCodeList.IndexOfDistinct` | firmware/controllers/algo/malfunction_central.c:16-23 | in a duplicate-free list the search returns each code's own position |
| `MalfunctionCentral.ErrorCodesSet.FindPosition` | firmware/controllers/algo/malfunction_central.c:16-23 | the linear search returns the least live index holding the code, or -1 exactly when no live slot holds it (agrees with `IndexOf`) |
| `MalfunctionCentral.ErrorCodesSet.constructor` | firmware/controllers/algo/malfunction_central.c:11 | static storage: all slots 0, no live code, invariant established |
| `MalfunctionCentral.ErrorCodesSet.InitMalfunctionCentral` | firmware/controllers/algo/malfunction_central.c:25-27 | afterwards no code is live, `hasErrorCodes` is false, the invariant holds, and the slots are untouched |
| `ErrorCodeList.Added` | firmware/controllers/algo/malfunction_central.c:29-34 | reporting never takes the list past the capacity; a code is live afterwards iff it was live before or it is the reported code and there was room; it keeps the list duplicate-free |
| `MalfunctionCentral.ErrorCodesSet.AddError` | firmware/controllers/algo/malfunction_central.c:29-34 | when there is room and the code is absent, it is written at slot old `count` and `count` grows by one, with every other slot unchanged; otherwise nothing changes; the invariant is kept |
| `ErrorCodeList.AddIdempotent` | firmware/controllers/algo/malfunction_central.c:30 | reporting a code twice is the same as reporting it once |
| `ErrorCodeList.Removed` | firmware/controllers/algo/malfunction_central.c:36-43 | clearing shortens the list by one exactly when the code was live, and never introduces a code |
| `ErrorCodeList.RemovedFromDistinct` | firmware/controllers/algo/malfunction_central.c:36-43 | on a duplicate-free list, clearing keeps it duplicate-free and the live codes afterwards are exactly the old ones minus the cleared code |
| `ErrorCodeList.RemovedMultiset` | firmware/controllers/algo/malfunction_central.c:36-43 | clearing removes one copy of the code (if any) and no other entry |
| `ErrorCodeList.RemoveIdempotent` | firmware/controllers/algo/malfunction_central.c:36-43 | on a duplicate-free list, clearing a code twice is the same as clearing it once |
| `MalfunctionCentral.ErrorCodesSet.RemoveError` | firmware/controllers/algo/malfunction_central.c:36-43 | when the code is live at position p, the live entries after p move one slot left in order, `count` drops by one, the freed slot becomes 0 and the slots beyond are untouched; when it is absent nothing changes; the invariant is kept |
| `MalfunctionCentral.ErrorCodesSet.ShiftLeftFrom` | firmware/controllers/algo/malfunction_central.c:39-40 | the shift loop moves each live entry after `pos` one slot left; the slots before `pos` and from `count - 1` on keep their values |
| `MalfunctionCentral.SlotsAfterRemoval` | firmware/controllers/algo/malfunction_central.c:39-41 | after the shift and the zeroing, the slot array is the old one with the entry at p cut out and a 0 put at the end of the live region; the new live region is `Removed` of the old one and stays duplicate-free |
| `MalfunctionCentral.ErrorCodesSet.SetError` | firmware/controllers/algo/malfunction_central.c:45-50 | a non-zero flag has exactly the effect of `addError`, a zero flag exactly that of `removeError` |
| `ErrorCodeList.AddThenRemove` | firmware/controllers/algo/malfunction_central.c:29-50 | reporting an absent code into a registry with room and then clearing it restores the original live codes |
| `MalfunctionCentral.ErrorCodesSet.GetErrorCodes` | firmware/controllers/algo/malfunction_central.c:52-56 | the copy's count and live slots equal the registry's, the copy's later slots are untouched, and the registry's count and whole slot array are unchanged (also when the copy is the registry) |
| `MalfunctionCentral.ErrorCodesSet.HasErrorCodes` | firmware/controllers/algo/malfunction_central.c:58-60 | true exactly when some code is live |
| `MalfunctionCentral.ShiftAsWritten` | firmware/controllers/algo/malfunction_central.c:39-40 | the loop as written keeps the length of the slot array whenever it reads no slot past the end |
| `MalfunctionCentral.ShiftAsWrittenWithSpareSlot` | firmware/controllers/algo/malfunction_central.c:39-40 | with a slot beyond `count`, the loop as written moves each later live entry one slot left and leaves slot `count` as it was |
| `MalfunctionCentral.ShiftAsWrittenOverreads` | firmware/controllers/algo/malfunction_central.c:39-40 | when `count` equals the array length, the loop as written always reads past the array |
| `MalfunctionCentral.RemoveAtAsWritten` | firmware/controllers/algo/malfunction_central.c:38-41 | the removal as written: None when the shift reads past the slot array; otherwise slots of the same length with 0 at `count - 1`, the slots before `pos` and from `count` on untouched (the exact outcome is given by `RemoveAtAsWrittenFaultsWhenFull`) |
| `MalfunctionCentral.RemoveAtAsWrittenFaultsWhenFull` | firmware/controllers/algo/malfunction_central.c:38-41 | the removal as written reads past the array exactly when the registry is full; otherwise it gives the same slots as `RemoveError` |

## Findings

| source | as written | input that shows it | evidently intended | confidence | as-written member | corrected member |
|---|---|---|---|---|---|---|
| firmware/controllers/algo/malfunction_central.c:39-40 | the shift loop runs `t` up to `count - 1` and reads `error_codes[t + 1]`, so its last step reads `error_codes[count]` | a full registry (`count == MAX_ERROR_CODES_COUNT`) and `removeError` of any live code: the last step reads `error_codes[MAX_ERROR_CODES_COUNT]`, one past the array (assuming the array has `MAX_ERROR_CODES_COUNT` slots, as declared in the header that is not part of this model) | stop the loop one step earlier (`t < count - 1`); the value read is overwritten by the 0 anyway, so nothing observable changes | medium, not executed | `MalfunctionCentral.RemoveAtAsWrittenFaultsWhenFull` | `MalfunctionCentral.ErrorCodesSet.RemoveError` |

## Left out

- `malfunction_central.h` is not part of this model. The value of `MAX_ERROR_CODES_COUNT` and the representation of `obd_code_e` are therefore left abstract: a capacity fixed at construction, and unbounded integers.
- The C `int` fields: `count` is modelled as a `nat`. It always stays between 0 and the capacity, so the width of `int` never matters. Codes are compared only for equality, so their width does not matter either.
- The record is a module-level static in C and an object here. The model does not say that only one registry exists.
- The registry is not thread-safe in C. Calls from several threads or from interrupts are outside this model.
- The Kinetis SPI low-level driver header (`hal_spi_lld.h`) is not modelled. It holds only declarations, register macros and compile-time configuration checks, and its functions have no bodies there.
- The Java `FileFsioSettingsConsumer` is not modelled. It only writes header comments and another class's output to a file.
