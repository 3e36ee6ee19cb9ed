# libcamera-rs control exchange layer, in Dafny

This project models the layer of libcamera-rs through which Rust code reads and
writes camera controls and properties. It has two halves.

- The C shim (`libcamera-sys/c_api/controls.cpp`, module `ControlsShim`) exposes
  libcamera's `ControlList` as an `id → value` store. It adds a cursor protocol
  (`iter`, `iter_end`, `iter_next`, `iter_id`, `iter_value`), null-on-miss
  lookups in lists and info maps, default-on-miss name and type lookups, and
  the accessors of a `ControlInfo`. One of those accessors copies the allowed
  values into a freshly `malloc`'d array.
- The Rust layer (`libcamera/src/control.rs`, module `Control`) turns these into
  typed operations. `get` yields `NotFound` or a `ValueError`. `set` always
  returns `Ok(())`. `ControlInfo::min/max/def/values` release every transient
  native allocation. `ControlListRefIterator` walks a list and releases its
  cursor once, on drop. The `Debug` impls choose what key to show.

`ControlValues` holds the tagged value (`ControlValue`) and its native form
(`NativeValue`: type code, array flag, elements). Their reader and writer live
in `control_value.rs`, which is not part of this model. `Decode` and `Encode`
stand in for them. They are built so that the properties the layer relies on
hold and are proved: unknown type codes and ill-shaped payloads are errors; the
integer widths are fixed; write-then-read gives back the value.

Native allocation is tracked by a ghost `NativeHeap`. Its `live` set holds
every object created and not yet released. It also counts acquisitions and
releases. Releasing requires membership, so nothing can be released twice. A
method whose contract keeps `live` unchanged and raises both counters by one
has paired one acquisition with exactly one release on every path.

The native list is the class `NativeList`. `order` is libcamera's iteration
order, and `values` is the map. Contracts never promise that `order` follows
insertion order. A list may carry a validator: the set of identifiers the
camera supports. Writes to any other identifier are dropped silently.

The model follows the code on these points:

- The iterator has no separate Active/Exhausted state. It is exhausted exactly
  when the cursor stands at the end.
- The cursor is released only when the iterator is dropped. Reaching the end
  does not release it.
- Iteration order is the native container's order, not insertion order.
- `ControlInfo::values` reports `Ok` with no values when the shim's allocation
  fails. Then `size` keeps its initial 0, and the slice is built from a null
  pointer. `Control.ControlInfoValues` states this outcome.

## Model

| member | source | states |
|---|---|---|
| ControlValues.TypeFromCode | libcamera-sys/c_api/controls.cpp:97-99 | a native type code names an element type exactly when it is one of the nine codes 1 to 9 the model assigns to the element types, and that type's code is the code read |
| ControlValues.Encode | libcamera-sys/c_api/controls.cpp:117-121 | a written value carries the "none" code exactly when it is unset, is an array exactly when the value is one, and carries no elements when unset and otherwise the value's elements under the code of its type |
| ControlValues.Decode | libcamera-sys/c_api/controls.cpp:97-115 | reading fails with `UnknownType(code)` exactly for an unknown non-none code, otherwise only as `Malformed`; whatever it accepts is well-formed and re-encodes to exactly the native value read |
| ControlValues.DecodeEncode | libcamera-sys/c_api/controls.cpp:113-121 | round trip: reading back a written well-formed value gives that value |
| ControlsShim.ControlName | libcamera-sys/c_api/controls.cpp:8-14 | the name is present exactly for identifiers in the control table, and is that entry's name; null otherwise |
| ControlsShim.ControlTypeCode | libcamera-sys/c_api/controls.cpp:16-22 | the "none" type code exactly for unknown identifiers; for a known one, a code naming its type |
| ControlsShim.PropertyName | libcamera-sys/c_api/controls.cpp:24-30 | the name is present exactly for identifiers in the property table, and is that entry's name; null otherwise |
| ControlsShim.PropertyTypeCode | libcamera-sys/c_api/controls.cpp:32-38 | the "none" type code exactly for unknown identifiers; for a known one, a code naming its type |
| ControlsShim.ListCreate | libcamera-sys/c_api/controls.cpp:40-42 | a fresh, empty, valid list without a validator, now live |
| ControlsShim.ListDestroy | libcamera-sys/c_api/controls.cpp:44-46 | releases a live list once; only a live list can be destroyed |
| ControlsShim.ListGet | libcamera-sys/c_api/controls.cpp:48-54 | the stored value exactly when the list contains the identifier, null otherwise |
| ControlsShim.ListSet | libcamera-sys/c_api/controls.cpp:56-60 | an accepted identifier is stored with a copy of the value; otherwise the list is unchanged; nothing is reported either way; an existing entry keeps its place in the order; the list stays valid |
| ControlsShim.ListIter | libcamera-sys/c_api/controls.cpp:62-65 | a fresh live cursor over the list at its first entry |
| ControlsShim.IterDestroy | libcamera-sys/c_api/controls.cpp:67-69 | releases a live cursor once |
| ControlsShim.IterEnd | libcamera-sys/c_api/controls.cpp:71-73 | true exactly when the cursor stands at the list's end; on an empty list a fresh cursor is already at the end |
| ControlsShim.IterNext | libcamera-sys/c_api/controls.cpp:75-79 | moves exactly one position when not at the end and stays put at the end, so it never passes the end |
| ControlsShim.IterId | libcamera-sys/c_api/controls.cpp:81-83 | the key of the entry under the cursor, a key of the list |
| ControlsShim.IterValue | libcamera-sys/c_api/controls.cpp:85-87 | the value stored under the key the cursor is on, the one a lookup of that key returns |
| ControlsShim.ValueCreate | libcamera-sys/c_api/controls.cpp:89-91 | a fresh live handle holding the unset value |
| ControlsShim.ValueDestroy | libcamera-sys/c_api/controls.cpp:93-95 | releases a live handle once |
| ControlsShim.InfoMapGet | libcamera-sys/c_api/controls.cpp:123-133 | the entry exactly when the map holds the key, null otherwise |
| ControlsShim.InfoMin | libcamera-sys/c_api/controls.cpp:145-150 | a fresh live handle holding the minimum, one acquisition |
| ControlsShim.InfoMax | libcamera-sys/c_api/controls.cpp:151-166 | a fresh live handle holding the maximum; if the native accessor throws, the handle it created is released and null returned, leaving nothing live |
| ControlsShim.InfoDef | libcamera-sys/c_api/controls.cpp:167-172 | a fresh live handle holding the default, one acquisition |
| ControlsShim.InfoValues | libcamera-sys/c_api/controls.cpp:173-185 | on a successful allocation, a fresh live array whose slot `i` holds allowed value `i` for every `i`, with the count written out; on failure, null and the count passed back unchanged |
| ControlsShim.Free | libcamera/src/control.rs:99-101 | frees a live allocation once; freeing null does nothing |
| Control.TryFrom | libcamera/src/control.rs:25-29 | succeeds exactly when the value has the entry type's element type and shape; the result holds the value itself, never a coerced one; otherwise a `TypeMismatch` error |
| Control.Into | libcamera/src/control.rs:25-29 | round trip: `try_from(into(v))` gives back `v` |
| Control.DynId | libcamera/src/control.rs:41-43 | the identifier of the entry's type, which every conversion of its value keeps |
| Control.DynValue | libcamera/src/control.rs:45-47 | the entry's value as a tagged value of the entry's type, converting back to the same entry |
| Control.ControlListGet | libcamera/src/control.rs:169-175 | `NotFound(ID)` exactly when the list has no entry for `ID`; a `ValueError` exactly when the stored value does not decode or does not fit the type, carrying the decode error in the first case and `TypeMismatch` in the second; a stored value that decodes and fits the type is returned under the requested type |
| Control.PropertyListGet | libcamera/src/control.rs:240-246 | the same contract as `ControlList::get`, for property entries |
| Control.GetAfterSet | libcamera/src/control.rs:177-180 | a list entry written from a typed value reads back as exactly that typed value |
| Control.WriteEntry | libcamera/src/control.rs:182-189 | one transient handle is created, written, handed to the list and released exactly once; an accepted identifier then reads back as the written value, and an unaccepted one leaves the list unchanged; overwriting an existing entry keeps its place in the native order |
| Control.ControlListSet | libcamera/src/control.rs:177-192 | always `Ok(())`; the value is stored and readable by `get` only if the list accepts the identifier, and the list is otherwise unchanged; an existing entry keeps its place in the native order; one handle acquired and released |
| Control.PropertyListSet | libcamera/src/control.rs:248-263 | always `Ok(())`; the value is stored and readable by `get` only if the list accepts the identifier, and the list is otherwise unchanged; an existing entry keeps its place in the native order; one handle acquired and released |
| Control.ControlInfoMin | libcamera/src/control.rs:63-70 | the decoded minimum, success or error, unchanged; the transient handle is released exactly once on both outcomes |
| Control.ControlInfoMax | libcamera/src/control.rs:71-78 | the decoded maximum, success or error, unchanged; the transient handle is released exactly once on both outcomes |
| Control.ControlInfoDef | libcamera/src/control.rs:79-86 | the decoded default, success or error, unchanged; the transient handle is released exactly once on both outcomes |
| Control.DecodeAll | libcamera/src/control.rs:93-98 | either every element decoded, as many as given and in order, or the error of the first element that fails, and no partial vector |
| Control.ControlInfoValues | libcamera/src/control.rs:87-103 | the allowed values decoded in native order or the first decode error; `Ok` with no values when the allocation fails; the native array freed on every path |
| Control.ControlInfoDebug | libcamera/src/control.rs:106-115 | the rendered record holds each query's own outcome, so one failing query shows as its error without hiding the others |
| Control.ControlInfoMapGet | libcamera/src/control.rs:131-138 | `None` exactly when the native lookup gives null, otherwise that entry |
| Control.Items | libcamera/src/control.rs:302-319 | a full iteration yields one pair per key of the native order |
| Control.ItemAt | libcamera/src/control.rs:305-317 | the `k`-th pair yielded is the `k`-th key in native order with its decoded value |
| Control.IterationCoversList | libcamera/src/control.rs:302-325 | iterating a list with N entries yields exactly N pairs; every stored pair appears with its decoded value, and no identifier appears twice |
| Control.ControlListRefIterator.Next | libcamera/src/control.rs:305-318 | at the end, `None` without moving, and so `None` on every later call; otherwise the current key and decoded value, one step forward |
| Control.ControlListRefIterator.Drop | libcamera/src/control.rs:321-325 | releases the cursor exactly once; afterwards the iterator can no longer be used |
| Control.IntoIter | libcamera/src/control.rs:195-206 | an iterator owning a fresh live cursor at the list's first entry, one acquisition and no release |
| Control.DebugRowOf | libcamera/src/control.rs:211-221 | a raw numeric key exactly for unknown identifiers; a typed value exactly when the identifier is known and the value fits its type; otherwise the known identifier with the raw value; a typed row holds the value under the descriptor registered for the identifier, a known-id row shows that descriptor, and the identifier and value shown are always the pair's own |
| Control.DebugEntries | libcamera/src/control.rs:208-223 | one row per stored pair, in native order, each chosen as above; the cursor is released, leaving nothing live |

`PropertyList`'s `Debug` impl (libcamera/src/control.rs:279-295) is the same
loop with the property registry, so `Control.DebugEntries` covers it when given
that registry.

## Left out

- The byte-level payload handling is left out: `libcamera_control_value_get/set` with `memcpy` and raw data pointers, and the `read`/`write` in `control_value.rs`. `Decode` and `Encode` work on type code, array flag and elements.
- The `value_type`, `value_is_none`, `value_is_array` and `value_num_elements` accessors are folded into `Decode`.
- The `unsafe` `from_ptr`/`ptr` casts, `#[repr(transparent)]`, `NonNull` and `UniquePtr` are not modelled. A Rust list is the native list object itself. `ControlList::new` is `ListCreate`, and dropping the `UniquePtr` is `ListDestroy`.
- libcamera's `ControlValidator` is replaced by the set of supported identifiers. The rest of its logic is foreign code.
- The generated `ControlId`/`PropertyId` tables and `make_dyn` become parameters: `IdInfo` maps for the shim lookups, and a registry of entry descriptors for the `Debug` key choice.
- Concrete control types are modelled as an `EntryDescriptor` with a `TypedEntry` value. The generated Rust types are not part of this model.
- `Debug` string formatting, and the shim's `fprintf` diagnostics, are left out.
- Real allocators are left out. `malloc`'s outcome is the input `allocOk`, and whether the native `max()` throws is the field `maxThrows`.
- Panics from `unwrap` become preconditions. `ControlListRefIterator.Next` requires the current value to decode. `ControlInfoMax` requires the native `max()` not to throw.
- ControlsShim.InfoMin: exceptions from the native `min()` are not caught by the shim and are not modelled. The same holds for ControlsShim.InfoDef and `def()`.
- Control.ControlInfoValues: the model reads a null array with `size` 0 as an empty slice. In Rust, building a slice from a null pointer is undefined behaviour.
- ControlsShim.InfoValues: the array is modelled as initialised storage. The C code copy-assigns into uninitialised `malloc`'d memory, and the Rust side `free`s it without running the elements' destructors. Neither is modelled.
- Changing a list while a cursor over it is alive is not modelled. Every cursor operation requires a valid list and a position within it. `IterNext` and the typed iterator also require the cursor to be live; `IterEnd`, `IterId` and `IterValue` do not. Nothing requires the list to stay unchanged between steps; the Rust borrow guarantees that.
- Use after release is not excluded for lists and raw cursors. Only value handles handed to a list, a cursor that `IterNext` advances and the typed iterator's cursor must be live when used. Releasing always requires liveness, so nothing is released twice.
- Control.TryFrom: a concrete entry type is modelled as accepting every value of its element type and shape. A generated type that rejects further values of that type is not captured, such as an enum outside its variants or an array of another length. The success clauses of Control.ControlListGet and Control.PropertyListGet, and the typed-row case of Control.DebugRowOf, rest on this acceptance rule.
- Concurrency is not modelled. The layer is single-threaded.
