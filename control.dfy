/**
  The typed layer over the shim (`libcamera/src/control.rs`): typed get/set on
  control and property lists, the control-info accessors, the info-map lookup
  and the iterator over a list's entries.
 */
module Control {
  import opened Types
  import opened ControlValues
  import opened ControlsShim

  /** `ControlError`. */
  datatype ControlError = NotFound(id: u32) | ValueError(cause: ControlValueError)

  /** The two refinements of `ControlEntry`: `Control` and `Property`. */
  datatype Family = ControlFamily | PropertyFamily

  /** What a concrete `ControlEntry` type fixes: its `ID`, its family and the shape of its value. */
  datatype EntryDescriptor = EntryDescriptor(id: u32, family: Family, ty: ControlType, isArray: bool)

  /** Whether a tagged value has the type and shape the entry type expects. */
  predicate Conforms(d: EntryDescriptor, v: ControlValue)
  {
    match v
    case NoValue => false
    case Single(s) => !d.isArray && TypeOf(s) == d.ty
    case ArrayValue(ty, _) => d.isArray && ty == d.ty && WellFormed(v)
  }

  /** A value of a concrete entry type. */
  datatype TypedEntry = TypedEntry(desc: EntryDescriptor, value: ControlValue)

  predicate WellTyped(t: TypedEntry)
  {
    Conforms(t.desc, t.value)
  }

  /** `C::try_from(ControlValue)`: fails on a value of another type, never coerces. */
  function TryFrom(d: EntryDescriptor, v: ControlValue): (r: Result<TypedEntry, ControlValueError>)
    ensures r.Ok? <==> Conforms(d, v)
    ensures r.Ok? ==> r.value.desc == d && r.value.value == v
    ensures r.Err? ==> r.error == TypeMismatch
  {
    if Conforms(d, v) then Ok(TypedEntry(d, v)) else Err(TypeMismatch)
  }

  /** `C::into()`: total, and undone by `C::try_from`. */
  function Into(t: TypedEntry): (v: ControlValue)
    requires WellTyped(t)
    ensures TryFrom(t.desc, v) == Ok(t)
  {
    t.value
  }

  /** `DynControlEntry::id` of the blanket impl: the entry type's fixed `ID`, whatever the value. */
  function DynId(t: TypedEntry): (id: u32)
    ensures forall v :: TryFrom(t.desc, v).Ok? ==> TryFrom(t.desc, v).value.desc.id == id
  {
    t.desc.id
  }

  /** `DynControlEntry::value` of the blanket impl: a clone converted to a tagged value. */
  function DynValue(t: TypedEntry): (v: ControlValue)
    requires WellTyped(t)
    ensures Conforms(t.desc, v) && TryFrom(t.desc, v) == Ok(t)
  {
    Into(t)
  }

  /** The shared body of `ControlList::get` and `PropertyList::get`. */
  function ReadEntry(list: NativeList, d: EntryDescriptor): Result<TypedEntry, ControlError>
    reads list
  {
    match ListGet(list, d.id)
    case None => Err(NotFound(d.id))
    case Some(raw) =>
      match Decode(raw)
      case Err(e) => Err(ValueError(e))
      case Ok(val) =>
        match TryFrom(d, val)
        case Err(e) => Err(ValueError(e))
        case Ok(c) => Ok(c)
  }

  /**
    `ControlList::get`: `NotFound(ID)` exactly when the list has no entry for
    `ID`; a decode failure or a type mismatch is a `ValueError`, never a value.
   */
  function ControlListGet(list: NativeList, d: EntryDescriptor): (r: Result<TypedEntry, ControlError>)
    reads list
    requires d.family == ControlFamily
    ensures r == Err(NotFound(d.id)) <==> d.id !in list.values
    ensures r.Ok? ==> d.id in list.values && r.value.desc == d && Decode(list.values[d.id]) == Ok(r.value.value)
    ensures r.Err? && r.error.ValueError? <==>
      d.id in list.values && (Decode(list.values[d.id]).Err? || !Conforms(d, Decode(list.values[d.id]).value))
    ensures d.id in list.values && Decode(list.values[d.id]).Err? ==> r == Err(ValueError(Decode(list.values[d.id]).error))
    ensures d.id in list.values && Decode(list.values[d.id]).Ok? && Conforms(d, Decode(list.values[d.id]).value) ==>
      r == Ok(TypedEntry(d, Decode(list.values[d.id]).value))
    ensures d.id in list.values && Decode(list.values[d.id]).Ok? && !Conforms(d, Decode(list.values[d.id]).value) ==>
      r == Err(ValueError(TypeMismatch))
  {
    ReadEntry(list, d)
  }

  /**
    `PropertyList::get`: `NotFound(ID)` exactly when the list has no entry for
    `ID`; a decode failure or a type mismatch is a `ValueError`, never a value.
   */
  function PropertyListGet(list: NativeList, d: EntryDescriptor): (r: Result<TypedEntry, ControlError>)
    reads list
    requires d.family == PropertyFamily
    ensures r == Err(NotFound(d.id)) <==> d.id !in list.values
    ensures r.Ok? ==> d.id in list.values && r.value.desc == d && Decode(list.values[d.id]) == Ok(r.value.value)
    ensures r.Err? && r.error.ValueError? <==>
      d.id in list.values && (Decode(list.values[d.id]).Err? || !Conforms(d, Decode(list.values[d.id]).value))
    ensures d.id in list.values && Decode(list.values[d.id]).Err? ==> r == Err(ValueError(Decode(list.values[d.id]).error))
    ensures d.id in list.values && Decode(list.values[d.id]).Ok? && Conforms(d, Decode(list.values[d.id]).value) ==>
      r == Ok(TypedEntry(d, Decode(list.values[d.id]).value))
    ensures d.id in list.values && Decode(list.values[d.id]).Ok? && !Conforms(d, Decode(list.values[d.id]).value) ==>
      r == Err(ValueError(TypeMismatch))
  {
    ReadEntry(list, d)
  }

  /** A list entry written from a typed entry reads back as that same typed entry. */
  lemma GetAfterSet(list: NativeList, t: TypedEntry)
    requires WellTyped(t)
    requires t.desc.id in list.values && list.values[t.desc.id] == Encode(Into(t))
    ensures ReadEntry(list, t.desc) == Ok(t)
  {
    DecodeEncode(t.value);
  }

  /** The create/write/hand over/destroy sequence shared by both `set`s. */
  method WriteEntry(list: NativeList, val: TypedEntry, ghost heap: NativeHeap)
    requires list.Valid() && WellTyped(val)
    modifies list, heap
    ensures list.Valid()
    ensures list.Accepts(val.desc.id) ==> list.values == old(list.values)[val.desc.id := Encode(val.value)]
    ensures list.Accepts(val.desc.id) ==> ReadEntry(list, val.desc) == Ok(val)
    ensures !list.Accepts(val.desc.id) ==> list.values == old(list.values) && list.order == old(list.order)
    ensures val.desc.id in old(list.values) ==> list.order == old(list.order)
    ensures heap.live == old(heap.live)
    ensures heap.acquisitions == old(heap.acquisitions) + 1 && heap.releases == old(heap.releases) + 1
  {
    var ctrlVal := Into(val);
    var valPtr := ValueCreate(heap);
    valPtr.value := Encode(ctrlVal);  // `ControlValue::write`
    ListSet(list, val.desc.id, valPtr, heap);
    ValueDestroy(valPtr, heap);
    if list.Accepts(val.desc.id) {
      GetAfterSet(list, val);
    }
  }

  /**
    `ControlList::set`: always `Ok(())`. The value is stored only if the list
    accepts the identifier, which the caller learns only by a later `get`.
   */
  method ControlListSet(list: NativeList, val: TypedEntry, ghost heap: NativeHeap)
    returns (r: Result<(), ControlError>)
    requires list.Valid() && val.desc.family == ControlFamily && WellTyped(val)
    modifies list, heap
    ensures r == Ok(())
    ensures list.Valid()
    ensures list.Accepts(val.desc.id) ==> list.values == old(list.values)[val.desc.id := Encode(val.value)]
    ensures list.Accepts(val.desc.id) ==> ControlListGet(list, val.desc) == Ok(val)
    ensures !list.Accepts(val.desc.id) ==> list.values == old(list.values) && list.order == old(list.order)
    ensures val.desc.id in old(list.values) ==> list.order == old(list.order)
    ensures heap.live == old(heap.live)
    ensures heap.acquisitions == old(heap.acquisitions) + 1 && heap.releases == old(heap.releases) + 1
  {
    WriteEntry(list, val, heap);
    r := Ok(());
  }

  /**
    `PropertyList::set`: always `Ok(())`. The value is stored only if the list
    accepts the identifier, which the caller learns only by a later `get`.
   */
  method PropertyListSet(list: NativeList, val: TypedEntry, ghost heap: NativeHeap)
    returns (r: Result<(), ControlError>)
    requires list.Valid() && val.desc.family == PropertyFamily && WellTyped(val)
    modifies list, heap
    ensures r == Ok(())
    ensures list.Valid()
    ensures list.Accepts(val.desc.id) ==> list.values == old(list.values)[val.desc.id := Encode(val.value)]
    ensures list.Accepts(val.desc.id) ==> PropertyListGet(list, val.desc) == Ok(val)
    ensures !list.Accepts(val.desc.id) ==> list.values == old(list.values) && list.order == old(list.order)
    ensures val.desc.id in old(list.values) ==> list.order == old(list.order)
    ensures heap.live == old(heap.live)
    ensures heap.acquisitions == old(heap.acquisitions) + 1 && heap.releases == old(heap.releases) + 1
  {
    WriteEntry(list, val, heap);
    r := Ok(());
  }

  /** `ControlInfo::min`: the decoded minimum; the transient handle is released on both outcomes. */
  method ControlInfoMin(info: NativeInfo, ghost heap: NativeHeap) returns (r: Result<ControlValue, ControlValueError>)
    modifies heap
    ensures r == Decode(info.min)
    ensures heap.live == old(heap.live)
    ensures heap.acquisitions == old(heap.acquisitions) + 1 && heap.releases == old(heap.releases) + 1
  {
    var valuePtr := InfoMin(info, heap);
    var tmp := Decode(valuePtr.value);
    ValueDestroy(valuePtr, heap);
    r := tmp;
  }

  /**
    `ControlInfo::max`: the decoded maximum; the transient handle is released
    on both outcomes. A null handle from the shim makes `unwrap` panic, so the
    native accessor must not throw.
   */
  method ControlInfoMax(info: NativeInfo, ghost heap: NativeHeap) returns (r: Result<ControlValue, ControlValueError>)
    requires !info.maxThrows
    modifies heap
    ensures r == Decode(info.max)
    ensures heap.live == old(heap.live)
    ensures heap.acquisitions == old(heap.acquisitions) + 1 && heap.releases == old(heap.releases) + 1
  {
    var valuePtr := InfoMax(info, heap);
    var tmp := Decode(valuePtr.value);
    ValueDestroy(valuePtr, heap);
    r := tmp;
  }

  /** `ControlInfo::def`: the decoded default; the transient handle is released on both outcomes. */
  method ControlInfoDef(info: NativeInfo, ghost heap: NativeHeap) returns (r: Result<ControlValue, ControlValueError>)
    modifies heap
    ensures r == Decode(info.def)
    ensures heap.live == old(heap.live)
    ensures heap.acquisitions == old(heap.acquisitions) + 1 && heap.releases == old(heap.releases) + 1
  {
    var valuePtr := InfoDef(info, heap);
    var tmp := Decode(valuePtr.value);
    ValueDestroy(valuePtr, heap);
    r := tmp;
  }

  /**
    `collect::<Result<Vec<_>, _>>` over decoded values: every value decoded, in
    order, or the first error and no partial vector.
   */
  function DecodeAll(s: seq<NativeValue>): (r: Result<seq<ControlValue>, ControlValueError>)
    ensures r.Ok? ==> |r.value| == |s| && forall i :: 0 <= i < |s| ==> Decode(s[i]) == Ok(r.value[i])
    ensures r.Err? ==> exists i :: 0 <= i < |s| && Decode(s[i]) == Err(r.error) &&
                                   forall j :: 0 <= j < i ==> Decode(s[j]).Ok?
  {
    if s == [] then Ok([])
    else
      match Decode(s[0])
      case Err(e) => Err(e)
      case Ok(v) =>
        match DecodeAll(s[1..])
        case Err(e) =>
          assert forall j :: 1 <= j < |s| ==> s[j] == s[1..][j - 1];
          Err(e)
        case Ok(vs) => Ok([v] + vs)
  }

  /**
    `ControlInfo::values`: the `size` allowed values decoded in native order, or
    the first decode error; the native array is freed on both outcomes. When the
    shim's allocation fails, `size` stays 0 and the call reports no values.
   */
  method ControlInfoValues(info: NativeInfo, allocOk: bool, ghost heap: NativeHeap)
    returns (r: Result<seq<ControlValue>, ControlValueError>)
    modifies heap
    ensures allocOk ==> r == DecodeAll(info.values)
    ensures !allocOk ==> r == Ok([])
    ensures heap.live == old(heap.live)
    ensures heap.acquisitions - old(heap.acquisitions) == heap.releases - old(heap.releases)
    ensures heap.acquisitions == old(heap.acquisitions) + (if allocOk then 1 else 0)
  {
    var size := 0;
    var ptrToArray;
    ptrToArray, size := InfoValues(info, size, allocOk, heap);
    var valuesPtr := if ptrToArray == null then [] else ptrToArray[..size];
    assert allocOk ==> valuesPtr == info.values by {
      if allocOk { assert ptrToArray[..size] == ptrToArray[..]; }
    }
    var values := DecodeAll(valuesPtr);
    Free(ptrToArray, heap);
    r := values;
  }

  /** The record the `Debug` impl of `ControlInfo` renders; a failing query shows as its error. */
  datatype InfoRecord = InfoRecord(
    min: Result<ControlValue, ControlValueError>,
    max: Result<ControlValue, ControlValueError>,
    def: Result<ControlValue, ControlValueError>,
    values: Result<seq<ControlValue>, ControlValueError>)

  /** The fields of `ControlInfo`'s `Debug` rendering: each query's outcome, errors included. */
  method ControlInfoDebug(info: NativeInfo, allocOk: bool, ghost heap: NativeHeap) returns (rec: InfoRecord)
    requires !info.maxThrows
    modifies heap
    ensures rec.min == Decode(info.min) && rec.max == Decode(info.max) && rec.def == Decode(info.def)
    ensures rec.values == if allocOk then DecodeAll(info.values) else Ok([])
    ensures heap.live == old(heap.live)
  {
    var min := ControlInfoMin(info, heap);
    var max := ControlInfoMax(info, heap);
    var def := ControlInfoDef(info, heap);
    var values := ControlInfoValues(info, allocOk, heap);
    rec := InfoRecord(min, max, def, values);
  }

  /** `ControlInfoMap::get`: `None` exactly when the native lookup gives null, else a view of that entry. */
  function ControlInfoMapGet(infos: map<u32, NativeInfo>, control: u32): (r: Option<NativeInfo>)
    ensures r.None? <==> control !in infos
    ensures r.Some? ==> r.value == infos[control]
  {
    var infoPtr := InfoMapGet(infos, control);
    if infoPtr.None? then None else Some(infoPtr.value)
  }

  /** Every entry of the list decodes, so iterating it never panics. */
  ghost predicate AllDecode(list: NativeList)
    reads list
  {
    forall id :: id in list.values ==> Decode(list.values[id]).Ok?
  }

  /** The pairs a full iteration yields: each key in native order with its decoded value. */
  function Items(order: seq<u32>, values: map<u32, NativeValue>): (items: seq<(u32, ControlValue)>)
    requires forall i :: 0 <= i < |order| ==> order[i] in values && Decode(values[order[i]]).Ok?
    ensures |items| == |order|
  {
    if order == [] then []
    else [(order[0], Decode(values[order[0]]).value)] + Items(order[1..], values)
  }

  /** The `k`-th pair of an iteration is the `k`-th key in native order with its decoded value. */
  lemma {:induction false} ItemAt(order: seq<u32>, values: map<u32, NativeValue>, k: nat)
    requires forall i :: 0 <= i < |order| ==> order[i] in values && Decode(values[order[i]]).Ok?
    requires k < |order|
    ensures Items(order, values)[k] == (order[k], Decode(values[order[k]]).value)
  {
    if k > 0 {
      ItemAt(order[1..], values, k - 1);
    }
  }

  /**
    An iteration over a list yields as many pairs as the list holds, every
    stored pair exactly once with its decoded value.
   */
  lemma IterationCoversList(list: NativeList)
    requires list.Valid() && AllDecode(list)
    ensures |Items(list.order, list.values)| == |list.values|
    ensures forall id :: id in list.values ==>
      exists i :: 0 <= i < |list.order| && Items(list.order, list.values)[i] == (id, Decode(list.values[id]).value)
    ensures forall i, j :: 0 <= i < j < |list.order| ==>
      Items(list.order, list.values)[i].0 != Items(list.order, list.values)[j].0
  {
    ListSize(list);
    var items := Items(list.order, list.values);
    forall id | id in list.values
      ensures exists i :: 0 <= i < |list.order| && items[i] == (id, Decode(list.values[id]).value)
    {
      var i :| 0 <= i < |list.order| && list.order[i] == id;
      ItemAt(list.order, list.values, i);
    }
    forall i, j | 0 <= i < j < |list.order|
      ensures items[i].0 != items[j].0
    {
      ItemAt(list.order, list.values, i);
      ItemAt(list.order, list.values, j);
    }
  }

  /**
    `ControlListRefIterator`: owns one native cursor over a list. In Rust the
    borrow keeps the list unchanged while the iterator lives; the model does
    not enforce that.
   */
  class ControlListRefIterator {
    const it: NativeCursor
    ghost const heap: NativeHeap

    ghost predicate Valid()
      reads this, it, it.list, heap
    {
      it.Valid() && it in heap.live
    }

    constructor (it: NativeCursor, ghost heap: NativeHeap)
      ensures this.it == it && this.heap == heap
    {
      this.it := it;
      this.heap := heap;
    }

    /**
      `next`: `None` without moving once the cursor is at the end (and so on
      every later call); otherwise the current key and decoded value, one step
      forward. A value that does not decode makes `unwrap` panic.
     */
    method Next() returns (item: Option<(u32, ControlValue)>)
      requires Valid()
      requires it.pos < |it.list.order| ==> Decode(it.list.values[it.list.order[it.pos]]).Ok?
      modifies it
      ensures Valid()
      ensures old(it.pos) == |it.list.order| ==> item.None? && it.pos == old(it.pos)
      ensures old(it.pos) < |it.list.order| ==> it.pos == old(it.pos) + 1
      ensures old(it.pos) < |it.list.order| ==>
        item == Some((it.list.order[old(it.pos)], Decode(it.list.values[it.list.order[old(it.pos)]]).value))
    {
      if IterEnd(it) {
        return None;
      }
      var id := IterId(it);
      var val := Decode(IterValue(it)).value;
      IterNext(it, heap);
      item := Some((id, val));
    }

    /** `drop`: releases the native cursor; afterwards the iterator can no longer be used. */
    method Drop()
      requires Valid()
      modifies heap
      ensures heap.live == old(heap.live) - {it}
      ensures heap.acquisitions == old(heap.acquisitions) && heap.releases == old(heap.releases) + 1
      ensures !Valid()
    {
      IterDestroy(it, heap);
    }
  }

  /** `into_iter` of `&ControlList` and `&PropertyList`: an iterator at the list's first entry. */
  method IntoIter(list: NativeList, ghost heap: NativeHeap) returns (iter: ControlListRefIterator)
    requires list.Valid()
    modifies heap
    ensures fresh(iter) && fresh(iter.it) && iter.it.list == list && iter.it.pos == 0
    ensures iter.heap == heap && iter.Valid()
    ensures heap.live == old(heap.live) + {iter.it}
    ensures heap.acquisitions == old(heap.acquisitions) + 1 && heap.releases == old(heap.releases)
  {
    var c := ListIter(list, heap);
    iter := new ControlListRefIterator(c, heap);
  }

  /** A registry maps each known identifier to the descriptor of its entry type. */
  predicate RegistryConsistent(registry: map<u32, EntryDescriptor>)
  {
    forall id :: id in registry ==> registry[id].id == id
  }

  /** One entry of a list's `Debug` map: which key and which value it shows. */
  datatype DebugRow =
    | DynRow(entry: TypedEntry)                        // known identifier, typed value
    | KnownIdRow(desc: EntryDescriptor, raw: ControlValue)  // known identifier, raw value
    | RawRow(id: u32, raw: ControlValue)               // unknown identifier shown as a number

  function ShownId(row: DebugRow): u32
  {
    match row
    case DynRow(e) => e.desc.id
    case KnownIdRow(d, _) => d.id
    case RawRow(id, _) => id
  }

  function ShownValue(row: DebugRow): ControlValue
  {
    match row
    case DynRow(e) => e.value
    case KnownIdRow(_, v) => v
    case RawRow(_, v) => v
  }

  /**
    The key choice of the `Debug` impls: a known identifier with a typed value
    when the value fits its type, a known identifier with the raw value when it
    does not, the bare number when the identifier is unknown. Resolution never
    changes which identifier or value is shown.
   */
  function DebugRowOf(registry: map<u32, EntryDescriptor>, id: u32, val: ControlValue): (row: DebugRow)
    requires RegistryConsistent(registry)
    ensures row.RawRow? <==> id !in registry
    ensures row.DynRow? <==> id in registry && Conforms(registry[id], val)
    ensures ShownId(row) == id && ShownValue(row) == val
    ensures row.DynRow? ==> row.entry == TypedEntry(registry[id], val)
    ensures row.KnownIdRow? ==> row.desc == registry[id]
  {
    if id !in registry then RawRow(id, val)
    else
      match TryFrom(registry[id], val)
      case Ok(e) => DynRow(e)
      case Err(_) => KnownIdRow(registry[id], val)
  }

  /** One more row, for the next pair, keeps the rows in step with the pairs. */
  lemma ExtendRows(
    rows0: seq<DebugRow>, rows: seq<DebugRow>, registry: map<u32, EntryDescriptor>,
    items: seq<(u32, ControlValue)>, k: nat, item: (u32, ControlValue))
    requires RegistryConsistent(registry)
    requires |rows0| == k < |items| && item == items[k]
    requires forall i :: 0 <= i < k ==> rows0[i] == DebugRowOf(registry, items[i].0, items[i].1)
    requires rows == rows0 + [DebugRowOf(registry, item.0, item.1)]
    ensures forall i :: 0 <= i < k + 1 ==> rows[i] == DebugRowOf(registry, items[i].0, items[i].1)
  {
  }

  /**
    The loop of the `Debug` impls of `ControlList` and `PropertyList`: one row
    per stored pair, in native order, and the cursor released afterwards.
   */
  method DebugEntries(list: NativeList, registry: map<u32, EntryDescriptor>, ghost heap: NativeHeap)
    returns (rows: seq<DebugRow>)
    requires list.Valid() && AllDecode(list) && RegistryConsistent(registry)
    modifies heap
    ensures |rows| == |list.order| == |list.values|
    ensures forall i :: 0 <= i < |rows| ==>
      rows[i] == DebugRowOf(registry, Items(list.order, list.values)[i].0, Items(list.order, list.values)[i].1)
    ensures heap.live == old(heap.live)
  {
    ghost var items := Items(list.order, list.values);
    var iter := IntoIter(list, heap);
    rows := [];
    var done := false;
    while !done
      invariant iter.Valid() && iter.it.list == list && iter.heap == heap
      invariant done ==> iter.it.pos == |list.order|
      invariant |rows| == iter.it.pos
      invariant forall i :: 0 <= i < |rows| ==> rows[i] == DebugRowOf(registry, items[i].0, items[i].1)
      modifies iter.it
      decreases |list.order| - iter.it.pos, !done
    {
      ghost var k := iter.it.pos;
      ghost var rows0 := rows;
      var next := iter.Next();
      if next.Some? {
        ItemAt(list.order, list.values, k);
        rows := rows + [DebugRowOf(registry, next.value.0, next.value.1)];
        ExtendRows(rows0, rows, registry, items, k, next.value);
      } else {
        done := true;
      }
    }
    iter.Drop();
    ListSize(list);
  }
}
