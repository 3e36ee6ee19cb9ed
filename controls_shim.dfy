/**
  The C shim over libcamera's controls (`libcamera-sys/c_api/controls.cpp`).

  Native allocations are tracked by a `NativeHeap` whose ghost `live` set holds
  every object that has been created and not yet released; releasing requires
  membership, so an object cannot be released twice. Value handles passed to a
  list, a cursor that `IterNext` advances and the cursor of a typed iterator
  must be live when used; lists, `IterEnd`, `IterId` and `IterValue` carry no
  liveness requirement.
 */
module ControlsShim {
  import opened Types
  import opened ControlValues

  /** The host allocator, seen only through what is live and how often it was used. */
  class NativeHeap {
    ghost var live: set<object>
    ghost var acquisitions: nat
    ghost var releases: nat

    ghost method Acquire(o: object)
      requires o !in live
      modifies this
      ensures live == old(live) + {o}
      ensures acquisitions == old(acquisitions) + 1 && releases == old(releases)
    {
      live := live + {o};
      acquisitions := acquisitions + 1;
    }

    ghost method Release(o: object)
      requires o in live
      modifies this
      ensures live == old(live) - {o}
      ensures acquisitions == old(acquisitions) && releases == old(releases) + 1
    {
      live := live - {o};
      releases := releases + 1;
    }
  }

  /** A native `ControlValue` allocated on the heap. */
  class ValueHandle {
    var value: NativeValue

    constructor ()
      ensures value == Encode(NoValue)
    {
      value := NativeValue(TypeNone, false, []);
    }
  }

  predicate Distinct(s: seq<u32>)
  {
    forall i, j :: 0 <= i < j < |s| ==> s[i] != s[j]
  }

  function ElementSet(s: seq<u32>): set<u32>
  {
    set x | x in s
  }

  /** A sequence without repetitions has as many distinct elements as it is long. */
  lemma {:induction false} DistinctCardinality(s: seq<u32>)
    requires Distinct(s)
    ensures |ElementSet(s)| == |s|
  {
    if s != [] {
      DistinctCardinality(s[1..]);
      assert ElementSet(s) == ElementSet(s[1..]) + {s[0]};
      assert s[0] !in ElementSet(s[1..]);
    }
  }

  /**
    libcamera's `ControlList`: a keyed store whose iteration order (`order`) is
    the native one, not the order of insertion. A list may carry a validator,
    the set of identifiers the camera supports; writes to other identifiers are
    dropped.
   */
  class NativeList {
    var order: seq<u32>
    var values: map<u32, NativeValue>
    const supported: Option<set<u32>>

    ghost predicate Valid()
      reads this
    {
      Distinct(order) && forall id :: id in values <==> id in order
    }

    predicate Accepts(id: u32)
    {
      supported.None? || id in supported.value
    }

    constructor (supported: Option<set<u32>>)
      ensures Valid() && values == map[] && order == [] && this.supported == supported
    {
      order := [];
      values := map[];
      this.supported := supported;
    }
  }

  /** A valid list's native order lists each stored identifier once, so it is as long as the list. */
  lemma ListSize(list: NativeList)
    requires list.Valid()
    ensures |list.order| == |list.values|
  {
    DistinctCardinality(list.order);
    assert ElementSet(list.order) == list.values.Keys;
  }

  /** `libcamera_control_list_iter_t`: the list and a position in its native order. */
  class NativeCursor {
    const list: NativeList
    var pos: nat

    ghost predicate Valid()
      reads this, list
    {
      list.Valid() && pos <= |list.order|
    }

    constructor (list: NativeList)
      ensures this.list == list && pos == 0
    {
      this.list := list;
      pos := 0;
    }
  }

  /** libcamera's `ControlInfo`: the bounds and allowed values of one control. */
  datatype NativeInfo = NativeInfo(
    min: NativeValue,
    max: NativeValue,
    maxThrows: bool,  // whether the native `max()` accessor raises an exception
    def: NativeValue,
    values: seq<NativeValue>)

  /** libcamera's global table entry for one control or property identifier. */
  datatype IdInfo = IdInfo(name: string, ty: ControlType)

  /** `libcamera_control_name`: the control's name, or null for an unknown identifier. */
  function ControlName(controls: map<u32, IdInfo>, id: u32): (name: Option<string>)
    ensures name.Some? <==> id in controls
    ensures name.Some? ==> name.value == controls[id].name
  {
    if id in controls then Some(controls[id].name) else None
  }

  /** `libcamera_control_type`: the control's type code, or the "none" code for an unknown identifier. */
  function ControlTypeCode(controls: map<u32, IdInfo>, id: u32): (code: nat)
    ensures code == TypeNone <==> id !in controls
    ensures id in controls ==> TypeFromCode(code) == Some(controls[id].ty)
  {
    if id in controls then TypeCode(controls[id].ty) else TypeNone
  }

  /** `libcamera_property_name`: the property's name, or null for an unknown identifier. */
  function PropertyName(properties: map<u32, IdInfo>, id: u32): (name: Option<string>)
    ensures name.Some? <==> id in properties
    ensures name.Some? ==> name.value == properties[id].name
  {
    if id in properties then Some(properties[id].name) else None
  }

  /** `libcamera_property_type`: the property's type code, or the "none" code for an unknown identifier. */
  function PropertyTypeCode(properties: map<u32, IdInfo>, id: u32): (code: nat)
    ensures code == TypeNone <==> id !in properties
    ensures id in properties ==> TypeFromCode(code) == Some(properties[id].ty)
  {
    if id in properties then TypeCode(properties[id].ty) else TypeNone
  }

  /** `libcamera_control_list_create`: a new, empty list without a validator. */
  method ListCreate(ghost heap: NativeHeap) returns (list: NativeList)
    modifies heap
    ensures fresh(list) && list.Valid() && list.values == map[] && list.supported.None?
    ensures heap.live == old(heap.live) + {list}
    ensures heap.acquisitions == old(heap.acquisitions) + 1 && heap.releases == old(heap.releases)
  {
    list := new NativeList(None);
    heap.Acquire(list);
  }

  /** `libcamera_control_list_destroy`. */
  method ListDestroy(list: NativeList, ghost heap: NativeHeap)
    requires list in heap.live
    modifies heap
    ensures heap.live == old(heap.live) - {list}
    ensures heap.acquisitions == old(heap.acquisitions) && heap.releases == old(heap.releases) + 1
  {
    heap.Release(list);
  }

  /** `libcamera_control_list_get`: the stored value when the list contains `id`, null otherwise. */
  function ListGet(list: NativeList, id: u32): (r: Option<NativeValue>)
    reads list
    ensures r.Some? <==> id in list.values
    ensures r.Some? ==> r.value == list.values[id]
  {
    if id in list.values then Some(list.values[id]) else None
  }

  /**
    `libcamera_control_list_set`: stores a copy of `*val` under `id` when the
    list accepts `id` and otherwise leaves the list as it was; the caller is
    told neither way. An existing entry keeps its place in the native order.
   */
  method ListSet(list: NativeList, id: u32, val: ValueHandle, ghost heap: NativeHeap)
    requires list.Valid() && val in heap.live
    modifies list
    ensures list.Valid()
    ensures list.Accepts(id) ==> list.values == old(list.values)[id := val.value]
    ensures !list.Accepts(id) ==> list.values == old(list.values) && list.order == old(list.order)
    ensures id in old(list.values) ==> list.order == old(list.order)
  {
    if list.Accepts(id) {
      if id !in list.values {
        list.order := list.order + [id];
      }
      list.values := list.values[id := val.value];
    }
  }

  /** `libcamera_control_list_iter`: a fresh cursor at the list's first entry. */
  method ListIter(list: NativeList, ghost heap: NativeHeap) returns (c: NativeCursor)
    requires list.Valid()
    modifies heap
    ensures fresh(c) && c.list == list && c.pos == 0 && c.Valid()
    ensures heap.live == old(heap.live) + {c}
    ensures heap.acquisitions == old(heap.acquisitions) + 1 && heap.releases == old(heap.releases)
  {
    c := new NativeCursor(list);
    heap.Acquire(c);
  }

  /** `libcamera_control_list_iter_destroy`. */
  method IterDestroy(c: NativeCursor, ghost heap: NativeHeap)
    requires c in heap.live
    modifies heap
    ensures heap.live == old(heap.live) - {c}
    ensures heap.acquisitions == old(heap.acquisitions) && heap.releases == old(heap.releases) + 1
  {
    heap.Release(c);
  }

  /** `libcamera_control_list_iter_end`: whether the cursor stands at the list's end. */
  function IterEnd(c: NativeCursor): (atEnd: bool)
    reads c, c.list
    requires c.Valid()
    ensures atEnd <==> c.pos == |c.list.order|
    ensures |c.list.values| == 0 ==> atEnd
  {
    ListSize(c.list);
    c.pos == |c.list.order|
  }

  /** `libcamera_control_list_iter_next`: one step forward, unless already at the end. */
  method IterNext(c: NativeCursor, ghost heap: NativeHeap)
    requires c.Valid() && c in heap.live
    modifies c
    ensures c.Valid()
    ensures old(c.pos) < |c.list.order| ==> c.pos == old(c.pos) + 1
    ensures old(c.pos) == |c.list.order| ==> c.pos == old(c.pos)
  {
    if c.pos != |c.list.order| {
      c.pos := c.pos + 1;
    }
  }

  /** `libcamera_control_list_iter_id`: the key of the entry under the cursor. */
  function IterId(c: NativeCursor): (id: u32)
    reads c, c.list
    requires c.Valid() && c.pos < |c.list.order|
    ensures id in c.list.values && id == c.list.order[c.pos]
  {
    c.list.order[c.pos]
  }

  /** `libcamera_control_list_iter_value`: the value of the entry under the cursor. */
  function IterValue(c: NativeCursor): (v: NativeValue)
    reads c, c.list
    requires c.Valid() && c.pos < |c.list.order|
    ensures ListGet(c.list, IterId(c)) == Some(v)
  {
    c.list.values[c.list.order[c.pos]]
  }

  /** `libcamera_control_value_create`: a fresh value of the "none" type. */
  method ValueCreate(ghost heap: NativeHeap) returns (h: ValueHandle)
    modifies heap
    ensures fresh(h) && h.value == Encode(NoValue)
    ensures heap.live == old(heap.live) + {h}
    ensures heap.acquisitions == old(heap.acquisitions) + 1 && heap.releases == old(heap.releases)
  {
    h := new ValueHandle();
    heap.Acquire(h);
  }

  /** `libcamera_control_value_destroy`. */
  method ValueDestroy(h: ValueHandle, ghost heap: NativeHeap)
    requires h in heap.live
    modifies heap
    ensures heap.live == old(heap.live) - {h}
    ensures heap.acquisitions == old(heap.acquisitions) && heap.releases == old(heap.releases) + 1
  {
    heap.Release(h);
  }

  /** The host's `free`; freeing null does nothing. */
  method Free(p: object?, ghost heap: NativeHeap)
    requires p != null ==> p in heap.live
    modifies heap
    ensures heap.live == old(heap.live) - (if p == null then {} else {p})
    ensures heap.acquisitions == old(heap.acquisitions)
    ensures heap.releases == old(heap.releases) + (if p == null then 0 else 1)
  {
    if p != null {
      heap.Release(p);
    }
  }

  /** `libcamera_control_info_map_get`: the entry when the map holds `key`, null otherwise. */
  function InfoMapGet(infos: map<u32, NativeInfo>, key: u32): (info: Option<NativeInfo>)
    ensures info.Some? <==> key in infos
    ensures info.Some? ==> info.value == infos[key]
  {
    if key in infos then Some(infos[key]) else None
  }

  /** `libcamera_control_info_min`: a fresh handle holding the minimum. */
  method InfoMin(info: NativeInfo, ghost heap: NativeHeap) returns (h: ValueHandle)
    modifies heap
    ensures fresh(h) && h.value == info.min
    ensures heap.live == old(heap.live) + {h}
    ensures heap.acquisitions == old(heap.acquisitions) + 1 && heap.releases == old(heap.releases)
  {
    h := ValueCreate(heap);
    h.value := info.min;
  }

  /**
    `libcamera_control_info_max`: a fresh handle holding the maximum; when the
    native accessor throws, the handle already created is deleted and null is
    returned, so that path leaves nothing live.
   */
  method InfoMax(info: NativeInfo, ghost heap: NativeHeap) returns (h: ValueHandle?)
    modifies heap
    ensures info.maxThrows ==> h == null && heap.live == old(heap.live)
    ensures info.maxThrows ==> heap.releases == old(heap.releases) + 1
    ensures !info.maxThrows ==> h != null && fresh(h) && h.value == info.max
    ensures !info.maxThrows ==> heap.live == old(heap.live) + {h} && heap.releases == old(heap.releases)
    ensures heap.acquisitions == old(heap.acquisitions) + 1
  {
    var value := ValueCreate(heap);
    if info.maxThrows {
      ValueDestroy(value, heap);
      return null;
    }
    value.value := info.max;
    h := value;
  }

  /** `libcamera_control_info_def`: a fresh handle holding the default. */
  method InfoDef(info: NativeInfo, ghost heap: NativeHeap) returns (h: ValueHandle)
    modifies heap
    ensures fresh(h) && h.value == info.def
    ensures heap.live == old(heap.live) + {h}
    ensures heap.acquisitions == old(heap.acquisitions) + 1 && heap.releases == old(heap.releases)
  {
    h := ValueCreate(heap);
    h.value := info.def;
  }

  /**
    `libcamera_control_info_values`: copies the allowed values into a freshly
    allocated array and reports their count through `numValues`. The outcome of
    the allocation is the input `allocOk`; when it fails the result is null and
    `numValues` is passed back unchanged.
   */
  method InfoValues(info: NativeInfo, numValues: nat, allocOk: bool, ghost heap: NativeHeap)
    returns (arr: array?<NativeValue>, numValuesOut: nat)
    modifies heap
    ensures allocOk ==> arr != null && fresh(arr) && arr[..] == info.values && numValuesOut == |info.values|
    ensures allocOk ==> heap.live == old(heap.live) + {arr} && heap.acquisitions == old(heap.acquisitions) + 1
    ensures !allocOk ==> arr == null && numValuesOut == numValues
    ensures !allocOk ==> heap.live == old(heap.live) && heap.acquisitions == old(heap.acquisitions)
    ensures heap.releases == old(heap.releases)
  {
    var values := info.values;
    if !allocOk {
      return null, numValues;
    }
    arr := new NativeValue[|values|];
    heap.Acquire(arr);
    numValuesOut := |values|;
    var i := 0;
    while i < |values|
      invariant 0 <= i <= |values|
      modifies arr
      invariant arr[..i] == values[..i]
    {
      arr[i] := values[i];
      i := i + 1;
    }
  }
}
