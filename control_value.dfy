/**
  The tagged control value and the native value it is read from and written to.

  The byte-level reader and writer live in a companion file that is not part of
  this model; here a native value is its declared type code, its array flag and
  its elements, which is what the shim exposes through `value_type`,
  `value_is_array`, `value_num_elements` and `value_get`.
 */
module ControlValues {
  import opened Types

  /** The element types a control value can hold (libcamera's `ControlType` less its none type). */
  datatype ControlType = Bool | Byte | Integer32 | Integer64 | Float | String | Rectangle | Size | Point

  /** The native code of the "no value" type (`LIBCAMERA_CONTROL_TYPE_NONE`). */
  const TypeNone: nat := 0

  /** The native type code this model assigns to each element type. */
  function TypeCode(t: ControlType): (c: nat)
    ensures 1 <= c <= 9
  {
    match t
    case Bool => 1
    case Byte => 2
    case Integer32 => 3
    case Integer64 => 4
    case Float => 5
    case String => 6
    case Rectangle => 7
    case Size => 8
    case Point => 9
  }

  /** The element type a native type code declares, if the code is a known one. */
  function TypeFromCode(c: nat): (t: Option<ControlType>)
    ensures t.Some? <==> 1 <= c <= 9
    ensures t.Some? ==> TypeCode(t.value) == c
  {
    if c == 1 then Some(Bool)
    else if c == 2 then Some(Byte)
    else if c == 3 then Some(Integer32)
    else if c == 4 then Some(Integer64)
    else if c == 5 then Some(Float)
    else if c == 6 then Some(String)
    else if c == 7 then Some(Rectangle)
    else if c == 8 then Some(Size)
    else if c == 9 then Some(Point)
    else None
  }

  /** One element of a control value; the integer kinds keep their fixed widths. */
  datatype Scalar =
    | BoolValue(b: bool)
    | ByteValue(byte: u8)
    | Int32Value(i: i32)
    | Int64Value(l: i64)
    | FloatValue(bits: bv32)
    | StringValue(s: string)
    | RectangleValue(x: i32, y: i32, width: u32, height: u32)
    | SizeValue(width: u32, height: u32)
    | PointValue(x: i32, y: i32)

  function TypeOf(s: Scalar): ControlType
  {
    match s
    case BoolValue(_) => Bool
    case ByteValue(_) => Byte
    case Int32Value(_) => Integer32
    case Int64Value(_) => Integer64
    case FloatValue(_) => Float
    case StringValue(_) => String
    case RectangleValue(_, _, _, _) => Rectangle
    case SizeValue(_, _) => Size
    case PointValue(_, _) => Point
  }

  /** The tagged value: unset, one element, or an array of elements of one type. */
  datatype ControlValue =
    | NoValue
    | Single(elem: Scalar)
    | ArrayValue(ty: ControlType, elems: seq<Scalar>)

  /** Every element of an array value carries the array's declared type. */
  predicate WellFormed(v: ControlValue)
  {
    v.ArrayValue? ==> forall i :: 0 <= i < |v.elems| ==> TypeOf(v.elems[i]) == v.ty
  }

  /** Errors of reading a native value. */
  datatype ControlValueError =
    | UnknownType(code: nat)  // the declared type code names no element type
    | Malformed               // the elements do not fit the declared type and shape
    | TypeMismatch            // a typed entry was built from a value of another type

  /** A native value as the native library stores it. */
  datatype NativeValue = NativeValue(typeCode: nat, isArray: bool, elems: seq<Scalar>)

  /** Writes a tagged value into its native form (`ControlValue::write`). */
  function Encode(v: ControlValue): (nv: NativeValue)
    ensures nv.typeCode == TypeNone <==> v.NoValue?
    ensures nv.isArray <==> v.ArrayValue?
    ensures v.NoValue? ==> nv.elems == []
    ensures v.Single? ==> nv.elems == [v.elem] && TypeFromCode(nv.typeCode) == Some(TypeOf(v.elem))
    ensures v.ArrayValue? ==> nv.elems == v.elems && TypeFromCode(nv.typeCode) == Some(v.ty)
  {
    match v
    case NoValue => NativeValue(TypeNone, false, [])
    case Single(s) => NativeValue(TypeCode(TypeOf(s)), false, [s])
    case ArrayValue(ty, elems) => NativeValue(TypeCode(ty), true, elems)
  }

  /**
    Reads a native value (`ControlValue::read`): an unknown type code and
    elements that do not fit the declared type or shape are errors; whatever
    it accepts re-encodes to exactly the native value it read.
   */
  function Decode(nv: NativeValue): (r: Result<ControlValue, ControlValueError>)
    ensures r.Ok? ==> WellFormed(r.value) && Encode(r.value) == nv
    ensures r == Err(UnknownType(nv.typeCode)) <==> nv.typeCode != TypeNone && TypeFromCode(nv.typeCode).None?
    ensures r.Err? ==> r.error == UnknownType(nv.typeCode) || r.error == Malformed
  {
    if nv.typeCode == TypeNone then
      if !nv.isArray && nv.elems == [] then Ok(NoValue) else Err(Malformed)
    else
      match TypeFromCode(nv.typeCode)
      case None => Err(UnknownType(nv.typeCode))
      case Some(ty) =>
        if !(forall i :: 0 <= i < |nv.elems| ==> TypeOf(nv.elems[i]) == ty) then Err(Malformed)
        else if nv.isArray then Ok(ArrayValue(ty, nv.elems))
        else if |nv.elems| == 1 then Ok(Single(nv.elems[0]))
        else Err(Malformed)
  }

  /** Round trip: reading back what was written gives the written value. */
  lemma DecodeEncode(v: ControlValue)
    requires WellFormed(v)
    ensures Decode(Encode(v)) == Ok(v)
  {
  }
}
