/**
 * The value types of an attribute and the typed data point `UserAttributeData`,
 * which keeps its value in one of three storage slots chosen by its own
 * `value_type` code.
 */
module Values {
  import opened Wrappers

  // The codes of Attribute.VALUE_TYPES.
  const INTEGER: int := 0
  const FLOAT: int := 1
  const STRING: int := 2
  const PERIOD: int := 3
  const TIMEOFDAY_MIDNIGHT: int := 4
  const PERCENTAGE: int := 5
  const TIMEOFDAY_MIDDAY: int := 6

  /** The labels of Attribute.VALUE_TYPES, at the position of their code. */
  const VALUE_TYPE_LABELS: seq<string> := [
    "Integer", "Float", "String", "Period (min)",
    "Time of day (min from midnight)", "Percentage", "Time of day (min from midday)"
  ]

  /**
   * `VALUE_TYPES[code][1]` as Python evaluates the tuple subscript: codes 0..6
   * give their label, a negative code counts from the end of the tuple, and any
   * other code raises IndexError.
   */
  function ValueTypeDescription(code: int): (r: Result<string>)
    ensures r.Ok? <==> -|VALUE_TYPE_LABELS| <= code < |VALUE_TYPE_LABELS|
    ensures 0 <= code < |VALUE_TYPE_LABELS| ==> r == Ok(VALUE_TYPE_LABELS[code])
    ensures -|VALUE_TYPE_LABELS| <= code < 0 ==> r == Ok(VALUE_TYPE_LABELS[code + |VALUE_TYPE_LABELS|])
  {
    var n := |VALUE_TYPE_LABELS|;
    if code < -n || code >= n then Err(IndexError)
    else if code < 0 then Ok(VALUE_TYPE_LABELS[n + code])
    else Ok(VALUE_TYPE_LABELS[code])
  }

  /** A Python object held by a slot: an int, a Decimal (exact) or a string. */
  datatype Scalar = IntV(i: int) | DecimalV(d: real) | StrV(s: string)

  /** The three storage columns of a data point. */
  datatype Slot = IntSlot | FloatSlot | StringSlot

  /** The slot a value_type code reads and writes; a code outside 0..6 selects none. */
  function SlotOf(code: int): (s: Option<Slot>)
    ensures s.Some? <==> 0 <= code <= 6
    ensures s == Some(StringSlot) <==> code == STRING
    ensures s == Some(FloatSlot) <==> code == FLOAT || code == PERCENTAGE
  {
    if code in {INTEGER, PERIOD, TIMEOFDAY_MIDNIGHT, TIMEOFDAY_MIDDAY} then Some(IntSlot)
    else if code in {FLOAT, PERCENTAGE} then Some(FloatSlot)
    else if code == STRING then Some(StringSlot)
    else None
  }

  /**
   * One dated sample of a user's attribute.  Each slot holds whatever object was
   * last assigned to it, or None; the column types are applied by the database
   * when the row is saved, which is not modelled.
   */
  class UserAttributeData {
    var time: int                  // the calendar day, as a day number
    var valueType: int
    var intValue: Option<Scalar>
    var floatValue: Option<Scalar>
    var stringValue: Option<Scalar>

    constructor (time: int, valueType: int)
      ensures this.time == time && this.valueType == valueType
      ensures intValue == None && floatValue == None && stringValue == None
    {
      this.time := time;
      this.valueType := valueType;
      intValue, floatValue, stringValue := None, None, None;
    }

    /** The content of one slot. */
    function Stored(s: Slot): Option<Scalar>
      reads this
    {
      match s
      case IntSlot => intValue
      case FloatSlot => floatValue
      case StringSlot => stringValue
    }

    /** `value`: the slot chosen by the stored code, and None for an unknown code. */
    function Value(): (v: Option<Scalar>)
      reads this
      ensures SlotOf(valueType).Some? ==> v == Stored(SlotOf(valueType).value)
      ensures SlotOf(valueType).None? ==> v == None
    {
      if valueType == INTEGER then intValue
      else if valueType == FLOAT then floatValue
      else if valueType == STRING then stringValue
      else if valueType == PERIOD then intValue
      else if valueType == TIMEOFDAY_MIDNIGHT then intValue
      else if valueType == PERCENTAGE then floatValue
      else if valueType == TIMEOFDAY_MIDDAY then intValue
      else None
    }

    /**
     * `set_value`: writes `x` into the slot chosen by the stored code and nowhere
     * else, so that `Value()` then reads `x` back; an unknown code changes nothing.
     */
    method SetValue(x: Option<Scalar>)
      modifies this
      ensures time == old(time) && valueType == old(valueType)
      ensures forall s :: Stored(s) == if SlotOf(valueType) == Some(s) then x else old(Stored(s))
      ensures 0 <= valueType <= 6 ==> Value() == x
      ensures !(0 <= valueType <= 6) ==> unchanged(this) && Value() == None
    {
      if valueType == INTEGER { intValue := x; }
      if valueType == FLOAT { floatValue := x; }
      if valueType == STRING { stringValue := x; }
      if valueType == PERIOD { intValue := x; }
      if valueType == TIMEOFDAY_MIDNIGHT { intValue := x; }
      if valueType == PERCENTAGE { floatValue := x; }
      if valueType == TIMEOFDAY_MIDDAY { intValue := x; }
    }
  }
}
