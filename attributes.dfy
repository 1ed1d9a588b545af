/**
 * Attribute definitions, their groups, and a user's assignment of an attribute
 * together with its series of data points.
 */
module Attributes {
  import opened Wrappers
  import opened Values

  /** A named category used to cluster attributes for display. */
  datatype AttributeGroup = AttributeGroup(name: string, displayLabel: string, priority: int)

  /**
   * A trackable metric.  The correlation fields are used elsewhere in the
   * application and are not part of this model.
   */
  datatype Attribute = Attribute(
    name: string,
    displayLabel: string,
    priority: int,
    valueType: int,
    group: Option<AttributeGroup>,
    privateDefault: bool)

  /**
   * A user's subscription to an attribute, as fetched from the store: its row id,
   * its flags, and its data points in the order the store returned them.
   */
  datatype UserAttribute = UserAttribute(
    id: nat,
    attribute: Attribute,
    active: bool,
    private: bool,
    data: seq<UserAttributeData>)
  {
    function Name(): string { attribute.name }
    function Label(): string { attribute.displayLabel }
    function Priority(): int { attribute.priority }
    function ValueType(): int { attribute.valueType }
    function Group(): Option<AttributeGroup> { attribute.group }

    /** `value_type_description`, looked up by the attribute's code. */
    function ValueTypeDescription(): (r: Result<string>)
      ensures r.Ok? <==> -|VALUE_TYPE_LABELS| <= ValueType() < |VALUE_TYPE_LABELS|
      ensures 0 <= ValueType() < |VALUE_TYPE_LABELS| ==> r == Ok(VALUE_TYPE_LABELS[ValueType()])
      ensures -|VALUE_TYPE_LABELS| <= ValueType() < 0 ==> r == Ok(VALUE_TYPE_LABELS[ValueType() + |VALUE_TYPE_LABELS|])
      ensures r.Err? ==> r.error == IndexError
    {
      Values.ValueTypeDescription(attribute.valueType)
    }
  }

  /** No two data points of the series fall on the same day (a uniqueness constraint of the store). */
  predicate DistinctTimes(data: seq<UserAttributeData>)
    reads data
  {
    forall i, j :: 0 <= i < j < |data| ==> data[i].time != data[j].time
  }

  /** The data point with the greatest `time`: the first row of the series ordered by `-time`. */
  function Latest(data: seq<UserAttributeData>): (p: Option<UserAttributeData>)
    reads data
    ensures p.None? <==> data == []
    ensures p.Some? ==> p.value in data && forall d | d in data :: d.time <= p.value.time
  {
    if data == [] then None
    else
      var rest := Latest(data[1..]);
      if rest.Some? && rest.value.time > data[0].time then rest else Some(data[0])
  }

  /** A latest data point of a series whose days are distinct is the one `Latest` picks. */
  lemma LatestUnique(data: seq<UserAttributeData>, p: UserAttributeData)
    requires DistinctTimes(data) && p in data
    requires forall d | d in data :: d.time <= p.time
    ensures Latest(data) == Some(p)
  {
    var q := Latest(data).value;
    var i :| 0 <= i < |data| && data[i] == p;
    var j :| 0 <= j < |data| && data[j] == q;
    assert p.time == q.time;
    assert i == j;
  }

  /**
   * `UserAttribute.value`: the value of the most recent data point, or None when
   * the series is empty.
   */
  function CurrentValue(r: UserAttribute): (v: Option<Scalar>)
    reads r.data
    ensures r.data == [] ==> v == None
    ensures r.data != [] ==> v == Latest(r.data).value.Value()
  {
    match Latest(r.data)
    case None => None
    case Some(p) => p.Value()
  }

  /**
   * With one data point per day, the current value is the value of the data
   * point with the greatest day.
   */
  lemma CurrentValueIsLatest(r: UserAttribute, p: UserAttributeData)
    requires DistinctTimes(r.data) && p in r.data
    requires forall d | d in r.data :: d.time <= p.time
    ensures CurrentValue(r) == p.Value()
  {
    LatestUnique(r.data, p);
  }

  /** Every data point of the given rows. */
  ghost function DataOf(rs: seq<UserAttribute>): set<UserAttributeData> {
    set r, d | r in rs && d in r.data :: d
  }
}
