/**
 * `SimpleMeasurementDto`: a measurement's attribute list together with the cache that
 * keeps the parsed value of its time attribute (key 4) between reads of `Time`.
 *
 * The attribute helpers the class calls (`GetAttribute`, `SetAttribute`,
 * `RemoveAttribute`) are modelled as the functions `FindAttribute`, `WithAttribute` and
 * `RemoveKey`; the two last ones go through the `Attributes` setter, as the class's own
 * setter is the only way to replace the list.
 */
module Measurements {
  import opened Wrappers
  import opened Timestamps
  import opened Attributes

  /** The well-known key of the measurement time attribute. */
  const TimeKey: ushort := 4

  /** The smallest SQL Server `datetime`, 1753-01-01T00:00:00, marked as UTC. */
  const MinimumValidDatabaseDateTime: DateTime := DateTimeFields(1753, 1, 1, 0, 0, 0, 0, Utc)

  /** The default `DateTime`: 0001-01-01T00:00:00, kind unspecified. */
  const DefaultDateTime: DateTime := DateTimeFields(1, 1, 1, 0, 0, 0, 0, Unspecified)

  /** `GetAttribute`: the first attribute with the key, if any (see `FindAttributeFirst`). */
  function FindAttribute(attrs: seq<Attribute>, key: ushort): (r: Option<Attribute>)
    ensures r.None? <==> forall a :: a in attrs ==> a.key != key
    ensures r.Some? ==> r.value in attrs && r.value.key == key
  {
    if attrs == [] then None
    else if attrs[0].key == key then Some(attrs[0])
    else
      assert forall a :: a in attrs <==> a == attrs[0] || a in attrs[1..];
      FindAttribute(attrs[1..], key)
  }

  /** The lookup answers the attribute at the first position that holds the key. */
  lemma {:induction false} FindAttributeFirst(attrs: seq<Attribute>, key: ushort, i: nat)
    requires i < |attrs| && attrs[i].key == key
    requires forall j :: 0 <= j < i ==> attrs[j].key != key
    ensures FindAttribute(attrs, key) == Some(attrs[i])
  {
    if i > 0 {
      FindAttributeFirst(attrs[1..], key, i - 1);
    }
  }

  /** `RemoveAttribute`: every attribute with the key dropped, the others kept in order. */
  function RemoveKey(attrs: seq<Attribute>, key: ushort): (r: seq<Attribute>)
    ensures forall i :: 0 <= i < |r| ==> r[i].key != key
    ensures forall a :: a in r <==> a in attrs && a.key != key
  {
    if attrs == [] then []
    else if attrs[0].key == key then RemoveKey(attrs[1..], key)
    else
      var rest := RemoveKey(attrs[1..], key);
      assert forall a :: a in attrs <==> a == attrs[0] || a in attrs[1..];
      [attrs[0]] + rest
  }

  /** `SetAttribute`: the attributes with that key replaced by the new one, placed last. */
  function WithAttribute(attrs: seq<Attribute>, a: Attribute): seq<Attribute> {
    RemoveKey(attrs, a.key) + [a]
  }

  /** The attribute `Time` writes for a timestamp: its round-trip text under key 4. */
  function TimeAttribute(t: DateTime): Attribute {
    FromString(TimeKey, Some(FormatDateTime(t)))
  }

  /**
   * What the `Time` getter computes from the attributes when nothing is cached: the
   * first time attribute's text parsed as a round-trip timestamp, or null when there is
   * no such attribute, its text is null or empty, or the text does not parse.
   */
  function StoredTime(attrs: seq<Attribute>): Option<DateTime> {
    match FindAttribute(attrs, TimeKey)
    case None => None
    case Some(a) =>
      match Value(a)
      case None => None
      case Some(s) => if s == "" then None else ParseDateTime(s)
  }

  class SimpleMeasurement {
    var attributes: seq<Attribute>
    var cachedTimeValue: Option<DateTime>
    var hasCachedTime: bool
    var created: DateTime

    /** The cache is either empty, or holds exactly what parsing the attributes gives. */
    ghost predicate Valid()
      reads this
    {
      (!hasCachedTime ==> cachedTimeValue == None) &&
      (hasCachedTime ==> cachedTimeValue == StoredTime(attributes))
    }

    /** A new measurement: no attributes, nothing cached, default creation date. */
    constructor ()
      ensures Valid()
      ensures attributes == [] && cachedTimeValue == None && !hasCachedTime
      ensures created == DefaultDateTime
    {
      attributes := [];
      cachedTimeValue := None;
      hasCachedTime := false;
      created := DefaultDateTime;
    }

    /** The `Created` setter. */
    method SetCreated(t: DateTime)
      modifies this
      ensures created == t
      ensures attributes == old(attributes)
      ensures cachedTimeValue == old(cachedTimeValue) && hasCachedTime == old(hasCachedTime)
    {
      created := t;
    }

    /** The `Attributes` setter: null becomes the empty list, and the time cache is dropped. */
    method SetAttributes(attrs: Option<seq<Attribute>>)
      modifies this
      ensures attributes == attrs.GetOr([])
      ensures cachedTimeValue == None && !hasCachedTime
      ensures created == old(created)
      ensures Valid()
    {
      attributes := attrs.GetOr([]);
      cachedTimeValue := None;
      hasCachedTime := false;
    }

    /**
     * The `Time` getter: answers from the cache when it is filled; otherwise parses the
     * time attribute, keeps the previous (null) cache when that fails, and marks the
     * cache filled. Either way the answer is what the attributes hold.
     */
    method GetTime() returns (t: Option<DateTime>)
      requires Valid()
      modifies this
      ensures Valid()
      ensures t == StoredTime(attributes)
      ensures hasCachedTime && cachedTimeValue == t
      ensures attributes == old(attributes) && created == old(created)
    {
      if hasCachedTime {
        return cachedTimeValue;
      }
      var attribute := FindAttribute(attributes, TimeKey);
      if attribute.Some? && Value(attribute.value).Some? && Value(attribute.value).value != "" {
        var parsed := ParseDateTime(Value(attribute.value).value);
        if parsed.Some? {
          cachedTimeValue := parsed;
        }
      }
      hasCachedTime := true;
      t := cachedTimeValue;
    }

    /**
     * The `Time` setter: null removes every time attribute, a timestamp replaces them by
     * one holding its round-trip text; the cache then holds the value just set.
     */
    method SetTime(value: Option<DateTime>)
      modifies this
      ensures value.None? ==> attributes == RemoveKey(old(attributes), TimeKey)
      ensures value.Some? ==> attributes == WithAttribute(old(attributes), TimeAttribute(value.value))
      ensures hasCachedTime && cachedTimeValue == value
      ensures created == old(created)
      ensures Valid()
    {
      if value.None? {
        SetAttributes(Some(RemoveKey(attributes, TimeKey)));
        StoredTimeAfterRemove(old(attributes));
        cachedTimeValue := None;
        hasCachedTime := true;
      } else {
        SetAttributes(Some(WithAttribute(attributes, TimeAttribute(value.value))));
        StoredTimeAfterSet(old(attributes), value.value);
        cachedTimeValue := value;
        hasCachedTime := true;
      }
    }

    /** `TimeOrMinDate`: the time, or the smallest database date when there is none. */
    method TimeOrMinDate() returns (t: DateTime)
      requires Valid()
      modifies this
      ensures Valid()
      ensures t == StoredTime(attributes).GetOr(MinimumValidDatabaseDateTime)
      ensures attributes == old(attributes) && created == old(created)
    {
      var time := GetTime();
      t := time.GetOr(MinimumValidDatabaseDateTime);
    }

    /** `TimeOrCreationDate`: the time, or the creation date when there is none. */
    method TimeOrCreationDate() returns (t: DateTime)
      requires Valid()
      modifies this
      ensures Valid()
      ensures t == StoredTime(attributes).GetOr(created)
      ensures attributes == old(attributes) && created == old(created)
    {
      var time := GetTime();
      t := time.GetOr(created);
    }
  }

  // ----- properties of the time attribute ------------------------------------------------

  /** After the time attributes are removed, the measurement has no time. */
  lemma StoredTimeAfterRemove(attrs: seq<Attribute>)
    ensures StoredTime(RemoveKey(attrs, TimeKey)) == None
  {
  }

  /** Once an attribute is set, looking its key up finds exactly it. */
  lemma FindAfterWith(attrs: seq<Attribute>, a: Attribute)
    ensures FindAttribute(WithAttribute(attrs, a), a.key) == Some(a)
  {
    var r := WithAttribute(attrs, a);
    var removed := RemoveKey(attrs, a.key);
    assert r[|removed|] == a;
    FindAttributeFirst(r, a.key, |removed|);
  }

  /** A timestamp written through `Time` reads back as the same timestamp. */
  lemma StoredTimeAfterSet(attrs: seq<Attribute>, t: DateTime)
    ensures StoredTime(WithAttribute(attrs, TimeAttribute(t))) == Some(t)
  {
    FindAfterWith(attrs, TimeAttribute(t));
    StoredTimeOfText(WithAttribute(attrs, TimeAttribute(t)), t);
  }

  /** Setting an attribute twice leaves the same list as setting it once. */
  lemma {:induction false} WithAttributeIdempotent(attrs: seq<Attribute>, a: Attribute)
    ensures WithAttribute(WithAttribute(attrs, a), a) == WithAttribute(attrs, a)
  {
    RemoveKeyAppend(RemoveKey(attrs, a.key), [a], a.key);
    RemoveKeyNoKey(RemoveKey(attrs, a.key), a.key);
    assert RemoveKey([a], a.key) == RemoveKey([], a.key);
  }

  lemma {:induction false} RemoveKeyAppend(xs: seq<Attribute>, ys: seq<Attribute>, key: ushort)
    ensures RemoveKey(xs + ys, key) == RemoveKey(xs, key) + RemoveKey(ys, key)
  {
    if xs == [] {
      assert xs + ys == ys;
    } else {
      assert (xs + ys)[1..] == xs[1..] + ys;
      RemoveKeyAppend(xs[1..], ys, key);
    }
  }

  lemma {:induction false} RemoveKeyNoKey(xs: seq<Attribute>, key: ushort)
    requires forall i :: 0 <= i < |xs| ==> xs[i].key != key
    ensures RemoveKey(xs, key) == xs
  {
    if xs != [] {
      RemoveKeyNoKey(xs[1..], key);
    }
  }

  /** Removing one key leaves the lookup of every other key as it was. */
  lemma {:induction false} FindAfterRemoveOther(attrs: seq<Attribute>, removed: ushort, key: ushort)
    requires removed != key
    ensures FindAttribute(RemoveKey(attrs, removed), key) == FindAttribute(attrs, key)
  {
    if attrs != [] {
      FindAfterRemoveOther(attrs[1..], removed, key);
      if attrs[0].key != removed {
        assert ([attrs[0]] + RemoveKey(attrs[1..], removed))[1..] == RemoveKey(attrs[1..], removed);
      }
    }
  }

  /** Setting or clearing the time leaves every other attribute's lookup unchanged. */
  lemma SetTimeKeepsOtherAttributes(attrs: seq<Attribute>, t: DateTime, key: ushort)
    requires key != TimeKey
    ensures FindAttribute(WithAttribute(attrs, TimeAttribute(t)), key) == FindAttribute(attrs, key)
    ensures FindAttribute(RemoveKey(attrs, TimeKey), key) == FindAttribute(attrs, key)
  {
    FindAfterRemoveOther(attrs, TimeKey, key);
    var removed := RemoveKey(attrs, TimeKey);
    FindAppendMissing(removed, [TimeAttribute(t)], key);
  }

  /** Appending attributes of other keys does not change a lookup. */
  lemma {:induction false} FindAppendMissing(xs: seq<Attribute>, ys: seq<Attribute>, key: ushort)
    requires forall i :: 0 <= i < |ys| ==> ys[i].key != key
    ensures FindAttribute(xs + ys, key) == FindAttribute(xs, key)
  {
    if xs == [] {
      assert xs + ys == ys;
    } else {
      assert (xs + ys)[1..] == xs[1..] + ys;
      FindAppendMissing(xs[1..], ys, key);
    }
  }

  /** A time attribute holding some timestamp's round-trip text reads back as that timestamp. */
  lemma StoredTimeOfText(attrs: seq<Attribute>, t: DateTime)
    requires FindAttribute(attrs, TimeKey).Some?
    requires Value(FindAttribute(attrs, TimeKey).value) == Some(FormatDateTime(t))
    ensures StoredTime(attrs) == Some(t)
  {
    ParseFormatDateTime(t);
    FormatDateTimeShape(t);
  }

  /** A time stored as a native timestamp payload reads back as that timestamp. */
  lemma StoredTimeOfRawTimestamp(t: DateTime)
    ensures StoredTime([Attribute(TimeKey, Raw(RawDateTime(t)))]) == Some(t)
  {
    StoredTimeOfText([Attribute(TimeKey, Raw(RawDateTime(t)))], t);
  }

  /** An empty or unparseable time text means no time, not an error. */
  lemma StoredTimeOfBadText(rest: seq<Attribute>)
    ensures StoredTime([FromString(TimeKey, Some(""))] + rest) == None
    ensures StoredTime([FromString(TimeKey, Some("yesterday"))] + rest) == None
    ensures StoredTime([FromString(TimeKey, None)] + rest) == None
  {
  }

  /** Only the first time attribute counts. */
  lemma StoredTimeUsesFirst(t: DateTime, rest: seq<Attribute>)
    ensures StoredTime([TimeAttribute(t)] + rest) == Some(t)
  {
    StoredTimeOfText([TimeAttribute(t)] + rest, t);
  }
}
