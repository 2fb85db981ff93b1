/** A LISP dotted pair as a list of AutoCAD typed values.

    `LispDottedPair` keeps its values in the list it inherits from `LispList`;
    its `Value` getter returns that list wrapped between a ListBegin marker and
    a DottedPair marker, which is how a dotted pair is handed to the LISP
    interpreter. */
module ResultData {
  import opened Wrappers

  /** The payload of a typed value; the model only needs its equality. */
  datatype Datum = IntDatum(n: int) | RealDatum(r: real) | TextDatum(s: string)

  /** AutoCAD's `TypedValue`: a type code and a value. */
  datatype TypedValue = TypedValue(typeCode: int, value: Datum)

  /** The two codes of AutoCAD's `LispDataType` enumeration that the getter uses. */
  const ListBegin: int := 5016
  const DottedPair: int := 5018

  /** The markers `Value` puts around the stored values: both carry the value -1. */
  const ListBeginMarker: TypedValue := TypedValue(ListBegin, IntDatum(-1))
  const DottedPairMarker: TypedValue := TypedValue(DottedPair, IntDatum(-1))

  /** `List<T>.InsertRange(index, items)`: `items` spliced in before position `index`. */
  function InsertRange<T>(list: seq<T>, index: nat, items: seq<T>): (r: seq<T>)
    requires index <= |list|
    ensures |r| == |list| + |items|
    ensures forall i :: 0 <= i < index ==> r[i] == list[i]
    ensures forall i :: 0 <= i < |items| ==> r[index + i] == items[i]
    ensures forall i :: index <= i < |list| ==> r[|items| + i] == list[i]
  {
    list[..index] + items + list[index..]
  }

  /** What `Value` returns for stored values `items`. */
  function Framed(items: seq<TypedValue>): (v: seq<TypedValue>)
    ensures |v| == |items| + 2
    ensures v[0] == ListBeginMarker && v[|v| - 1] == DottedPairMarker
    ensures forall i :: 0 <= i < |items| ==> v[i + 1] == items[i]
  {
    InsertRange([ListBeginMarker, DottedPairMarker], 1, items)
  }

  /** The inverse of `Framed`: the values between the two markers, if both are there. */
  function Unframed(v: seq<TypedValue>): (r: Option<seq<TypedValue>>)
    ensures r.Some? <==> |v| >= 2 && v[0] == ListBeginMarker && v[|v| - 1] == DottedPairMarker
    ensures r.Some? ==> |r.value| == |v| - 2
  {
    if |v| >= 2 && v[0] == ListBeginMarker && v[|v| - 1] == DottedPairMarker
    then Some(v[1..|v| - 1])
    else None
  }

  /** Unframing what `Value` built gives back exactly the stored values. */
  lemma UnframedFramed(items: seq<TypedValue>)
    ensures Unframed(Framed(items)) == Some(items)
  {
    var v := Framed(items);
    assert v[1..|v| - 1] == items;
  }

  /** Every list that unframes to `items` is the one `Value` builds from `items`. */
  lemma FramedUnframed(v: seq<TypedValue>)
    requires Unframed(v).Some?
    ensures Framed(Unframed(v).value) == v
  {
    var items := Unframed(v).value;
    var w := Framed(items);
    assert |w| == |v|;
    forall i | 0 <= i < |v| ensures w[i] == v[i] {
      if 0 < i < |v| - 1 {
        assert w[i] == items[i - 1];
      }
    }
  }

  /** For a pair built from `left` and `right` the getter yields exactly four values. */
  lemma FramedPair(left: TypedValue, right: TypedValue)
    ensures Framed([left, right]) == [ListBeginMarker, left, right, DottedPairMarker]
  {
  }

  class LispDottedPair {
    /** The values held by the underlying `LispList`, in insertion order. */
    var items: seq<TypedValue>

    /** The parameterless constructor: an empty pair. */
    constructor Empty()
      ensures items == []
    {
      items := [];
    }

    /** The two-value constructor appends `left`, then `right`. */
    constructor (left: TypedValue, right: TypedValue)
      ensures items == [left, right]
    {
      items := [];
      new;
      Add(left);
      Add(right);
    }

    /** `LispList.Add`: append one value. */
    method Add(v: TypedValue)
      modifies this
      ensures items == old(items) + [v]
    {
      items := items + [v];
    }

    /** The `Value` getter: a new list holding the ListBegin marker, the stored
        values in order and the DottedPair marker. It changes nothing. */
    method Value() returns (value: seq<TypedValue>)
      ensures |value| == |items| + 2
      ensures value[0] == ListBeginMarker && value[|value| - 1] == DottedPairMarker
      ensures forall i :: 0 <= i < |items| ==> value[i + 1] == items[i]
      ensures Unframed(value) == Some(items)
    {
      value := [ListBeginMarker, DottedPairMarker];
      value := InsertRange(value, 1, items);
      assert value == Framed(items);
      UnframedFramed(items);
    }
  }
}
