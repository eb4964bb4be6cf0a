/**
 * Field masking (`filter`, `filter_value`): narrowing JSON objects to a
 * comma-separated list of top-level field names.
 */
module Mask {
  import opened Wrappers
  import opened Json
  import opened Text

  /**
   * The value `filter` computes: an object keeps exactly the listed fields
   * it has, each with its value; anything that is not an object is returned
   * as it is. Field order in the result is not modelled.
   */
  function Masked(v: Value, fields: seq<string>): (r: Value)
    ensures v.Obj? ==> r.Obj? && r.obj.Keys == v.obj.Keys * set f | f in fields
    ensures v.Obj? ==> forall k :: k in r.obj ==> r.obj[k] == v.obj[k]
    ensures !v.Obj? ==> r == v
  {
    match v
    case Obj(o) => Obj(map k | k in o && k in fields :: o[k])
    case _ => v
  }

  /**
   * `filter`: an object is rebuilt by inserting, for each listed field in
   * turn, the field's value when the object has it.
   */
  method Filter(val: Value, fields: seq<string>) returns (r: Value)
    ensures r == Masked(val, fields)
  {
    if val.Obj? {
      var obj := val.obj;
      var newObj: map<string, Value> := map[];
      for i := 0 to |fields|
        invariant newObj == map k | k in obj && k in fields[..i] :: obj[k]
      {
        var k := fields[i];
        assert fields[..i + 1] == fields[..i] + [k];
        if k in obj {
          newObj := newObj[k := obj[k]];
        }
      }
      assert fields[..|fields|] == fields;
      r := Obj(newObj);
    } else {
      r := val;
    }
  }

  /** Masking twice with the same fields is masking once. */
  lemma MaskedIdempotent(v: Value, fields: seq<string>)
    ensures Masked(Masked(v, fields), fields) == Masked(v, fields)
  {
  }

  /** Only the set of listed fields matters, not their order or repetition. */
  lemma MaskedByFieldSet(v: Value, f1: seq<string>, f2: seq<string>)
    requires forall f :: f in f1 <==> f in f2
    ensures Masked(v, f1) == Masked(v, f2)
  {
  }

  /** Masking with `f1` and then `f2` keeps the fields listed in both. */
  lemma MaskedTwice(v: Value, f1: seq<string>, f2: seq<string>, both: seq<string>)
    requires forall f :: f in both <==> f in f1 && f in f2
    ensures Masked(Masked(v, f1), f2) == Masked(v, both)
  {
  }

  /**
   * The precondition of `filter_value`'s scalar branch, which unwraps the
   * result of re-parsing the scalar's serialisation.
   */
  predicate Reparses(codec: Codec, v: Value)
  {
    v.Arr? || v.Obj? || codec.parse(codec.serialize(v)).Some?
  }

  /**
   * `filter_value`: the mask is split on `,` (fields are not trimmed and
   * empty fields are kept). An array is mapped element-wise with `Masked`,
   * so only its object elements are narrowed; an object is masked; a scalar
   * is serialised and parsed again.
   */
  function FilterValue(val: Value, fieldsString: string, codec: Codec): (r: Value)
    requires Reparses(codec, val)
    ensures val.Arr? ==> r.Arr? && |r.arr| == |val.arr|
    ensures val.Arr? ==> forall i :: 0 <= i < |val.arr| ==>
      r.arr[i] == Masked(val.arr[i], Split(fieldsString, ','))
    ensures val.Obj? ==> r == Masked(val, Split(fieldsString, ','))
    ensures !val.Arr? && !val.Obj? ==> codec.parse(codec.serialize(val)) == Some(r)
  {
    var fields := Split(fieldsString, ',');
    match val
    case Arr(xs) => Arr(seq(|xs|, i requires 0 <= i < |xs| => Masked(xs[i], fields)))
    case Obj(_) => Masked(val, fields)
    case _ => ToValue(codec, codec.serialize(val))
  }

  /** Elements of an array that are not objects, nested arrays included, come back unchanged. */
  lemma FilterValueKeepsNonObjectElements(xs: seq<Value>, fieldsString: string, codec: Codec, i: nat)
    requires i < |xs| && !xs[i].Obj?
    ensures FilterValue(Arr(xs), fieldsString, codec).arr[i] == xs[i]
  {
  }

  /** Under a lossless codec, masking a scalar is the identity. */
  lemma FilterValueScalar(val: Value, fieldsString: string, codec: Codec)
    requires Lossless(codec) && !val.Arr? && !val.Obj?
    ensures Reparses(codec, val) && FilterValue(val, fieldsString, codec) == val
  {
  }

  /** Under a lossless codec, `filter_value` is idempotent. */
  lemma FilterValueIdempotent(val: Value, fieldsString: string, codec: Codec)
    requires Lossless(codec)
    ensures Reparses(codec, FilterValue(val, fieldsString, codec))
    ensures FilterValue(FilterValue(val, fieldsString, codec), fieldsString, codec)
         == FilterValue(val, fieldsString, codec)
  {
    var fields := Split(fieldsString, ',');
    var once := FilterValue(val, fieldsString, codec);
    if val.Arr? {
      var twice := FilterValue(once, fieldsString, codec);
      forall i | 0 <= i < |val.arr|
        ensures twice.arr[i] == once.arr[i]
      {
        MaskedIdempotent(val.arr[i], fields);
      }
    } else if val.Obj? {
      MaskedIdempotent(val, fields);
    }
  }

  /** Masking `{"a":1,"b":2,"c":3}` with `a,c` keeps `a` and `c`. */
  lemma MaskExampleBothPresent(codec: Codec)
    ensures FilterValue(Obj(map["a" := Num(1), "b" := Num(2), "c" := Num(3)]), "a,c", codec)
         == Obj(map["a" := Num(1), "c" := Num(3)])
  {
    SplitJoin(["a", "c"], ',');
    assert Join(["a", "c"], ',') == "a,c";
  }

  /** Masking `{"a":1,"b":2,"c":3}` with `a,z` keeps `a` only; the absent `z` is ignored. */
  lemma MaskExampleOneAbsent(codec: Codec)
    ensures FilterValue(Obj(map["a" := Num(1), "b" := Num(2), "c" := Num(3)]), "a,z", codec)
         == Obj(map["a" := Num(1)])
  {
    SplitJoin(["a", "z"], ',');
    assert Join(["a", "z"], ',') == "a,z";
  }
}
