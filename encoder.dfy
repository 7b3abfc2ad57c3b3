/** The value encoder `getJSONValue` of tests/testutil.ts: it turns a value
    and its Scilla type into the JSON form a contract call expects. Rules are
    tried in a fixed order and the first that applies wins. */
module Encoder {
  import opened JsValues
  import opened TypeSignature

  /** Size of an optional type string; the encoder only ever recurses on a
      smaller one. A missing type (`undefined`) is the smallest. */
  function TypeSize(ty: Option<string>): nat
  {
    match ty
    case None => 0
    case Some(s) => |s| + 1
  }

  /** `types[i]`, which is `undefined` past the end. */
  function TypeAt(types: seq<string>, i: nat): Option<string>
  {
    if i < |types| then Some(types[i]) else None
  }

  /** `typeof type === "string" && type.startsWith(prefix)`. */
  predicate HasPrefix(ty: Option<string>, prefix: string)
  {
    ty.Some? && StartsWith(ty.value, prefix)
  }

  /** The component types of a compound type, `extractTypes(type)`. */
  function Components(ty: Option<string>): (types: seq<string>)
    ensures forall i :: 0 <= i < |types| ==> TypeSize(TypeAt(types, i)) < TypeSize(ty)
  {
    if ty.Some? then TopLevelGroups(ty.value) else []
  }

  /** `value.toString()` as an encoded value. */
  function AsString(value: Value): Result<Value>
  {
    match CallToString(value)
    case Ok(s) => Ok(Str(s))
    case TypeError => TypeError
  }

  /** Whether `undefined` occurs in a value, at the top or inside arrays. */
  predicate HasUndefined(v: Value)
  {
    match v
    case Undefined => true
    case Arr(xs) => exists i :: 0 <= i < |xs| && HasUndefined(xs[i])
    case _ => false
  }

  /** `getJSONValue(value, type)`. The only exception it can raise is
      `undefined.toString()`, so it throws only on a value that holds
      `undefined`. */
  function GetJSONValue(value: Value, ty: Option<string>): (r: Result<Value>)
    ensures r.TypeError? ==> HasUndefined(value)
    decreases TypeSize(ty)
  {
    if HasPrefix(ty, "Uint") then AsString(value)
    else if HasPrefix(ty, "Int") then AsString(value)
    else if ty == Some("String") then Ok(value)
    else if HasPrefix(ty, "ByStr") && value.Str? then Ok(Str(ToLowerCase(value.s)))
    else if ty == Some("BNum") then AsString(value)
    else if value.Bool? then Ok(Adt(if value.b then "True" else "False", [], []))
    else if HasPrefix(ty, "Option") then
      var types := Components(ty);
      if value.Undefined? then Ok(Adt("None", types, []))
      else
        match GetJSONValue(value, TypeAt(types, 0))
        case Ok(e) => Ok(Adt("Some", types, [e]))
        case TypeError => TypeError
    else if HasPrefix(ty, "List") && value.Arr? then
      var inner := TypeAt(Components(ty), 0);
      var xs := value.elems;
      match AllOk(seq(|xs|, i requires 0 <= i < |xs| => GetJSONValue(xs[i], inner)))
      case Ok(es) => Ok(Arr(es))
      case TypeError => TypeError
    else if HasPrefix(ty, "Pair") && value.Arr? then
      var types := Components(ty);
      var xs := value.elems;
      match AllOk(seq(|xs|, i requires 0 <= i < |xs| => GetJSONValue(xs[i], TypeAt(types, i))))
      case Ok(es) => Ok(Adt("Pair", types, es))
      case TypeError => TypeError
    else Ok(value)
  }

  // ---------------------------------------------------------------------
  // Which rule a type selects, and the values each rule is meant for
  // ---------------------------------------------------------------------

  /** The family a type belongs to, by the first prefix test it passes. */
  datatype Kind = Numeric | Text | Bytes | OptionOf | ListOf | PairOf | Other

  function KindOf(ty: Option<string>): Kind
  {
    if HasPrefix(ty, "Uint") || HasPrefix(ty, "Int") then Numeric
    else if ty == Some("String") then Text
    else if HasPrefix(ty, "ByStr") then Bytes
    else if ty == Some("BNum") then Numeric
    else if HasPrefix(ty, "Option") then OptionOf
    else if HasPrefix(ty, "List") then ListOf
    else if HasPrefix(ty, "Pair") then PairOf
    else Other
  }

  /** An ADT record that a boolean is encoded as. */
  predicate IsBoolAdt(e: Value)
  {
    e.Adt? && (e.ctor == "True" || e.ctor == "False") && e.argtypes == [] && e.arguments == []
  }

  /** The values a test passes for a type when it means what the type says:
      numbers for integer types and block numbers, strings for `String`,
      lower-case strings for `ByStr`, nothing or a value of the component
      type for `Option`, arrays of component values for `List` and `Pair`.
      A boolean is accepted wherever the encoder turns it into `True`/`False`,
      and a value already in wire form wherever it is passed through. */
  ghost predicate Conforms(v: Value, ty: Option<string>)
    decreases TypeSize(ty)
  {
    match KindOf(ty)
    case Numeric => v.Num?
    case Text => v.Str?
    case Bytes => v.Str? && IsLowerCase(v.s)
    case OptionOf =>
      v.Undefined? || v.Bool? || Conforms(v, TypeAt(Components(ty), 0))
    case ListOf =>
      v.Bool? ||
      (v.Arr? && forall i :: 0 <= i < |v.elems| ==> Conforms(v.elems[i], TypeAt(Components(ty), 0)))
    case PairOf =>
      v.Bool? ||
      (v.Arr? && forall i :: 0 <= i < |v.elems| ==> Conforms(v.elems[i], TypeAt(Components(ty), i)))
    case Other => v.Bool? || !IsBoolAdt(v)
  }

  /** Reads an encoded value back as the value it encodes. */
  function Decode(e: Value, ty: Option<string>): Value
    decreases TypeSize(ty)
  {
    match KindOf(ty)
    case Numeric => if e.Str? && ParseInt(e.s).Some? then Num(ParseInt(e.s).value) else e
    case Text => e
    case Bytes => e
    case OptionOf =>
      if IsBoolAdt(e) then Bool(e.ctor == "True")
      else if e.Adt? && e.ctor == "None" then Undefined
      else if e.Adt? && e.ctor == "Some" && |e.arguments| == 1 then
        Decode(e.arguments[0], TypeAt(Components(ty), 0))
      else e
    case ListOf =>
      if IsBoolAdt(e) then Bool(e.ctor == "True")
      else if e.Arr? then
        var inner := TypeAt(Components(ty), 0);
        Arr(seq(|e.elems|, i requires 0 <= i < |e.elems| => Decode(e.elems[i], inner)))
      else e
    case PairOf =>
      if IsBoolAdt(e) then Bool(e.ctor == "True")
      else if e.Adt? && e.ctor == "Pair" then
        var types := Components(ty);
        Arr(seq(|e.arguments|, i requires 0 <= i < |e.arguments| => Decode(e.arguments[i], TypeAt(types, i))))
      else e
    case Other => if IsBoolAdt(e) then Bool(e.ctor == "True") else e
  }

  /** A value that conforms to its type is encoded without an exception, and
      decoding the encoding gives the value back. */
  lemma {:induction false} DecodeInvertsEncode(v: Value, ty: Option<string>)
    requires Conforms(v, ty)
    ensures GetJSONValue(v, ty).Ok? && Decode(GetJSONValue(v, ty).value, ty) == v
    decreases TypeSize(ty)
  {
    match KindOf(ty)
    case Numeric =>
    case Text =>
    case Bytes =>
    case OptionOf =>
      if !v.Undefined? && !v.Bool? {
        DecodeInvertsEncode(v, TypeAt(Components(ty), 0));
      }
    case ListOf =>
      if !v.Bool? {
        var inner := TypeAt(Components(ty), 0);
        var xs := v.elems;
        var rs := seq(|xs|, i requires 0 <= i < |xs| => GetJSONValue(xs[i], inner));
        forall i | 0 <= i < |xs| ensures rs[i].Ok? && Decode(rs[i].value, inner) == xs[i] {
          DecodeInvertsEncode(xs[i], inner);
        }
        var es := AllOk(rs).value;
        assert GetJSONValue(v, ty) == Ok(Arr(es));
        assert Decode(Arr(es), ty).elems == xs;
      }
    case PairOf =>
      if !v.Bool? {
        var types := Components(ty);
        var xs := v.elems;
        var rs := seq(|xs|, i requires 0 <= i < |xs| => GetJSONValue(xs[i], TypeAt(types, i)));
        forall i | 0 <= i < |xs| ensures rs[i].Ok? && Decode(rs[i].value, TypeAt(types, i)) == xs[i] {
          DecodeInvertsEncode(xs[i], TypeAt(types, i));
        }
        var es := AllOk(rs).value;
        assert GetJSONValue(v, ty) == Ok(Adt("Pair", types, es));
        assert Decode(Adt("Pair", types, es), ty).elems == xs;
      }
    case Other =>
  }

  /** Two values that conform to the same type have the same encoding only
      if they are equal: comparing encodings compares the values. */
  lemma EncodingIsInjective(v: Value, w: Value, ty: Option<string>)
    requires Conforms(v, ty) && Conforms(w, ty)
    requires GetJSONValue(v, ty) == GetJSONValue(w, ty)
    ensures v == w
  {
    DecodeInvertsEncode(v, ty);
    DecodeInvertsEncode(w, ty);
  }

  // ---------------------------------------------------------------------
  // The rules and their priority
  // ---------------------------------------------------------------------

  /** Integer types and `BNum` take `value.toString()`, whatever the value:
      numbers give their decimal text, strings pass, booleans become "true" or
      "false", and only `undefined` throws. */
  lemma NumericTypesTakeToString(v: Value, ty: Option<string>)
    requires KindOf(ty) == Numeric
    ensures GetJSONValue(v, ty) == AsString(v)
    ensures GetJSONValue(v, ty).TypeError? <==> v.Undefined?
    ensures v.Num? ==> GetJSONValue(v, ty) == Ok(Str(IntToDecimal(v.n))) && ParseInt(IntToDecimal(v.n)) == Some(v.n)
    ensures v.Str? ==> GetJSONValue(v, ty) == Ok(v)
    ensures v.Bool? ==> GetJSONValue(v, ty) == Ok(Str(if v.b then "true" else "false"))
  {
    if v.Num? { ParseIntInverts(v.n); }
  }

  /** A `ByStr` string is lower-cased: the result is the string with every
      upper-case letter lowered, of the same length, with no upper-case letter
      left, and encoding the result again changes nothing. */
  lemma ByStrLowerCases(s: string, ty: Option<string>)
    requires KindOf(ty) == Bytes
    ensures GetJSONValue(Str(s), ty) == Ok(Str(ToLowerCase(s)))
    ensures var r := GetJSONValue(Str(s), ty);
      r.Ok? && r.value.Str? && |r.value.s| == |s| && IsLowerCase(r.value.s) &&
      GetJSONValue(r.value, ty) == r
  {
  }

  /** The type `String` returns every value unchanged, booleans included. */
  lemma StringKeepsValue(v: Value)
    ensures GetJSONValue(v, Some("String")) == Ok(v)
  {
    DiffersFrom("String", "Uint", 0);
    DiffersFrom("String", "Int", 0);
  }

  /** A boolean becomes the ADT `True` or `False` under every type except the
      integer types, `BNum` and `String`, even under `Option`, `List` and `Pair`. */
  lemma BooleanBecomesAdt(b: bool, ty: Option<string>)
    requires KindOf(ty) !in {Numeric, Text}
    ensures GetJSONValue(Bool(b), ty) == Ok(Adt(if b then "True" else "False", [], []))
  {
  }

  /** `Option`: no value gives `None` with no argument, any other value
      `Some` with its encoding under the first component type as the only
      argument; the component types are the argument types either way. */
  lemma OptionRule(v: Value, ty: Option<string>)
    requires KindOf(ty) == OptionOf && !v.Bool?
    ensures var r := GetJSONValue(v, ty);
      var inner := GetJSONValue(v, TypeAt(TopLevelGroups(ty.value), 0));
      (r.TypeError? <==> !v.Undefined? && inner.TypeError?) &&
      (r.Ok? ==> r.value.Adt? && r.value.argtypes == TopLevelGroups(ty.value) &&
                 (r.value.ctor == "None" <==> v.Undefined?) &&
                 (v.Undefined? ==> r.value.arguments == []) &&
                 (!v.Undefined? ==> r.value.ctor == "Some" && r.value.arguments == [inner.value]))
  {
  }

  /** `List` with an array: a plain array of the same length, element `i`
      encoded under the first component type; it throws if one of them does. */
  lemma ListRule(xs: seq<Value>, ty: Option<string>)
    requires KindOf(ty) == ListOf
    ensures var r := GetJSONValue(Arr(xs), ty);
      var inner := TypeAt(TopLevelGroups(ty.value), 0);
      (r.TypeError? <==> exists i :: 0 <= i < |xs| && GetJSONValue(xs[i], inner).TypeError?) &&
      (r.Ok? ==> r.value.Arr? && |r.value.elems| == |xs| &&
                 forall i :: 0 <= i < |xs| ==> GetJSONValue(xs[i], inner) == Ok(r.value.elems[i]))
  {
    var inner := TypeAt(Components(ty), 0);
    var rs := seq(|xs|, i requires 0 <= i < |xs| => GetJSONValue(xs[i], inner));
    assert forall i :: 0 <= i < |xs| ==> rs[i] == GetJSONValue(xs[i], inner);
    assert GetJSONValue(Arr(xs), ty) == if AllOk(rs).Ok? then Ok(Arr(AllOk(rs).value)) else TypeError;
  }

  /** `Pair` with an array: the ADT `Pair` whose argument types are the
      component types and whose argument `i` is element `i` encoded under
      component type `i` (`undefined` past the last one). */
  lemma PairRule(xs: seq<Value>, ty: Option<string>)
    requires KindOf(ty) == PairOf
    ensures var r := GetJSONValue(Arr(xs), ty);
      var types := TopLevelGroups(ty.value);
      (r.TypeError? <==> exists i :: 0 <= i < |xs| && GetJSONValue(xs[i], TypeAt(types, i)).TypeError?) &&
      (r.Ok? ==> r.value.Adt? && r.value.ctor == "Pair" && r.value.argtypes == types &&
                 |r.value.arguments| == |xs| &&
                 forall i :: 0 <= i < |xs| ==> GetJSONValue(xs[i], TypeAt(types, i)) == Ok(r.value.arguments[i]))
  {
    var types := Components(ty);
    var rs := seq(|xs|, i requires 0 <= i < |xs| => GetJSONValue(xs[i], TypeAt(types, i)));
    assert forall i :: 0 <= i < |xs| ==> rs[i] == GetJSONValue(xs[i], TypeAt(types, i));
    assert !HasPrefix(ty, "Option") && !HasPrefix(ty, "List");
    assert GetJSONValue(Arr(xs), ty) == if AllOk(rs).Ok? then Ok(Adt("Pair", types, AllOk(rs).value)) else TypeError;
  }

  /** Values no rule claims are returned unchanged: anything under an unknown
      or missing type, a non-string under `ByStr`, a non-array under `List`
      or `Pair`; booleans excepted. */
  lemma UnclaimedValuesPassThrough(v: Value, ty: Option<string>)
    requires !v.Bool?
    requires KindOf(ty) == Other || (KindOf(ty) == Bytes && !v.Str?) ||
             (KindOf(ty) in {ListOf, PairOf} && !v.Arr?)
    ensures GetJSONValue(v, ty) == Ok(v)
  {
    if KindOf(ty) == Bytes {
      BytesIsNoCompound(ty);
    }
  }

  /** A `ByStr` type is none of the compound types. */
  lemma BytesIsNoCompound(ty: Option<string>)
    requires KindOf(ty) == Bytes
    ensures !HasPrefix(ty, "Option") && !HasPrefix(ty, "List") && !HasPrefix(ty, "Pair")
  {
    assert HasPrefix(ty, "ByStr");
    assert ty.value[0] == "ByStr"[0];
    DiffersFrom(ty.value, "Option", 0);
    DiffersFrom(ty.value, "List", 0);
    DiffersFrom(ty.value, "Pair", 0);
  }

  /** A scalar already in wire form is its own encoding. */
  lemma ScalarEncodingIsIdempotent(v: Value, ty: Option<string>)
    requires KindOf(ty) in {Numeric, Text, Bytes}
    requires GetJSONValue(v, ty).Ok?
    ensures GetJSONValue(GetJSONValue(v, ty).value, ty) == GetJSONValue(v, ty)
  {
    var e := GetJSONValue(v, ty).value;
    if KindOf(ty) == Numeric {
      assert e.Str?;
    } else if KindOf(ty) == Bytes {
      BytesIsNoCompound(ty);
      if v.Str? {
        assert e == Str(ToLowerCase(v.s));
      } else if v.Bool? {
        assert IsBoolAdt(e);
      } else {
        assert e == v;
      }
    }
  }

  // ---------------------------------------------------------------------
  // Worked examples
  // ---------------------------------------------------------------------

  lemma ScalarExamples()
    ensures GetJSONValue(Num(5), Some("Uint128")) == Ok(Str("5"))
    ensures GetJSONValue(Str("5"), Some("Uint128")) == Ok(Str("5"))
    ensures GetJSONValue(Str("0xABcd"), Some("ByStr20")) == Ok(Str("0xabcd"))
    ensures GetJSONValue(Bool(true), Some("Option (Bool)")) == Ok(Adt("True", [], []))
  {
    assert StartsWith("Uint128", "Uint");
    DiffersFrom("ByStr20", "Uint", 0);
    DiffersFrom("ByStr20", "Int", 0);
    assert StartsWith("ByStr20", "ByStr");
    assert ToLowerCase("0xABcd") == "0xabcd";
    var o := "Option (Bool)";
    DiffersFrom(o, "Uint", 0);
    DiffersFrom(o, "Int", 0);
    DiffersFrom(o, "ByStr", 0);
  }

  lemma OptionExamples(ty: string)
    requires ty == "Option (Uint128)"
    ensures GetJSONValue(Undefined, Some(ty)) == Ok(Adt("None", ["Uint128"], []))
    ensures GetJSONValue(Num(5), Some(ty)) == Ok(Adt("Some", ["Uint128"], [Str("5")]))
  {
    PlainIsBalanced("Uint128");
    OneArgument("Option", "Uint128");
    assert ty == "Option" + " (" + "Uint128" + ")";
    assert TopLevelGroups(ty) == ["Uint128"];
    DiffersFrom(ty, "Uint", 0);
    DiffersFrom(ty, "Int", 0);
    DiffersFrom(ty, "ByStr", 0);
    assert StartsWith(ty, "Option");
    assert StartsWith("Uint128", "Uint");
  }
}
