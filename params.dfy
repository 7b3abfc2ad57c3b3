/** The parameter builder `getJSONParams` of tests/testutil.ts: a table
    `{ name: [type, value], ... }` becomes the list of wire parameters
    `{type, value, vname}`, in the table's key order. */
module Params {
  import opened JsValues
  import opened Encoder

  /** One key of the table: `name: [ty, value]`. */
  datatype Binding = Binding(name: string, ty: string, value: Value)

  /** One wire parameter `{type, value, vname}`. */
  datatype Param = Param(vname: string, ty: string, value: Value)

  /** The parameter built from one key: its name and type are kept and its
      value is encoded under the type; it throws when the encoding does. */
  function EncodeBinding(b: Binding): (r: Result<Param>)
    ensures r.TypeError? <==> GetJSONValue(b.value, Some(b.ty)).TypeError?
    ensures r.Ok? ==> r.value.vname == b.name && r.value.ty == b.ty &&
                      GetJSONValue(b.value, Some(b.ty)) == Ok(r.value.value)
  {
    match GetJSONValue(b.value, Some(b.ty))
    case Ok(e) => Ok(Param(b.name, b.ty, e))
    case TypeError => TypeError
  }

  /** `getJSONParams(table)`: one parameter per key, in order, with the name
      and type kept and the value encoded under the type; it throws if one
      of the encodings does. */
  function GetJSONParams(table: seq<Binding>): (r: Result<seq<Param>>)
    ensures r.TypeError? <==>
      exists i :: 0 <= i < |table| && GetJSONValue(table[i].value, Some(table[i].ty)).TypeError?
    ensures r.Ok? ==> (|r.value| == |table| &&
      forall i :: 0 <= i < |table| ==>
        r.value[i].vname == table[i].name && r.value[i].ty == table[i].ty &&
        GetJSONValue(table[i].value, Some(table[i].ty)) == Ok(r.value[i].value))
  {
    var rs := seq(|table|, i requires 0 <= i < |table| => EncodeBinding(table[i]));
    assert forall i :: 0 <= i < |table| ==> rs[i] == EncodeBinding(table[i]);
    AllOk(rs)
  }

  /** Reads wire parameters back as the table they were built from. */
  function DecodeParams(ps: seq<Param>): (table: seq<Binding>)
    ensures |table| == |ps|
  {
    seq(|ps|, i requires 0 <= i < |ps| => Binding(ps[i].vname, ps[i].ty, Decode(ps[i].value, Some(ps[i].ty))))
  }

  ghost predicate TableConforms(table: seq<Binding>)
  {
    forall i :: 0 <= i < |table| ==> Conforms(table[i].value, Some(table[i].ty))
  }

  /** A table whose values conform to their types is encoded without an
      exception, and the parameters read back as the same table: names, types,
      values and their order all survive. */
  lemma DecodeParamsInvertsGetJSONParams(table: seq<Binding>)
    requires TableConforms(table)
    ensures GetJSONParams(table).Ok? && DecodeParams(GetJSONParams(table).value) == table
  {
    forall i | 0 <= i < |table| ensures GetJSONValue(table[i].value, Some(table[i].ty)).Ok? {
      DecodeInvertsEncode(table[i].value, Some(table[i].ty));
    }
    var ps := GetJSONParams(table).value;
    forall i | 0 <= i < |table| ensures DecodeParams(ps)[i] == table[i] {
      DecodeInvertsEncode(table[i].value, Some(table[i].ty));
    }
  }

  /** Two conforming tables build the same parameters only if they are the
      same table, so comparing built parameters compares the tables. */
  lemma GetJSONParamsIsInjective(t1: seq<Binding>, t2: seq<Binding>)
    requires TableConforms(t1) && TableConforms(t2)
    requires GetJSONParams(t1) == GetJSONParams(t2)
    ensures t1 == t2
  {
    DecodeParamsInvertsGetJSONParams(t1);
    DecodeParamsInvertsGetJSONParams(t2);
  }

  /** The parameters built for a contract's `_scilla_version` initial value. */
  lemma ScillaVersionExample()
    ensures GetJSONParams([Binding("_scilla_version", "Uint32", Num(0))]) ==
            Ok([Param("_scilla_version", "Uint32", Str("0"))])
  {
    assert StartsWith("Uint32", "Uint");
    assert GetJSONValue(Num(0), Some("Uint32")) == Ok(Str("0"));
    var table := [Binding("_scilla_version", "Uint32", Num(0))];
    var r := GetJSONParams(table);
    assert r.Ok?;
    assert r.value == [Param("_scilla_version", "Uint32", Str("0"))];
  }
}
