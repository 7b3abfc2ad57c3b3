/** JavaScript values as the test helpers receive and produce them, and the
    few built-in JavaScript operations the helpers apply to them: `toString`,
    `toLowerCase`, `startsWith`, truthiness and the relational `<`. */
module JsValues {

  datatype Option<+T> = None | Some(value: T)

  /** The outcome of evaluating a JavaScript expression: a value, or the
      TypeError the engine throws (a property read on `undefined`, a call of a
      method the value does not have). */
  datatype Result<+T> = Ok(value: T) | TypeError

  /** A JavaScript value as far as the helpers look at it. Numbers are
      integers; the only objects are arrays and ADT records
      `{constructor, argtypes, arguments}`. */
  datatype Value =
    | Undefined
    | Num(n: int)
    | Str(s: string)
    | Bool(b: bool)
    | Arr(elems: seq<Value>)
    | Adt(ctor: string, argtypes: seq<string>, arguments: seq<Value>)

  /** Collects a sequence of outcomes: every value when none threw. */
  function AllOk<T>(rs: seq<Result<T>>): (r: Result<seq<T>>)
    ensures r.TypeError? <==> exists i :: 0 <= i < |rs| && rs[i].TypeError?
    ensures r.Ok? ==> |r.value| == |rs| && forall i :: 0 <= i < |rs| ==> rs[i] == Ok(r.value[i])
  {
    if forall i :: 0 <= i < |rs| ==> rs[i].Ok? then
      Ok(seq(|rs|, i requires 0 <= i < |rs| => rs[i].value))
    else
      TypeError
  }

  // ---------------------------------------------------------------------
  // Decimal notation of integers
  // ---------------------------------------------------------------------

  predicate IsDigit(c: char) { '0' <= c <= '9' }

  predicate IsDigits(s: string) { forall i :: 0 <= i < |s| ==> IsDigit(s[i]) }

  function DigitChar(d: nat): (c: char)
    requires d < 10
    ensures IsDigit(c) && c as int - '0' as int == d
  {
    ('0' as int + d) as char
  }

  /** Decimal digits of a natural number, most significant first. */
  function NatToDecimal(n: nat): (s: string)
    ensures |s| >= 1 && IsDigits(s)
    ensures s[0] == '0' ==> n == 0
    decreases n
  {
    if n < 10 then [DigitChar(n)] else NatToDecimal(n / 10) + [DigitChar(n % 10)]
  }

  /** What `String(n)` gives for an integer-valued number. */
  function IntToDecimal(n: int): (s: string)
    ensures |s| >= 1
    ensures n < 0 <==> s[0] == '-'
    ensures var d := if n < 0 then s[1..] else s;
      |d| >= 1 && IsDigits(d) && (d[0] == '0' ==> n == 0)
  {
    if n < 0 then "-" + NatToDecimal(-n) else NatToDecimal(n)
  }

  function ParseNat(s: string): nat
    requires IsDigits(s)
    decreases |s|
  {
    if s == [] then 0 else ParseNat(s[..|s| - 1]) * 10 + (s[|s| - 1] as int - '0' as int)
  }

  /** A string of decimal digits with an optional leading minus sign, read as
      an integer; anything else is not a number (None). */
  function ParseInt(s: string): Option<int>
  {
    if |s| >= 2 && s[0] == '-' && IsDigits(s[1..]) then Some(0 - ParseNat(s[1..]) as int)
    else if |s| >= 1 && IsDigits(s) then Some(ParseNat(s))
    else None
  }

  lemma {:induction false} ParseNatInverts(n: nat)
    ensures ParseNat(NatToDecimal(n)) == n
    decreases n
  {
    if n >= 10 {
      var s := NatToDecimal(n / 10);
      ParseNatInverts(n / 10);
      assert (s + [DigitChar(n % 10)])[..|s|] == s;
    }
  }

  /** Reading back the decimal text of an integer gives the integer. */
  lemma ParseIntInverts(n: int)
    ensures ParseInt(IntToDecimal(n)) == Some(n)
  {
    var s := IntToDecimal(n);
    if n < 0 {
      var t := NatToDecimal(-n);
      ParseNatInverts(-n);
      assert s == "-" + t;
      assert s[1..] == t;
      assert |s| >= 2 && s[0] == '-' && IsDigits(s[1..]);
      assert ParseInt(s) == Some(0 - ParseNat(t) as int);
    } else {
      ParseNatInverts(n);
      assert s == NatToDecimal(n) && s[0] != '-';
      assert ParseInt(s) == Some(ParseNat(s));
    }
  }

  // ---------------------------------------------------------------------
  // String conversion
  // ---------------------------------------------------------------------

  /** `String(v)` for a value met as an array element by `join`: `undefined`
      contributes the empty string there. */
  function ElementText(v: Value): string
    decreases v, 1
  {
    match v
    case Undefined => ""
    case Num(n) => IntToDecimal(n)
    case Str(s) => s
    case Bool(b) => if b then "true" else "false"
    case Arr(xs) => Join(xs)
    case Adt(_, _, _) => "[object Object]"
  }

  /** `xs.join(",")`, which is also what `xs.toString()` returns. */
  function Join(xs: seq<Value>): string
    decreases xs, 0
  {
    if xs == [] then ""
    else if |xs| == 1 then ElementText(xs[0])
    else ElementText(xs[0]) + "," + Join(xs[1..])
  }

  /** `v.toString()`: throws exactly when `v` is `undefined`. */
  function CallToString(v: Value): (r: Result<string>)
    ensures r.TypeError? <==> v.Undefined?
    ensures v.Str? ==> r == Ok(v.s)
    ensures v.Num? ==> r.Ok? && ParseInt(r.value) == Some(v.n)
  {
    if v.Undefined? then TypeError
    else
      ParseIntInverts(if v.Num? then v.n else 0);
      Ok(ElementText(v))
  }

  /** JavaScript truthiness. */
  predicate Truthy(v: Value)
  {
    match v
    case Undefined => false
    case Num(n) => n != 0
    case Str(s) => s != ""
    case Bool(b) => b
    case Arr(_) => true
    case Adt(_, _, _) => true
  }

  /** The falsy values are exactly `undefined`, `0`, `""` and `false`; every
      array and every record is truthy. */
  lemma FalsyValues(v: Value)
    ensures !Truthy(v) <==> v == Undefined || v == Num(0) || v == Str("") || v == Bool(false)
  {
  }

  predicate StartsWith(s: string, prefix: string)
  {
    |prefix| <= |s| && s[..|prefix|] == prefix
  }

  /** A string does not start with `prefix` if they differ at some index. */
  lemma DiffersFrom(s: string, prefix: string, i: nat)
    requires i < |prefix| && (i >= |s| || s[i] != prefix[i])
    ensures !StartsWith(s, prefix)
  {
    if |prefix| <= |s| {
      assert s[..|prefix|][i] == s[i];
    }
  }

  // ---------------------------------------------------------------------
  // Lower case
  // ---------------------------------------------------------------------

  function LowerChar(c: char): char
  {
    if 'A' <= c <= 'Z' then (c as int + 32) as char else c
  }

  predicate IsLowerCase(s: string)
  {
    forall i :: 0 <= i < |s| ==> !('A' <= s[i] <= 'Z')
  }

  /** `s.toLowerCase()` on the ASCII letters. */
  function ToLowerCase(s: string): (r: string)
    ensures |r| == |s| && IsLowerCase(r)
    ensures forall i :: 0 <= i < |s| ==> (r[i] == s[i] || ('A' <= s[i] <= 'Z' && r[i] as int == s[i] as int + 32))
    ensures IsLowerCase(s) ==> r == s
  {
    seq(|s|, i requires 0 <= i < |s| => LowerChar(s[i]))
  }

  // ---------------------------------------------------------------------
  // The relational operator `<`
  // ---------------------------------------------------------------------

  /** Lexicographic order on strings, element by element. */
  predicate StrLess(a: string, b: string)
    decreases |a|
  {
    if a == [] then b != []
    else if b == [] then false
    else if a[0] != b[0] then a[0] < b[0]
    else StrLess(a[1..], b[1..])
  }

  /** `ToPrimitive`: arrays become their joined text, records "[object Object]". */
  function ToPrimitive(v: Value): Value
  {
    match v
    case Arr(xs) => Str(Join(xs))
    case Adt(_, _, _) => Str("[object Object]")
    case _ => v
  }

  /** `ToNumber` on a primitive; None stands for NaN. */
  function ToNumber(p: Value): Option<int>
  {
    match p
    case Num(n) => Some(n)
    case Bool(b) => Some(if b then 1 else 0)
    case Str(s) => if s == "" then Some(0) else ParseInt(s)
    case _ => None
  }

  /** `x < y`: two strings compare lexicographically, anything else numerically,
      and a comparison with NaN is false. */
  predicate JsLess(x: Value, y: Value)
  {
    var px, py := ToPrimitive(x), ToPrimitive(y);
    if px.Str? && py.Str? then StrLess(px.s, py.s)
    else
      var nx, ny := ToNumber(px), ToNumber(py);
      nx.Some? && ny.Some? && nx.value < ny.value
  }

  lemma {:induction false} StrLessIrreflexive(a: string)
    ensures !StrLess(a, a)
    decreases |a|
  {
    if a != [] { StrLessIrreflexive(a[1..]); }
  }

  lemma {:induction false} StrLessTransitive(a: string, b: string, c: string)
    requires StrLess(a, b) && StrLess(b, c)
    ensures StrLess(a, c)
    decreases |a|
  {
    if a != [] && a[0] == b[0] && b[0] == c[0] {
      StrLessTransitive(a[1..], b[1..], c[1..]);
    }
  }

  /** Two different strings are always ordered one way or the other. */
  lemma {:induction false} StrLessTotal(a: string, b: string)
    requires a != b
    ensures StrLess(a, b) || StrLess(b, a)
    decreases |a|
  {
    if a != [] && b != [] && a[0] == b[0] {
      assert a == [a[0]] + a[1..] && b == [b[0]] + b[1..];
      StrLessTotal(a[1..], b[1..]);
    }
  }

  /** `<` never holds of a value and itself. */
  lemma JsLessIrreflexive(x: Value)
    ensures !JsLess(x, x)
  {
    var p := ToPrimitive(x);
    if p.Str? { StrLessIrreflexive(p.s); }
  }

  /** `<` never holds both ways, so the sort comparator never claims that each
      of two records goes after the other. */
  lemma JsLessAsymmetric(x: Value, y: Value)
    requires JsLess(x, y)
    ensures !JsLess(y, x)
  {
    var px, py := ToPrimitive(x), ToPrimitive(y);
    if px.Str? && py.Str? && StrLess(py.s, px.s) {
      StrLessTransitive(px.s, py.s, px.s);
      StrLessIrreflexive(px.s);
    }
  }
}
