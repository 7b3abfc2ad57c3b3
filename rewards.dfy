/** `verifyCheckRewardsEvents` of tests/testutil.ts: `verifyEvents` for
    events whose parameter values are arrays of records in no fixed order.
    Before comparing, every parameter's value array, in the emitted event and
    in the expected parameters, is sorted in place with the comparator
    `(a, b) => a.arguments[0] < b.arguments[0] ? 1 : -1`, which puts records
    in descending order of their first argument. */
module Rewards {
  import opened JsValues
  import opened Params
  import opened Comparator

  // ---------------------------------------------------------------------
  // The sort
  // ---------------------------------------------------------------------

  /** `v.arguments[0]`, the sort key of a record. */
  function Key(v: Value): Value
  {
    if v.Adt? && |v.arguments| > 0 then v.arguments[0] else Undefined
  }

  /** The comparator `(a, b) => a.arguments[0] < b.arguments[0] ? 1 : -1`:
      a positive result places `a` after `b`. It never returns 0, not even
      for records with equal keys. */
  function Compare(a: Value, b: Value): (r: int)
    ensures r == 1 || r == -1
    ensures r == 1 <==> JsLess(Key(a), Key(b))
  {
    if JsLess(Key(a), Key(b)) then 1 else -1
  }

  /** The comparator never places each of two records after the other. */
  lemma CompareIsAntisymmetric(a: Value, b: Value)
    requires Compare(a, b) == 1
    ensures Compare(b, a) == -1
  {
    JsLessAsymmetric(Key(a), Key(b));
  }

  /** Inserts `x` before the first element it need not follow. */
  function Insert(x: Value, s: seq<Value>): (r: seq<Value>)
    ensures multiset(r) == multiset(s) + multiset{x}
  {
    if s == [] then [x]
    else if Compare(x, s[0]) < 0 then [x] + s
    else
      var rest := Insert(x, s[1..]);
      assert multiset(s) == multiset{s[0]} + multiset(s[1..]) by {
        assert s == [s[0]] + s[1..];
      }
      [s[0]] + rest
  }

  /** The order the sort leaves the array in (an insertion sort). */
  function SortDesc(xs: seq<Value>): (r: seq<Value>)
    ensures multiset(r) == multiset(xs)
  {
    if xs == [] then []
    else
      assert xs == [xs[0]] + xs[1..];
      Insert(xs[0], SortDesc(xs[1..]))
  }

  /** The `undefined` elements of `xs`. */
  function Undefs(xs: seq<Value>): (u: seq<Value>)
    ensures forall i :: 0 <= i < |u| ==> u[i] == Undefined
    ensures Undefined !in xs ==> u == []
  {
    if xs == [] then []
    else (if xs[0] == Undefined then [Undefined] else []) + Undefs(xs[1..])
  }

  /** The elements of `xs` other than `undefined`, in order. */
  function Defined(xs: seq<Value>): (d: seq<Value>)
    ensures Undefined !in d
    ensures Undefined !in xs ==> d == xs
  {
    if xs == [] then []
    else (if xs[0] == Undefined then [] else [xs[0]]) + Defined(xs[1..])
  }

  /** Splitting off the `undefined` elements loses none of the elements. */
  lemma {:induction false} SplitKeepsElements(xs: seq<Value>)
    ensures multiset(Defined(xs)) + multiset(Undefs(xs)) == multiset(xs)
  {
    if xs != [] {
      SplitKeepsElements(xs[1..]);
      assert xs == [xs[0]] + xs[1..];
    }
  }

  /** Whether `xs` holds an element that is neither `undefined` nor a record. */
  predicate HasNonRecord(xs: seq<Value>)
  {
    xs != [] && ((xs[0] != Undefined && !xs[0].Adt?) || HasNonRecord(xs[1..]))
  }

  lemma {:induction false} HasNonRecordExists(xs: seq<Value>)
    ensures HasNonRecord(xs) <==> exists i :: 0 <= i < |xs| && xs[i] != Undefined && !xs[i].Adt?
  {
    if xs != [] {
      HasNonRecordExists(xs[1..]);
      if exists i :: 0 <= i < |xs| && xs[i] != Undefined && !xs[i].Adt? {
        var i :| 0 <= i < |xs| && xs[i] != Undefined && !xs[i].Adt?;
        if i > 0 { assert xs[1..][i - 1] == xs[i]; }
      }
      if exists i :: 0 <= i < |xs[1..]| && xs[1..][i] != Undefined && !xs[1..][i].Adt? {
        var i :| 0 <= i < |xs[1..]| && xs[1..][i] != Undefined && !xs[1..][i].Adt?;
        assert xs[i + 1] == xs[1..][i];
      }
    }
  }

  /** `xs.sort(comparator)`: the sort moves `undefined` elements to the end
      without passing them to the comparator; with two or more other
      elements the comparator reads `arguments` of each of them, which
      throws for anything but a record. */
  function SortArray(xs: seq<Value>): (r: Result<seq<Value>>)
    ensures r.Ok? ==> multiset(r.value) == multiset(xs)
  {
    if |Defined(xs)| >= 2 && HasNonRecord(xs) then TypeError
    else
      SplitKeepsElements(xs);
      Ok(SortDesc(Defined(xs)) + Undefs(xs))
  }

  /** Whether `v.sort(comparator)` completes: `v` is an array, and it does
      not hold two elements other than `undefined` with a non-record among
      them. */
  predicate Sortable(v: Value)
  {
    v.Arr? && !(|Defined(v.elems)| >= 2 && HasNonRecord(v.elems))
  }

  /** `v.sort(comparator)`: a value that is not an array has no `sort`. */
  function SortValue(v: Value): (r: Result<Value>)
    ensures r.Ok? <==> Sortable(v)
    ensures r.Ok? ==> v.Arr? && r.value.Arr? && multiset(r.value.elems) == multiset(v.elems)
  {
    match v
    case Arr(xs) =>
      (match SortArray(xs)
       case Ok(ys) => Ok(Arr(ys))
       case TypeError => TypeError)
    case _ => TypeError
  }

  /** The sort throws exactly when the array has two or more elements other
      than `undefined` and one of those is not a record; otherwise the
      records come first, in the comparator's order, and the `undefined`
      elements last. */
  lemma SortThrowsOnNonRecords(xs: seq<Value>)
    ensures SortValue(Arr(xs)).TypeError? <==>
      |Defined(xs)| >= 2 && exists i :: 0 <= i < |xs| && xs[i] != Undefined && !xs[i].Adt?
    ensures SortValue(Arr(xs)).Ok? ==>
      SortValue(Arr(xs)) == Ok(Arr(SortDesc(Defined(xs)) + Undefs(xs)))
  {
    HasNonRecordExists(xs);
    var r := SortArray(xs);
    if r.Ok? {
      assert SortValue(Arr(xs)) == Ok(Arr(r.value));
    } else {
      assert SortValue(Arr(xs)) == TypeError;
    }
  }

  /** How a two-element array splits. */
  lemma SplitPair(a: Value, b: Value)
    ensures Defined([a, b]) == (if a == Undefined then [] else [a]) + (if b == Undefined then [] else [b])
    ensures Undefs([a, b]) == (if a == Undefined then [a] else []) + (if b == Undefined then [b] else [])
  {
    assert [a, b][1..] == [b] && [b][1..] == [];
  }

  /** An array whose only element other than `undefined` is `v` sorts without
      an exception, `v` first. */
  lemma LoneElementSorts(xs: seq<Value>, v: Value)
    requires Defined(xs) == [v]
    ensures SortValue(Arr(xs)) == Ok(Arr([v] + Undefs(xs)))
  {
    assert SortDesc([v]) == Insert(v, SortDesc([]));
    SortThrowsOnNonRecords(xs);
  }

  /** `undefined` never reaches the comparator: a record followed by
      `undefined` sorts without an exception and stays as it is. */
  lemma UndefinedAfterRecordStays(rec: Value)
    requires rec.Adt?
    ensures SortValue(Arr([rec, Undefined])) == Ok(Arr([rec, Undefined]))
  {
    var xs := [rec, Undefined];
    SplitPair(rec, Undefined);
    assert Defined(xs) == [rec] by {
      assert [rec] + [] == [rec];
    }
    assert Undefs(xs) == [Undefined] by {
      assert [] + [Undefined] == [Undefined];
    }
    LoneElementSorts(xs, rec);
    assert SortValue(Arr(xs)) == Ok(Arr([rec] + [Undefined]));
    assert [rec] + [Undefined] == [rec, Undefined];
  }

  /** An `undefined` before a record moves behind it. */
  lemma UndefinedMovesBehindRecord(rec: Value)
    requires rec.Adt?
    ensures SortValue(Arr([Undefined, rec])) == Ok(Arr([rec, Undefined]))
  {
    var xs := [Undefined, rec];
    SplitPair(Undefined, rec);
    assert Defined(xs) == [rec] by {
      assert [] + [rec] == [rec];
    }
    assert Undefs(xs) == [Undefined] by {
      assert [Undefined] + [] == [Undefined];
    }
    LoneElementSorts(xs, rec);
    assert SortValue(Arr(xs)) == Ok(Arr([rec] + [Undefined]));
    assert [rec] + [Undefined] == [rec, Undefined];
  }

  /** An array of nothing but `undefined` sorts without an exception. */
  lemma UndefinedsSortAlone()
    ensures SortValue(Arr([Undefined, Undefined])) == Ok(Arr([Undefined, Undefined]))
  {
    SplitPair(Undefined, Undefined);
    assert Defined([Undefined, Undefined]) == [];
    assert Undefs([Undefined, Undefined]) == [Undefined, Undefined] by {
      assert [Undefined] + [Undefined] == [Undefined, Undefined];
    }
    SortThrowsOnNonRecords([Undefined, Undefined]);
    assert SortDesc([]) + [Undefined, Undefined] == [Undefined, Undefined];
  }

  // ---------------------------------------------------------------------
  // Records keyed by strings
  // ---------------------------------------------------------------------

  /** A record whose first argument is a string, such as an address. */
  predicate HasStrKey(v: Value)
  {
    v.Adt? && |v.arguments| > 0 && v.arguments[0].Str?
  }

  function KeyText(v: Value): string
    requires HasStrKey(v)
  {
    v.arguments[0].s
  }

  predicate StrKeys(s: seq<Value>)
  {
    forall v :: v in s ==> HasStrKey(v)
  }

  /** No two different records of `s` have the same key. */
  predicate KeysIdentify(s: seq<Value>)
  {
    StrKeys(s) && forall v, w :: v in s && w in s && KeyText(v) == KeyText(w) ==> v == w
  }

  /** Every record's key is at least the key of every record after it. */
  predicate Descending(s: seq<Value>)
  {
    StrKeys(s) && forall i, j :: 0 <= i < j < |s| ==> !StrLess(KeyText(s[i]), KeyText(s[j]))
  }

  lemma NotLessTransitive(a: string, b: string, c: string)
    requires !StrLess(a, b) && !StrLess(b, c)
    ensures !StrLess(a, c)
  {
    if StrLess(a, c) {
      if a != b {
        StrLessTotal(a, b);
        StrLessTransitive(b, a, c);
      }
    }
  }

  lemma NotLessEitherWay(a: string, b: string)
    requires !StrLess(a, b) && !StrLess(b, a)
    ensures a == b
  {
    if a != b { StrLessTotal(a, b); }
  }

  /** On records keyed by strings the comparator compares the keys as text. */
  lemma CompareOnStrKeys(a: Value, b: Value)
    requires HasStrKey(a) && HasStrKey(b)
    ensures Compare(a, b) == 1 <==> StrLess(KeyText(a), KeyText(b))
  {
  }

  lemma {:induction false} InsertDescending(x: Value, s: seq<Value>)
    requires HasStrKey(x) && Descending(s)
    ensures Descending(Insert(x, s))
  {
    var r := Insert(x, s);
    assert StrKeys(r) by {
      forall v | v in r ensures HasStrKey(v) {
        assert v in multiset(r);
      }
    }
    if s != [] {
      CompareOnStrKeys(x, s[0]);
      if Compare(x, s[0]) < 0 {
        forall j | 0 <= j < |s| ensures !StrLess(KeyText(x), KeyText(s[j])) {
          if j > 0 { NotLessTransitive(KeyText(x), KeyText(s[0]), KeyText(s[j])); }
        }
        assert r == [x] + s;
      } else {
        InsertDescending(x, s[1..]);
        var t := Insert(x, s[1..]);
        assert r == [s[0]] + t;
        forall i | 0 <= i < |t| ensures !StrLess(KeyText(s[0]), KeyText(t[i])) {
          assert t[i] in multiset(t);
          if t[i] == x {
            if StrLess(KeyText(s[0]), KeyText(x)) {
              StrLessTransitive(KeyText(x), KeyText(s[0]), KeyText(x));
              StrLessIrreflexive(KeyText(x));
            }
          } else {
            assert t[i] in s[1..];
            var j :| 0 <= j < |s[1..]| && s[1..][j] == t[i];
            assert s[j + 1] == t[i];
          }
        }
      }
    }
  }

  /** Records keyed by strings come out of the sort in descending key order. */
  lemma {:induction false} SortIsDescending(xs: seq<Value>)
    requires StrKeys(xs)
    ensures Descending(SortDesc(xs))
  {
    if xs != [] {
      assert xs[0] in xs;
      SortIsDescending(xs[1..]);
      InsertDescending(xs[0], SortDesc(xs[1..]));
    }
  }

  /** The first records of two descending arrays holding the same records
      are the same record. */
  lemma HeadsAgree(a: seq<Value>, b: seq<Value>)
    requires Descending(a) && Descending(b) && KeysIdentify(a)
    requires multiset(a) == multiset(b) && a != []
    ensures b != [] && a[0] == b[0]
  {
    assert a[0] in multiset(b);
    assert b[0] in multiset(a);
    var j :| 0 <= j < |b| && b[j] == a[0];
    var i :| 0 <= i < |a| && a[i] == b[0];
    if i > 0 && j > 0 {
      NotLessEitherWay(KeyText(a[0]), KeyText(b[0]));
      assert a[0] in a && b[0] in a;
    }
  }

  lemma TailKeepsOrder(a: seq<Value>)
    requires Descending(a) && a != []
    ensures Descending(a[1..])
    ensures KeysIdentify(a) ==> KeysIdentify(a[1..])
  {
    assert forall v :: v in a[1..] ==> v in a;
    assert forall i :: 0 <= i < |a| - 1 ==> a[1..][i] == a[i + 1];
  }

  /** Two descending arrays holding the same records are the same array. */
  lemma {:induction false} DescendingIsUnique(a: seq<Value>, b: seq<Value>)
    requires Descending(a) && Descending(b) && KeysIdentify(a)
    requires multiset(a) == multiset(b)
    ensures a == b
    decreases |a|
  {
    if a == [] {
      assert |multiset(b)| == 0;
    } else {
      HeadsAgree(a, b);
      assert a == [a[0]] + a[1..] && b == [b[0]] + b[1..];
      assert multiset(a[1..]) == multiset(a) - multiset{a[0]};
      assert multiset(b[1..]) == multiset(b) - multiset{b[0]};
      TailKeepsOrder(a);
      TailKeepsOrder(b);
      DescendingIsUnique(a[1..], b[1..]);
    }
  }

  /** The sort forgets the order it was given: two arrays holding the same
      records, no two of them sharing a string key, sort to the same array.
      This is what lets the rewards check compare arrays whose order the
      contract does not fix. */
  lemma SortIgnoresOrder(xs: seq<Value>, ys: seq<Value>)
    requires KeysIdentify(xs) && multiset(xs) == multiset(ys)
    ensures SortDesc(xs) == SortDesc(ys)
  {
    assert forall v :: v in ys <==> v in xs by {
      forall v ensures v in ys <==> v in xs {
        assert v in ys <==> v in multiset(ys);
      }
    }
    SortIsDescending(xs);
    SortIsDescending(ys);
    var a, b := SortDesc(xs), SortDesc(ys);
    assert forall v :: v in a ==> v in xs by {
      forall v | v in a ensures v in xs {
        assert v in multiset(a);
      }
    }
    DescendingIsUnique(a, b);
  }

  /** A descending array is already in the order the sort leaves it. */
  lemma {:induction false} DescendingIsFixed(ys: seq<Value>)
    requires Descending(ys)
    ensures SortDesc(ys) == ys
  {
    if ys != [] {
      var t := ys[1..];
      TailKeepsOrder(ys);
      DescendingIsFixed(t);
      assert SortDesc(ys) == Insert(ys[0], t) by {
        assert SortDesc(ys) == Insert(ys[0], SortDesc(t));
      }
      if t == [] {
        assert ys == [ys[0]];
      } else {
        assert t[0] == ys[1];
        assert !StrLess(KeyText(ys[0]), KeyText(ys[1]));
        assert ys[0] in ys && ys[1] in ys;
        CompareOnStrKeys(ys[0], t[0]);
        assert Insert(ys[0], t) == [ys[0]] + t;
        assert ys == [ys[0]] + t;
      }
    }
  }

  /** Sorting string-keyed records a second time changes nothing. */
  lemma SortIsIdempotent(xs: seq<Value>)
    requires StrKeys(xs)
    ensures SortDesc(SortDesc(xs)) == SortDesc(xs)
  {
    SortIsDescending(xs);
    DescendingIsFixed(SortDesc(xs));
  }

  // ---------------------------------------------------------------------
  // Sorting every parameter's value
  // ---------------------------------------------------------------------

  /** How many parameters, from the first, have a value that sorts without
      an exception. */
  function SortedPrefix(ps: seq<Param>): (n: nat)
    ensures n <= |ps|
    ensures forall j :: 0 <= j < n ==> Sortable(ps[j].value)
    ensures n < |ps| ==> !Sortable(ps[n].value)
  {
    if ps == [] || !Sortable(ps[0].value) then 0
    else
      var n := SortedPrefix(ps[1..]);
      assert forall j :: 0 < j <= n ==> ps[1..][j - 1] == ps[j];
      assert n < |ps| - 1 ==> ps[1..][n] == ps[n + 1];
      1 + n
  }

  /** `params.map((e) => { e.value.sort(comparator) })`: each parameter's value
      is sorted in turn; at the first one that throws the pass stops, leaving
      that parameter and the ones after it as they were. The flag tells
      whether the pass completed. */
  function SortParams(ps: seq<Param>): (r: (seq<Param>, bool))
    ensures |r.0| == |ps|
    ensures r.1 <==> SortedPrefix(ps) == |ps|
    ensures forall i :: 0 <= i < |ps| ==>
      r.0[i] == if i < SortedPrefix(ps) then ps[i].(value := SortValue(ps[i].value).value) else ps[i]
  {
    if ps == [] then ([], true)
    else
      match SortValue(ps[0].value)
      case TypeError => (ps, false)
      case Ok(v) =>
        var rest := SortParams(ps[1..]);
        ([ps[0].(value := v)] + rest.0, rest.1)
  }

  /** A list that agrees with the pass at every position is its result. */
  lemma AgreesWithPass(ps: seq<Param>, qs: seq<Param>)
    requires |qs| == |ps|
    requires forall j :: 0 <= j < SortedPrefix(ps) ==> qs[j] == ps[j].(value := SortValue(ps[j].value).value)
    requires forall j :: SortedPrefix(ps) <= j < |ps| ==> qs[j] == ps[j]
    ensures qs == SortParams(ps).0
  {
    var r := SortParams(ps).0;
    forall j | 0 <= j < |ps| ensures qs[j] == r[j] {
    }
  }

  /** The pass over one parameter list, as the loop it is. */
  method SortParamValues(ps: seq<Param>) returns (qs: seq<Param>, ok: bool)
    ensures (qs, ok) == SortParams(ps)
  {
    qs := ps;
    var i := 0;
    while i < |ps|
      invariant 0 <= i <= SortedPrefix(ps) && |qs| == |ps|
      invariant forall j :: 0 <= j < i ==> qs[j] == ps[j].(value := SortValue(ps[j].value).value)
      invariant forall j :: i <= j < |ps| ==> qs[j] == ps[j]
    {
      assert qs[i] == ps[i];
      var sorted := SortValue(qs[i].value);
      if sorted.TypeError? {
        assert SortedPrefix(ps) == i;
        AgreesWithPass(ps, qs);
        return qs, false;
      }
      qs := qs[i := qs[i].(value := sorted.value)];
      i := i + 1;
    }
    AgreesWithPass(ps, qs);
    return qs, true;
  }

  /** The pass only reorders: every parameter keeps its name and type, and
      its value is either untouched or an array holding the same elements. */
  lemma SortParamsOnlyReorders(ps: seq<Param>)
    ensures var qs := SortParams(ps).0;
      |qs| == |ps| &&
      forall i :: 0 <= i < |ps| ==>
        qs[i].vname == ps[i].vname && qs[i].ty == ps[i].ty &&
        (qs[i].value == ps[i].value ||
         (qs[i].value.Arr? && ps[i].value.Arr? && multiset(qs[i].value.elems) == multiset(ps[i].value.elems)))
  {
  }

  // ---------------------------------------------------------------------
  // verifyCheckRewardsEvents
  // ---------------------------------------------------------------------

  /** The body of the rewards loop for one event: its verdict, and the event
      as the in-place sort leaves it. An event with no expectation passes
      untouched, and one with a different name fails untouched. */
  function RewardsCheck(e: Event, w: Result<Option<EventWant>>): (r: (Verdict, Event))
    ensures w == Ok(None) ==> r == (Pass, e)
    ensures w.Ok? && w.value.Some? && e.eventname != w.value.value.name ==> r == (Fail, e)
    ensures r.0 == Pass ==> w.Ok?
    ensures r.1.eventname == e.eventname && |r.1.params| == |e.params|
  {
    match w
    case TypeError => (Threw, e)
    case Ok(None) => (Pass, e)
    case Ok(Some(x)) =>
      if e.eventname != x.name then (Fail, e)
      else
        match GetJSONParams(x.params)
        case TypeError => (Threw, e)
        case Ok(wps) =>
          var actual := SortParams(e.params);
          var sorted := e.(params := actual.0);
          if !actual.1 then (Threw, sorted)
          else
            var wanted := SortParams(wps);
            if !wanted.1 then (Threw, sorted)
            else if actual.0 == wanted.0 then (Pass, sorted)
            else (Fail, sorted)
  }

  /** When the check throws and when it passes: it throws exactly when
      `want` is undefined, or the name matches and the expected table's
      encoding, the event's sort pass or the expected sort pass (in that
      order) throws; it passes exactly when there is no expectation, or the
      name matches and both sort passes complete with equal results. */
  lemma RewardsCheckVerdict(e: Event, w: Result<Option<EventWant>>)
    ensures RewardsCheck(e, w).0 == Threw <==>
      (w.TypeError? ||
       (w.value.Some? && e.eventname == w.value.value.name &&
        (GetJSONParams(w.value.value.params).TypeError? ||
         !SortParams(e.params).1 ||
         !SortParams(GetJSONParams(w.value.value.params).value).1)))
    ensures RewardsCheck(e, w).0 == Pass <==>
      (w == Ok(None) ||
       (w.Ok? && w.value.Some? && e.eventname == w.value.value.name &&
        GetJSONParams(w.value.value.params).Ok? &&
        SortParams(e.params).1 &&
        SortParams(GetJSONParams(w.value.value.params).value).1 &&
        SortParams(e.params).0 == SortParams(GetJSONParams(w.value.value.params).value).0))
  {
  }

  /** The check changes an event only by reordering the arrays its
      parameters hold: names, types and every other value stay. */
  lemma RewardsCheckOnlyReorders(e: Event, w: Result<Option<EventWant>>)
    ensures var after := RewardsCheck(e, w).1;
      forall i :: 0 <= i < |e.params| ==>
        after.params[i].vname == e.params[i].vname && after.params[i].ty == e.params[i].ty &&
        (after.params[i].value == e.params[i].value ||
         (after.params[i].value.Arr? && e.params[i].value.Arr? &&
          multiset(after.params[i].value.elems) == multiset(e.params[i].value.elems)))
  {
    var after := RewardsCheck(e, w).1;
    if after != e {
      SortParamsOnlyReorders(e.params);
      assert after.params == SortParams(e.params).0;
    }
  }

  function RewardsVerdicts(evs: seq<Event>, want: Option<seq<Option<EventWant>>>): (vs: seq<Verdict>)
    ensures |vs| == |evs|
  {
    seq(|evs|, i requires 0 <= i < |evs| => RewardsCheck(evs[i], WantAt(want, i)).0)
  }

  /** The events after the loop: those it reached are left as their check
      left them, the rest are untouched. */
  function RewardsAfter(evs: seq<Event>, want: Option<seq<Option<EventWant>>>): (after: seq<Event>)
    ensures |after| == |evs|
  {
    var vs := RewardsVerdicts(evs, want);
    seq(|evs|, k requires 0 <= k < |evs| =>
      if forall j :: 0 <= j < k ==> vs[j] == Pass then RewardsCheck(evs[k], WantAt(want, k)).1 else evs[k])
  }

  /** The events as the loop leaves them when it stops at `index`: those
      before it as their checks left them, the rest untouched. */
  lemma AfterStop(evs: seq<Event>, want: Option<seq<Option<EventWant>>>, index: nat, cur: seq<Event>)
    requires index < |evs| == |cur|
    requires forall j :: 0 <= j < index ==> RewardsVerdicts(evs, want)[j] == Pass
    requires RewardsVerdicts(evs, want)[index] != Pass
    requires forall j :: 0 <= j <= index ==> cur[j] == RewardsCheck(evs[j], WantAt(want, j)).1
    requires forall j :: index < j < |evs| ==> cur[j] == evs[j]
    ensures cur == RewardsAfter(evs, want)
  {
    var vs, after := RewardsVerdicts(evs, want), RewardsAfter(evs, want);
    forall k | 0 <= k < |evs| ensures cur[k] == after[k] {
      if k > index {
        assert !(forall j :: 0 <= j < k ==> vs[j] == Pass) by {
          assert vs[index] != Pass;
        }
      }
    }
  }

  /** The events as the loop leaves them when every check passes. */
  lemma AfterComplete(evs: seq<Event>, want: Option<seq<Option<EventWant>>>, cur: seq<Event>)
    requires |cur| == |evs|
    requires forall j :: 0 <= j < |evs| ==> RewardsVerdicts(evs, want)[j] == Pass
    requires forall j :: 0 <= j < |evs| ==> cur[j] == RewardsCheck(evs[j], WantAt(want, j)).1
    ensures cur == RewardsAfter(evs, want)
  {
  }

  /** The loop body for one event: it is skipped when nothing is expected,
      fails on a different name, and otherwise has its parameters sorted in
      place before they are compared with the sorted expected ones. */
  method CheckRewardsEvent(event: Event, w: Result<Option<EventWant>>) returns (v: Verdict, updated: Event)
    ensures (v, updated) == RewardsCheck(event, w)
  {
    if w.TypeError? {
      return Threw, event;
    }
    if w.value.None? {
      return Pass, event;
    }
    var x := w.value.value;
    if event.eventname != x.name {
      return Fail, event;
    }
    var wantParams := GetJSONParams(x.params);
    if wantParams.TypeError? {
      return Threw, event;
    }
    var sorted, ok := SortParamValues(event.params);
    updated := event.(params := sorted);
    if !ok {
      return Threw, updated;
    }
    var wantSorted, wantOk := SortParamValues(wantParams.value);
    if !wantOk {
      return Threw, updated;
    }
    v := if sorted == wantSorted then Pass else Fail;
  }

  /** `verifyCheckRewardsEvents(events, want)`: with no events (`undefined`,
      a null array here) it tells whether nothing was expected either;
      otherwise the events are checked in order, each expected one sorted in
      place, and the first that does not pass decides. */
  method VerifyCheckRewardsEvents(events: array?<Event>, want: Option<seq<Option<EventWant>>>)
    returns (r: Result<bool>)
    modifies events
    ensures events == null ==> r == Ok(want.None?)
    ensures events != null ==> r == Outcome(RewardsVerdicts(old(events[..]), want))
    ensures events != null ==> events[..] == RewardsAfter(old(events[..]), want)
  {
    if events == null {
      return Ok(want.None?);
    }
    ghost var evs := events[..];
    ghost var vs := RewardsVerdicts(evs, want);
    for index := 0 to events.Length
      invariant Outcome(vs) == Outcome(vs[index..])
      invariant forall j :: 0 <= j < index ==> vs[j] == Pass
      invariant forall j :: 0 <= j < index ==> events[j] == RewardsCheck(evs[j], WantAt(want, j)).1
      invariant forall j :: index <= j < events.Length ==> events[j] == evs[j]
    {
      assert vs[index..] == [vs[index]] + vs[index + 1..];
      assert events[index] == evs[index];
      var v, updated := CheckRewardsEvent(events[index], WantAt(want, index));
      events[index] := updated;
      forall j | 0 <= j <= index
        ensures events[j] == RewardsCheck(evs[j], WantAt(want, j)).1
      {
      }
      if v != Pass {
        AfterStop(evs, want, index, events[..]);
        return if v == Fail then Ok(false) else TypeError;
      }
    }
    AfterComplete(evs, want, events[..]);
    return Ok(true);
  }

  /** An index with no expectation is skipped and its event left as it was. */
  lemma UnexpectedEventUntouched(e: Event, want: seq<Option<EventWant>>, i: nat)
    requires i >= |want| || want[i].None?
    ensures RewardsCheck(e, WantAt(Some(want), i)) == (Pass, e)
  {
  }

  /** Every parameter of an expected event must hold an array: the first one
      that does not makes the check throw. */
  lemma NonArrayParameterThrows(e: Event, x: EventWant, i: nat)
    requires e.eventname == x.name && GetJSONParams(x.params).Ok?
    requires i < |e.params| && !e.params[i].value.Arr?
    ensures RewardsCheck(e, Ok(Some(x))).0 == Threw
  {
  }

  /** An array of records keyed by strings sorts without an exception. */
  lemma RecordsSort(xs: seq<Value>)
    requires StrKeys(xs)
    ensures SortValue(Arr(xs)) == Ok(Arr(SortDesc(xs)))
  {
    forall i | 0 <= i < |xs| ensures xs[i].Adt? {
      assert xs[i] in xs;
    }
    HasNonRecordExists(xs);
    assert Undefined !in xs;
    assert SortArray(xs) == Ok(SortDesc(xs) + []);
    assert SortDesc(xs) + [] == SortDesc(xs);
  }

  lemma SameRecordsSortAlike(xs: seq<Value>, ys: seq<Value>)
    requires KeysIdentify(xs) && multiset(ys) == multiset(xs)
    ensures SortValue(Arr(xs)) == Ok(Arr(SortDesc(xs)))
    ensures SortValue(Arr(ys)) == Ok(Arr(SortDesc(xs)))
  {
    assert StrKeys(ys) by {
      forall v | v in ys ensures HasStrKey(v) {
        assert v in multiset(xs);
      }
    }
    RecordsSort(xs);
    RecordsSort(ys);
    SortIgnoresOrder(xs, ys);
  }

  /** An emitted parameter `p` against the expected `q`: same name and type,
      and an array value holding the records of `q`'s array in some order,
      no two different records of which share a string key. */
  predicate SameUpToOrder(p: Param, q: Param)
  {
    p.vname == q.vname && p.ty == q.ty && p.value.Arr? && q.value.Arr? &&
    KeysIdentify(q.value.elems) && multiset(p.value.elems) == multiset(q.value.elems)
  }

  lemma SortParamsAgree(ps: seq<Param>, qs: seq<Param>)
    requires |ps| == |qs|
    requires forall i :: 0 <= i < |ps| ==> SameUpToOrder(ps[i], qs[i])
    ensures SortParams(ps).1 && SortParams(qs).1
    ensures SortParams(ps).0 == SortParams(qs).0
  {
    forall i | 0 <= i < |ps|
      ensures SortValue(ps[i].value).Ok? && SortValue(ps[i].value) == SortValue(qs[i].value)
    {
      SameRecordsSortAlike(qs[i].value.elems, ps[i].value.elems);
    }
    assert SortedPrefix(ps) == |ps| && SortedPrefix(qs) == |qs|;
    var a, b := SortParams(ps).0, SortParams(qs).0;
    assert forall i :: 0 <= i < |ps| ==> a[i] == b[i];
  }

  /** The check passes an event whose parameters are the expected ones with
      each value array in any order, provided no two different records in an
      array share a string key. */
  lemma RewardsCheckIgnoresOrder(e: Event, x: EventWant, wps: seq<Param>)
    requires e.eventname == x.name && GetJSONParams(x.params) == Ok(wps)
    requires |e.params| == |wps|
    requires forall i :: 0 <= i < |wps| ==> SameUpToOrder(e.params[i], wps[i])
    ensures RewardsCheck(e, Ok(Some(x))).0 == Pass
  {
    SortParamsAgree(e.params, wps);
  }

  /** The converse: an event passes only if it has the expected name and each
      of its parameters has the expected name and type and holds, in some
      order, the records of the expected array. */
  lemma RewardsPassMeansSameRecords(e: Event, x: EventWant)
    requires RewardsCheck(e, Ok(Some(x))).0 == Pass
    ensures e.eventname == x.name && GetJSONParams(x.params).Ok?
    ensures var wps := GetJSONParams(x.params).value;
      |e.params| == |wps| &&
      forall i :: 0 <= i < |wps| ==>
        e.params[i].vname == wps[i].vname && e.params[i].ty == wps[i].ty &&
        e.params[i].value.Arr? && wps[i].value.Arr? &&
        multiset(e.params[i].value.elems) == multiset(wps[i].value.elems)
  {
    var wps := GetJSONParams(x.params).value;
    var a, b := SortParams(e.params).0, SortParams(wps).0;
    assert a == b;
    forall i | 0 <= i < |wps|
      ensures e.params[i].value.Arr? && wps[i].value.Arr?
      ensures multiset(e.params[i].value.elems) == multiset(wps[i].value.elems)
    {
      assert a[i] == e.params[i].(value := SortValue(e.params[i].value).value);
      assert b[i] == wps[i].(value := SortValue(wps[i].value).value);
    }
  }

  /** Expectations past the last event are never checked, and leave the
      events as they would be without them. */
  lemma RewardsExtraExpectationsIgnored(evs: seq<Event>, want: seq<Option<EventWant>>, extra: seq<Option<EventWant>>)
    requires |evs| <= |want|
    ensures RewardsVerdicts(evs, Some(want + extra)) == RewardsVerdicts(evs, Some(want))
    ensures RewardsAfter(evs, Some(want + extra)) == RewardsAfter(evs, Some(want))
  {
    assert forall i :: 0 <= i < |evs| ==> WantAt(Some(want + extra), i) == WantAt(Some(want), i);
  }
}
