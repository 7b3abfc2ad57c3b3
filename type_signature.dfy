/** The type-signature splitter `extractTypes` of tests/testutil.ts: it reads a
    Scilla type such as `Pair (ByStr20) (Uint128)` character by character,
    keeps a parenthesis counter, and returns the text of every top-level
    parenthesised group, left to right. */
module TypeSignature {

  /** The loop's variables after some prefix of the input has been read:
      the nesting counter, the index where the open group's text starts
      (-1 when no group is open) and the groups found so far. */
  datatype ScanState = ScanState(count: int, start: int, groups: seq<string>)

  /** Number of occurrences of `c` among the first `n` characters of `t`. */
  function Occurrences(t: string, n: nat, c: char): nat
    requires n <= |t|
  {
    if n == 0 then 0 else Occurrences(t, n - 1, c) + (if t[n - 1] == c then 1 else 0)
  }

  /** The loop of `extractTypes` after reading `t[..n]`. */
  function Scan(t: string, n: nat): (st: ScanState)
    requires n <= |t|
    ensures st.start == -1 <==> st.count < 1
    ensures st.start != -1 ==> 1 <= st.start <= n
    ensures forall k :: 0 <= k < |st.groups| ==> |st.groups[k]| < n
    ensures |st.groups| + (if st.count >= 1 then 1 else 0) <= Occurrences(t, n, '(')
    decreases n
  {
    if n == 0 then ScanState(0, -1, [])
    else
      var st := Scan(t, n - 1);
      var i := n - 1;
      if t[i] == '(' then
        var count := st.count + 1;
        ScanState(count, if count == 1 && st.start == -1 then i + 1 else st.start, st.groups)
      else if t[i] == ')' then
        var count := st.count - 1;
        if count == 0 then ScanState(count, -1, st.groups + [t[st.start..i]])
        else ScanState(count, st.start, st.groups)
      else st
  }

  /** What `extractTypes(t)` returns. Every group is shorter than the
      signature it came from, and there are no more groups than `(`. */
  function TopLevelGroups(t: string): (groups: seq<string>)
    ensures forall k :: 0 <= k < |groups| ==> |groups[k]| < |t|
    ensures |groups| <= Occurrences(t, |t|, '(')
  {
    Scan(t, |t|).groups
  }

  /** `extractTypes` as the source writes it: a counter-driven loop. */
  method ExtractTypes(t: string) returns (result: seq<string>)
    ensures result == TopLevelGroups(t)
  {
    var count := 0;
    var startIndex := -1;
    result := [];
    for i := 0 to |t|
      invariant Scan(t, i) == ScanState(count, startIndex, result)
    {
      var c := t[i];
      if c == '(' {
        count := count + 1;
        if count == 1 && startIndex == -1 {
          startIndex := i + 1;
        }
      } else if c == ')' {
        count := count - 1;
        if count == 0 {
          result := result + [t[startIndex..i]];
          startIndex := -1;
        }
      }
    }
  }

  // ---------------------------------------------------------------------
  // A declarative account of the groups, by nesting depth
  // ---------------------------------------------------------------------

  /** Nesting depth after `t[..n]`: opening minus closing parentheses. */
  ghost function Depth(t: string, n: nat): int
    requires n <= |t|
  {
    if n == 0 then 0
    else Depth(t, n - 1) + (if t[n - 1] == '(' then 1 else if t[n - 1] == ')' then -1 else 0)
  }

  /** `t[a..b]` is a top-level group: it follows a `(` met at depth 0, is
      closed by the `)` at `b` that brings the depth back to 0, and the depth
      stays positive in between. */
  ghost predicate IsTopGroup(t: string, a: int, b: int)
  {
    1 <= a <= b < |t| &&
    t[a - 1] == '(' && Depth(t, a - 1) == 0 &&
    t[b] == ')' && Depth(t, b + 1) == 0 &&
    forall m :: a <= m <= b ==> Depth(t, m) >= 1
  }

  /** Where the text of the group that is open at depth `Depth(t, j)` starts:
      just after the last `(` met at depth 0. */
  ghost function OpenOf(t: string, j: nat): (a: nat)
    requires j <= |t| && Depth(t, j) >= 1
    ensures 1 <= a <= j && t[a - 1] == '(' && Depth(t, a - 1) == 0
    ensures forall m :: a <= m <= j ==> Depth(t, m) >= 1
    decreases j
  {
    if Depth(t, j - 1) == 0 then j else OpenOf(t, j - 1)
  }

  /** The spans `(a, b)` of the top-level groups closed within `t[..n]`, in
      the order their closing parentheses occur. */
  ghost function TopSpans(t: string, n: nat): (spans: seq<(int, int)>)
    requires n <= |t|
    ensures forall k :: 0 <= k < |spans| ==> IsTopGroup(t, spans[k].0, spans[k].1) && spans[k].1 < n
    ensures forall k :: 0 <= k < |spans| - 1 ==> spans[k].1 < spans[k + 1].0
    decreases n
  {
    if n == 0 then []
    else if t[n - 1] == ')' && Depth(t, n - 1) == 1 then
      var before := TopSpans(t, n - 1);
      var a := OpenOf(t, n - 1);
      assert |before| > 0 ==> before[|before| - 1].1 < a by {
        if |before| > 0 {
          var b' := before[|before| - 1].1;
          assert Depth(t, b' + 1) == 0;
        }
      }
      before + [(a, n - 1)]
    else TopSpans(t, n - 1)
  }

  /** The loop's counter is the nesting depth, its start index is where the
      open group begins, and the groups it collected are the texts of the
      top-level spans. */
  lemma {:induction false} ScanFollowsDepth(t: string, n: nat)
    requires n <= |t|
    ensures Scan(t, n).count == Depth(t, n)
    ensures Scan(t, n).start != -1 ==> Depth(t, n) >= 1 && Scan(t, n).start == OpenOf(t, n)
    ensures |Scan(t, n).groups| == |TopSpans(t, n)|
    ensures forall k :: 0 <= k < |TopSpans(t, n)| ==>
              Scan(t, n).groups[k] == t[TopSpans(t, n)[k].0..TopSpans(t, n)[k].1]
    decreases n
  {
    if n > 0 {
      ScanFollowsDepth(t, n - 1);
      var i := n - 1;
      if t[i] == ')' && Depth(t, i) == 1 {
        assert TopSpans(t, n) == TopSpans(t, i) + [(OpenOf(t, i), i)];
      } else {
        assert TopSpans(t, n) == TopSpans(t, i);
        if t[i] != '(' && Depth(t, n) >= 1 {
          assert OpenOf(t, n) == OpenOf(t, i);
        }
      }
    }
  }

  /** Two groups closed by the same parenthesis start at the same place. */
  lemma OpenOfUnique(t: string, a: int, b: int)
    requires IsTopGroup(t, a, b)
    ensures Depth(t, b) >= 1 && OpenOf(t, b) == a
  {
    var o := OpenOf(t, b);
  }

  /** Every top-level group closed within `t[..n]` has its span listed. */
  lemma {:induction false} TopGroupListed(t: string, n: nat, a: int, b: int)
    requires n <= |t| && IsTopGroup(t, a, b) && b < n
    ensures (a, b) in TopSpans(t, n)
    decreases n
  {
    if b == n - 1 {
      OpenOfUnique(t, a, b);
      assert TopSpans(t, n) == TopSpans(t, n - 1) + [(a, b)];
    } else {
      TopGroupListed(t, n - 1, a, b);
    }
  }

  /** `extractTypes` returns exactly one element per top-level group, in
      left-to-right order, each the verbatim text between the group's
      parentheses (nested parentheses included). */
  lemma GroupsAreTopLevelGroups(t: string)
    ensures var groups, spans := TopLevelGroups(t), TopSpans(t, |t|);
      |groups| == |spans| &&
      (forall k :: 0 <= k < |spans| ==> IsTopGroup(t, spans[k].0, spans[k].1) && groups[k] == t[spans[k].0..spans[k].1]) &&
      (forall k :: 0 <= k < |spans| - 1 ==> spans[k].1 < spans[k + 1].0) &&
      (forall a, b :: IsTopGroup(t, a, b) ==> (a, b) in spans)
  {
    ScanFollowsDepth(t, |t|);
    forall a, b | IsTopGroup(t, a, b) ensures (a, b) in TopSpans(t, |t|) {
      TopGroupListed(t, |t|, a, b);
    }
  }

  /** A signature without `(` has no groups. */
  lemma NoParenthesisNoGroups(t: string)
    requires forall i :: 0 <= i < |t| ==> t[i] != '('
    ensures TopLevelGroups(t) == []
  {
    assert Occurrences(t, |t|, '(') == 0 by { NoOccurrences(t, |t|, '('); }
  }

  lemma {:induction false} NoOccurrences(t: string, n: nat, c: char)
    requires n <= |t| && forall i :: 0 <= i < n ==> t[i] != c
    ensures Occurrences(t, n, c) == 0
    decreases n
  {
    if n > 0 { NoOccurrences(t, n - 1, c); }
  }

  /** Characters other than parentheses leave the loop's variables alone. */
  lemma {:induction false} ScanSkipsPlainText(t: string, m: nat, n: nat)
    requires m <= n <= |t|
    requires forall i :: m <= i < n ==> t[i] != '(' && t[i] != ')'
    ensures Scan(t, n) == Scan(t, m)
    decreases n
  {
    if m < n { ScanSkipsPlainText(t, m, n - 1); }
  }

  /** A group without nested parentheses, read at depth 0, is collected. */
  lemma ScanFlatGroup(t: string, m: nat, b: nat)
    requires m < b < |t| && t[m] == '(' && t[b] == ')'
    requires Scan(t, m).count == 0
    requires forall i :: m < i < b ==> t[i] != '(' && t[i] != ')'
    ensures Scan(t, b + 1) == ScanState(0, -1, Scan(t, m).groups + [t[m + 1..b]])
  {
    ScanSkipsPlainText(t, m + 1, b);
  }

  /** Text with no parentheses at all, such as a scalar type name. */
  predicate Plain(s: string)
  {
    forall i :: 0 <= i < |s| ==> s[i] != '(' && s[i] != ')'
  }

  /** Parentheses that match up: the depth never drops below 0 and ends at 0. */
  ghost predicate Balanced(x: string)
  {
    Depth(x, |x|) == 0 && forall k :: 0 <= k <= |x| ==> Depth(x, k) >= 0
  }

  /** Text without parentheses is balanced: its depth stays 0. */
  lemma PlainIsBalanced(x: string)
    requires Plain(x)
    ensures Balanced(x)
  {
    forall k | 0 <= k <= |x| ensures Depth(x, k) == 0 {
      PlainDepth(x, k);
    }
  }

  lemma {:induction false} PlainDepth(x: string, k: nat)
    requires Plain(x) && k <= |x|
    ensures Depth(x, k) == 0
    decreases k
  {
    if k > 0 { PlainDepth(x, k - 1); }
  }

  /** A pair of scalar types gives its two component types, as
      `Pair (ByStr20) (Uint128)` gives `ByStr20` and `Uint128`. */
  lemma PairOfScalars(a: string, b: string)
    requires Plain(a) && Plain(b)
    ensures TopLevelGroups("Pair (" + a + ") (" + b + ")") == [a, b]
  {
    var t := "Pair (" + a + ") (" + b + ")";
    var c1 := 6 + |a|;
    var o2 := c1 + 2;
    var c2 := o2 + 1 + |b|;
    ScanSkipsPlainText(t, 0, 5);
    ScanFlatGroup(t, 5, c1);
    assert t[6..c1] == a;
    ScanSkipsPlainText(t, c1 + 1, o2);
    ScanFlatGroup(t, o2, c2);
    assert t[o2 + 1..c2] == b;
  }

  /** Reading balanced text inside an open group only moves the counter. */
  lemma {:induction false} ScanThroughBalanced(t: string, m: nat, x: string, k: nat)
    requires k <= |x| && m + |x| <= |t| && t[m..m + |x|] == x
    requires Scan(t, m).count == 1
    requires forall j :: 0 <= j <= |x| ==> Depth(x, j) >= 0
    ensures Scan(t, m + k) == Scan(t, m).(count := 1 + Depth(x, k))
    decreases k
  {
    if k > 0 {
      ScanThroughBalanced(t, m, x, k - 1);
      assert t[m + k - 1] == x[k - 1];
    }
  }

  /** A constructor applied to one balanced argument gives that argument back
      verbatim, nested parentheses included, as `List (Pair (ByStr20) (Uint128))`
      gives `Pair (ByStr20) (Uint128)`. */
  lemma OneArgument(name: string, x: string)
    requires Plain(name) && Balanced(x)
    ensures TopLevelGroups(name + " (" + x + ")") == [x]
  {
    var t := name + " (" + x + ")";
    var o := |name| + 1;
    ScanSkipsPlainText(t, 0, o);
    assert Scan(t, o + 1) == ScanState(1, o + 1, []);
    ScanThroughBalanced(t, o + 1, x, |x|);
    assert t[o + 1..|t| - 1] == x;
  }

  /** A pair of scalar types is balanced, so it can be nested as an argument. */
  lemma PairIsBalanced(a: string, b: string)
    requires Plain(a) && Plain(b)
    ensures Balanced("Pair (" + a + ") (" + b + ")")
  {
    var t := "Pair (" + a + ") (" + b + ")";
    var c1 := 6 + |a|;
    var o2 := c1 + 2;
    forall k | 0 <= k <= |t| ensures Depth(t, k) == (if 6 <= k <= c1 || o2 + 1 <= k < |t| then 1 else 0) {
      DepthOfPair(t, a, b, k);
    }
  }

  lemma {:induction false} DepthOfPair(t: string, a: string, b: string, k: nat)
    requires Plain(a) && Plain(b) && t == "Pair (" + a + ") (" + b + ")" && k <= |t|
    ensures Depth(t, k) == (if 6 <= k <= 6 + |a| || 6 + |a| + 3 <= k < |t| then 1 else 0)
    decreases k
  {
    if k > 0 {
      DepthOfPair(t, a, b, k - 1);
      if k - 1 < 6 {
        assert t[k - 1] == "Pair ("[k - 1];
      } else if k - 1 < 6 + |a| {
        assert t[k - 1] == a[k - 1 - 6];
      } else if k - 1 < 6 + |a| + 3 {
        assert t[k - 1] == ") ("[k - 1 - 6 - |a|];
      } else if k - 1 < |t| - 1 {
        assert t[k - 1] == b[k - 1 - 9 - |a|];
      }
    }
  }

  /** A list of pairs of scalar types gives the pair type as its one
      component: `List (Pair (ByStr20) (Uint128))` gives
      `Pair (ByStr20) (Uint128)`. */
  lemma ListOfPair(a: string, b: string)
    requires Plain(a) && Plain(b)
    ensures TopLevelGroups("List (" + ("Pair (" + a + ") (" + b + ")") + ")") == ["Pair (" + a + ") (" + b + ")"]
  {
    var x := "Pair (" + a + ") (" + b + ")";
    PairIsBalanced(a, b);
    assert Plain("List");
    OneArgument("List", x);
    assert "List" + " (" + x + ")" == "List (" + x + ")";
  }
}
