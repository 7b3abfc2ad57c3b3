/** The record comparators `verifyEvents` and `verifyTransitions` of
    tests/testutil.ts: emitted events or outgoing messages are checked index
    by index against what the test expects, and the first record that does
    not match decides the result. */
module Comparator {
  import opened JsValues
  import opened Encoder
  import opened Params

  /** An emitted event `{_eventname, params}`. */
  datatype Event = Event(eventname: string, params: seq<Param>)

  /** An outgoing message `{_tag, _amount, _recipient, params}`. */
  datatype Message = Message(tag: string, amount: string, recipient: string, params: seq<Param>)

  /** A transition of a receipt, `{msg}`. */
  datatype Transition = Transition(msg: Message)

  /** What a test expects of an event: its name and the table its
      `getParams()` returns. */
  datatype EventWant = EventWant(name: string, params: seq<Binding>)

  /** What a test expects of a message. `amount` and `recipient` are checked
      only when truthy; `Undefined` stands for a key the test leaves out. */
  datatype TransitionWant = TransitionWant(tag: string, amount: Value, recipient: Value, params: seq<Binding>)

  /** How the check of one record ends: it passes (or is skipped), fails, or
      throws. */
  datatype Verdict = Pass | Fail | Threw

  /** `want[index]`: reading an index of an undefined `want` throws, and an
      index past its end reads as undefined. */
  function WantAt<W>(want: Option<seq<Option<W>>>, i: nat): (r: Result<Option<W>>)
    ensures r.TypeError? <==> want.None?
    ensures want.Some? && i >= |want.value| ==> r == Ok(None)
  {
    if want.None? then TypeError
    else if i < |want.value| then Ok(want.value[i])
    else Ok(None)
  }

  /** What a comparison loop returns: the first record that fails gives
      false, the first that throws propagates the exception, and true when
      every record passes. */
  function Outcome(vs: seq<Verdict>): (r: Result<bool>)
    ensures r == Ok(true) <==> forall i :: 0 <= i < |vs| ==> vs[i] == Pass
  {
    if vs == [] then Ok(true)
    else
      match vs[0]
      case Pass => Outcome(vs[1..])
      case Fail => Ok(false)
      case Threw => TypeError
  }

  /** The three results of a comparison loop, stated by index. */
  lemma {:induction false} OutcomeByIndex(vs: seq<Verdict>)
    ensures Outcome(vs) == Ok(true) <==> forall i :: 0 <= i < |vs| ==> vs[i] == Pass
    ensures Outcome(vs) == Ok(false) <==>
      exists i :: 0 <= i < |vs| && vs[i] == Fail && forall j :: 0 <= j < i ==> vs[j] == Pass
    ensures Outcome(vs) == TypeError <==>
      exists i :: 0 <= i < |vs| && vs[i] == Threw && forall j :: 0 <= j < i ==> vs[j] == Pass
  {
    if vs != [] {
      OutcomeByIndex(vs[1..]);
      if vs[0] == Pass {
        if Outcome(vs) == Ok(false) {
          var i :| 0 <= i < |vs[1..]| && vs[1..][i] == Fail && forall j :: 0 <= j < i ==> vs[1..][j] == Pass;
          assert vs[i + 1] == Fail && forall j :: 0 <= j < i + 1 ==> vs[j] == Pass;
        }
        if Outcome(vs) == TypeError {
          var i :| 0 <= i < |vs[1..]| && vs[1..][i] == Threw && forall j :: 0 <= j < i ==> vs[1..][j] == Pass;
          assert vs[i + 1] == Threw && forall j :: 0 <= j < i + 1 ==> vs[j] == Pass;
        }
        if exists i :: 0 <= i < |vs| && vs[i] == Fail && forall j :: 0 <= j < i ==> vs[j] == Pass {
          var i :| 0 <= i < |vs| && vs[i] == Fail && forall j :: 0 <= j < i ==> vs[j] == Pass;
          assert vs[1..][i - 1] == Fail && forall j :: 0 <= j < i - 1 ==> vs[1..][j] == Pass;
        }
        if exists i :: 0 <= i < |vs| && vs[i] == Threw && forall j :: 0 <= j < i ==> vs[j] == Pass {
          var i :| 0 <= i < |vs| && vs[i] == Threw && forall j :: 0 <= j < i ==> vs[j] == Pass;
          assert vs[1..][i - 1] == Threw && forall j :: 0 <= j < i - 1 ==> vs[1..][j] == Pass;
        }
      }
    }
  }

  // ---------------------------------------------------------------------
  // verifyEvents
  // ---------------------------------------------------------------------

  /** The body of `verifyEvents`' loop for one event: skipped when nothing is
      expected at its index, failed by the first differing name, then
      compared with the parameters built from the expected table. */
  function EventCheck(e: Event, w: Result<Option<EventWant>>): (v: Verdict)
    ensures v == Pass <==>
      (w == Ok(None) ||
       (w.Ok? && w.value.Some? && e.eventname == w.value.value.name &&
        GetJSONParams(w.value.value.params) == Ok(e.params)))
    ensures v == Threw <==>
      (w.TypeError? ||
       (w.Ok? && w.value.Some? && e.eventname == w.value.value.name &&
        GetJSONParams(w.value.value.params).TypeError?))
  {
    match w
    case TypeError => Threw
    case Ok(None) => Pass
    case Ok(Some(x)) =>
      if e.eventname != x.name then Fail
      else
        match GetJSONParams(x.params)
        case TypeError => Threw
        case Ok(ps) => if e.params == ps then Pass else Fail
  }

  function EventVerdicts(evs: seq<Event>, want: Option<seq<Option<EventWant>>>): (vs: seq<Verdict>)
    ensures |vs| == |evs|
  {
    seq(|evs|, i requires 0 <= i < |evs| => EventCheck(evs[i], WantAt(want, i)))
  }

  /** `verifyEvents(events, want)`. With no events it tells whether nothing
      was expected either; otherwise the events are checked in order and the
      first one that does not pass decides. */
  method VerifyEvents(events: Option<seq<Event>>, want: Option<seq<Option<EventWant>>>) returns (r: Result<bool>)
    ensures events.None? ==> r == Ok(want.None?)
    ensures events.Some? ==> r == Outcome(EventVerdicts(events.value, want))
  {
    if events.None? {
      return Ok(want.None?);
    }
    var evs := events.value;
    ghost var vs := EventVerdicts(evs, want);
    for index := 0 to |evs|
      invariant Outcome(vs) == Outcome(vs[index..])
    {
      assert vs[index..] == [vs[index]] + vs[index + 1..];
      var w := WantAt(want, index);
      assert vs[index] == EventCheck(evs[index], w);
      if w.TypeError? {
        return TypeError;
      }
      if w.value.Some? {
        var event := evs[index];
        if event.eventname != w.value.value.name {
          return Ok(false);
        }
        var wantParams := GetJSONParams(w.value.value.params);
        if wantParams.TypeError? {
          return TypeError;
        }
        if event.params != wantParams.value {
          return Ok(false);
        }
      }
    }
    return Ok(true);
  }

  /** An index with no expectation is not looked at: whatever event is
      emitted there, the result is the same. */
  lemma UnexpectedIndexIsSkipped(evs: seq<Event>, want: seq<Option<EventWant>>, i: nat, e: Event)
    requires i < |evs| && (i >= |want| || want[i].None?)
    ensures Outcome(EventVerdicts(evs[i := e], Some(want))) == Outcome(EventVerdicts(evs, Some(want)))
  {
    assert EventVerdicts(evs[i := e], Some(want)) == EventVerdicts(evs, Some(want));
  }

  /** Expectations past the last emitted event are never checked. */
  lemma ExtraExpectationsIgnored(evs: seq<Event>, want: seq<Option<EventWant>>, extra: seq<Option<EventWant>>)
    requires |evs| <= |want|
    ensures EventVerdicts(evs, Some(want + extra)) == EventVerdicts(evs, Some(want))
  {
    assert forall i :: 0 <= i < |evs| ==> WantAt(Some(want + extra), i) == WantAt(Some(want), i);
  }

  /** When the emitted parameters are the encoding of a table, an event passes
      exactly when its name is the expected one and that table is the expected
      table (both conforming to their types). */
  lemma EventCheckComparesTables(name: string, table: seq<Binding>, x: EventWant)
    requires TableConforms(table) && TableConforms(x.params)
    ensures GetJSONParams(table).Ok?
    ensures EventCheck(Event(name, GetJSONParams(table).value), Ok(Some(x))) == Pass <==>
              name == x.name && table == x.params
  {
    DecodeParamsInvertsGetJSONParams(table);
    DecodeParamsInvertsGetJSONParams(x.params);
    if name == x.name && GetJSONParams(table) == GetJSONParams(x.params) {
      GetJSONParamsIsInjective(table, x.params);
    }
  }

  // ---------------------------------------------------------------------
  // verifyTransitions
  // ---------------------------------------------------------------------

  /** The body of `verifyTransitions`' loop for one message: there is no
      skipping, so a missing expectation throws; the amount is checked if the
      expected one is truthy, then the recipient if truthy, then the tag, then
      the parameters. */
  function TransitionCheck(t: Transition, w: Result<Option<TransitionWant>>): (v: Verdict)
    ensures v == Pass <==> w.Ok? && w.value.Some? && HeaderMatches(t.msg, w.value.value) &&
                           GetJSONParams(w.value.value.params) == Ok(t.msg.params)
    ensures v == Threw <==> w.TypeError? || w.value.None? ||
                            (HeaderMatches(t.msg, w.value.value) && GetJSONParams(w.value.value.params).TypeError?)
  {
    match w
    case TypeError => Threw
    case Ok(None) => Threw
    case Ok(Some(x)) =>
      if Truthy(x.amount) && CallToString(x.amount) != Ok(t.msg.amount) then Fail
      else if Truthy(x.recipient) && Str(t.msg.recipient) != x.recipient then Fail
      else if t.msg.tag != x.tag then Fail
      else
        match GetJSONParams(x.params)
        case TypeError => Threw
        case Ok(ps) => if t.msg.params == ps then Pass else Fail
  }

  /** The message passes the amount, recipient and tag checks. */
  predicate HeaderMatches(m: Message, x: TransitionWant)
  {
    (!Truthy(x.amount) || CallToString(x.amount) == Ok(m.amount)) &&
    (!Truthy(x.recipient) || Str(m.recipient) == x.recipient) &&
    m.tag == x.tag
  }

  function TransitionVerdicts(ts: seq<Transition>, want: Option<seq<Option<TransitionWant>>>): (vs: seq<Verdict>)
    ensures |vs| == |ts|
  {
    seq(|ts|, i requires 0 <= i < |ts| => TransitionCheck(ts[i], WantAt(want, i)))
  }

  /** `verifyTransitions(transitions, want)`: as `verifyEvents`, but every
      message must have an expectation. */
  method VerifyTransitions(transitions: Option<seq<Transition>>, want: Option<seq<Option<TransitionWant>>>)
    returns (r: Result<bool>)
    ensures transitions.None? ==> r == Ok(want.None?)
    ensures transitions.Some? ==> r == Outcome(TransitionVerdicts(transitions.value, want))
  {
    if transitions.None? {
      return Ok(want.None?);
    }
    var ts := transitions.value;
    ghost var vs := TransitionVerdicts(ts, want);
    for index := 0 to |ts|
      invariant Outcome(vs) == Outcome(vs[index..])
    {
      assert vs[index..] == [vs[index]] + vs[index + 1..];
      var msg := ts[index].msg;
      var w := WantAt(want, index);
      if w.TypeError? || w.value.None? {
        return TypeError;
      }
      var x := w.value.value;
      if Truthy(x.amount) && CallToString(x.amount) != Ok(msg.amount) {
        return Ok(false);
      }
      if Truthy(x.recipient) && Str(msg.recipient) != x.recipient {
        return Ok(false);
      }
      if msg.tag != x.tag {
        return Ok(false);
      }
      var wantParams := GetJSONParams(x.params);
      if wantParams.TypeError? {
        return TypeError;
      }
      if msg.params != wantParams.value {
        return Ok(false);
      }
    }
    return Ok(true);
  }

  /** With fewer expectations than messages, a run that gets past the
      expected ones throws at the first message without one. */
  lemma MissingExpectationThrows(ts: seq<Transition>, want: seq<Option<TransitionWant>>)
    requires |want| < |ts|
    requires forall i :: 0 <= i < |want| ==> TransitionCheck(ts[i], WantAt(Some(want), i)) == Pass
    ensures Outcome(TransitionVerdicts(ts, Some(want))) == TypeError
  {
    var vs := TransitionVerdicts(ts, Some(want));
    assert vs[|want|] == Threw && forall j :: 0 <= j < |want| ==> vs[j] == Pass;
    OutcomeByIndex(vs);
  }

  /** A falsy expected amount (0, "", or none) is not compared: the message's
      amount does not matter then. The same holds of the recipient. */
  lemma FalsyAmountAndRecipientUnchecked(m: Message, x: TransitionWant, amount: string, recipient: string)
    ensures !Truthy(x.amount) ==>
      TransitionCheck(Transition(m.(amount := amount)), Ok(Some(x))) == TransitionCheck(Transition(m), Ok(Some(x)))
    ensures !Truthy(x.recipient) ==>
      TransitionCheck(Transition(m.(recipient := recipient)), Ok(Some(x))) == TransitionCheck(Transition(m), Ok(Some(x)))
  {
  }

  /** A truthy expected amount must equal the message's amount as text. */
  lemma TruthyAmountCompared(m: Message, x: TransitionWant)
    requires Truthy(x.amount) && CallToString(x.amount) != Ok(m.amount)
    ensures TransitionCheck(Transition(m), Ok(Some(x))) == Fail
  {
  }

  /** A truthy expected recipient must equal the message's recipient,
      whatever the amount check says. */
  lemma TruthyRecipientCompared(m: Message, x: TransitionWant)
    requires Truthy(x.recipient) && Str(m.recipient) != x.recipient
    ensures TransitionCheck(Transition(m), Ok(Some(x))) == Fail
  {
  }

  /** A different tag fails the message whatever its amount, recipient and
      parameters: when amount and recipient pass, the parameters are never
      built or compared. */
  lemma TagMismatchFails(m: Message, x: TransitionWant)
    requires m.tag != x.tag
    ensures forall ps :: TransitionCheck(Transition(m.(params := ps)), Ok(Some(x))) == Fail
  {
  }

  /** When the message's parameters are the encoding of a table and its
      amount, recipient and tag pass, the message passes exactly when that
      table is the expected table (both conforming to their types). */
  lemma TransitionCheckComparesTables(m: Message, table: seq<Binding>, x: TransitionWant)
    requires TableConforms(table) && TableConforms(x.params)
    requires HeaderMatches(m, x)
    ensures GetJSONParams(table).Ok?
    ensures TransitionCheck(Transition(m.(params := GetJSONParams(table).value)), Ok(Some(x))) == Pass <==>
              table == x.params
  {
    DecodeParamsInvertsGetJSONParams(table);
    DecodeParamsInvertsGetJSONParams(x.params);
    if GetJSONParams(table) == GetJSONParams(x.params) {
      GetJSONParamsIsInjective(table, x.params);
    }
  }

  /** A transfer with no parameters matches an expectation naming its tag,
      a zero amount and its recipient; with a different tag it does not. */
  lemma TransferExample()
    ensures var want := Some([Some(TransitionWant("Transfer", Num(0), Str("0xabc"), []))]);
      Outcome(TransitionVerdicts([Transition(Message("Transfer", "0", "0xabc", []))], want)) == Ok(true) &&
      Outcome(TransitionVerdicts([Transition(Message("Transfer2", "0", "0xabc", []))], want)) == Ok(false)
  {
    assert GetJSONParams([]) == Ok([]);
    var want := Some([Some(TransitionWant("Transfer", Num(0), Str("0xabc"), []))]);
    var good := TransitionVerdicts([Transition(Message("Transfer", "0", "0xabc", []))], want);
    var bad := TransitionVerdicts([Transition(Message("Transfer2", "0", "0xabc", []))], want);
    assert good == [Pass];
    assert bad == [Fail];
  }
}
