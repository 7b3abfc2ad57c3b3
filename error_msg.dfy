/** `getErrorMsg` of tests/testutil.ts: the text the Scilla interpreter
    reports when a transition throws the contract's error record with a
    given `Int32` code. */
module ErrorMsg {
  import opened JsValues

  const Head: string := "Exception thrown: (Message [(_exception : (String \"Error\")) ; (code : (Int32 "
  const Tail: string := "))])"

  /** `getErrorMsg(code)`: the code's decimal text between the fixed head and
      tail of the message. */
  function GetErrorMsg(code: int): (msg: string)
    ensures StartsWith(msg, Head)
    ensures |msg| == |Head| + |IntToDecimal(code)| + |Tail|
    ensures msg[|msg| - |Tail|..] == Tail
  {
    Head + IntToDecimal(code) + Tail
  }

  /** Reads the code back out of a message of that shape; None for any other
      text. */
  function ParseErrorMsg(msg: string): (r: Option<int>)
    ensures r.Some? ==> StartsWith(msg, Head)
  {
    if |msg| >= |Head| + |Tail| && msg[..|Head|] == Head && msg[|msg| - |Tail|..] == Tail then
      ParseInt(msg[|Head|..|msg| - |Tail|])
    else
      None
  }

  /** The code can be read back from its message. */
  lemma ParseInvertsGetErrorMsg(code: int)
    ensures ParseErrorMsg(GetErrorMsg(code)) == Some(code)
  {
    var msg := GetErrorMsg(code);
    assert msg[..|Head|] == Head;
    assert msg[|Head|..|msg| - |Tail|] == IntToDecimal(code);
    ParseIntInverts(code);
  }

  /** Different codes give different messages, so a test that expects one
      code's message fails on any other code. */
  lemma GetErrorMsgIsInjective(c1: int, c2: int)
    requires GetErrorMsg(c1) == GetErrorMsg(c2)
    ensures c1 == c2
  {
    ParseInvertsGetErrorMsg(c1);
    ParseInvertsGetErrorMsg(c2);
  }
}
