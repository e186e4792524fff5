/** The room-join screen: the code input's sanitiser and the join gate. */
module RoomJoin {
  import opened Seqs
  import opened Types
  import opened Decimal

  /** A room code has this many digits. */
  const CodeLength: nat := 4

  function Digits(value: string): seq<char>
  {
    Filter(value, IsDigit)
  }

  /**
   * `handleCodeInput`: drop every non-digit, then keep at most the first four:
   * the result is the leading digits of the input, in input order.
   */
  function SanitiseCode(value: string): (code: string)
    ensures |code| <= CodeLength
    ensures forall i :: 0 <= i < |code| ==> IsDigit(code[i])
    ensures |code| == Min(CodeLength, |Digits(value)|) && code == Digits(value)[..|code|]
  {
    var d := Digits(value);
    d[..Min(CodeLength, |d|)]
  }

  /** Sanitising an already sanitised code changes nothing. */
  lemma SanitiseIdempotent(value: string)
    ensures SanitiseCode(SanitiseCode(value)) == SanitiseCode(value)
  {
    var code := SanitiseCode(value);
    FilterKeepsAll(code, IsDigit);
  }

  /** A string of at most four digits is its own sanitised form, so digit-only input is kept as typed. */
  lemma SanitiseKeepsCodes(code: string)
    requires |code| <= CodeLength && forall i :: 0 <= i < |code| ==> IsDigit(code[i])
    ensures SanitiseCode(code) == code
  {
    FilterKeepsAll(code, IsDigit);
  }

  /** Typing more after four digits leaves the code as it was. */
  lemma SanitiseIgnoresExtra(value: string, extra: string)
    requires |Digits(value)| >= CodeLength
    ensures SanitiseCode(value + extra) == SanitiseCode(value)
  {
    FilterConcat(value, extra, IsDigit);
    assert Digits(value + extra) == Digits(value) + Digits(extra);
  }

  /** What `handleJoin` does: whether it asks to join, and the code it leaves in the input. */
  datatype JoinStep = JoinStep(calledJoin: bool, codeAfter: string)

  /**
   * `handleJoin`, with `success` the answer `onJoinRoom` gives: it is called
   * only with a four-character code, and a refused join clears the input.
   */
  function HandleJoin(code: string, success: bool): (j: JoinStep)
    ensures j.calledJoin <==> |code| == CodeLength
    ensures j.codeAfter == if j.calledJoin && !success then "" else code
  {
    if |code| == CodeLength then JoinStep(true, if success then code else "") else JoinStep(false, code)
  }

  /** `disabled={joinCode.length !== 4 || isLoading}`, negated. */
  predicate JoinButtonEnabled(code: string, isLoading: bool)
    ensures JoinButtonEnabled(code, isLoading) <==> |code| == CodeLength && !isLoading
  {
    !(|code| != CodeLength || isLoading)
  }

  /**
   * A click on the enabled button always reaches `onJoinRoom`, and a code the
   * input produced that gets there is four digits.
   */
  lemma EnabledButtonJoins(value: string, isLoading: bool, success: bool)
    requires JoinButtonEnabled(SanitiseCode(value), isLoading)
    ensures HandleJoin(SanitiseCode(value), success).calledJoin
    ensures |SanitiseCode(value)| == CodeLength && forall i :: 0 <= i < CodeLength ==> IsDigit(SanitiseCode(value)[i])
    ensures |Digits(value)| >= CodeLength
  {
  }

  /** `joinCode[i] ? 'filled' : ''`: an underline is filled exactly under a typed digit. */
  predicate UnderlineFilled(code: string, i: nat)
  {
    i < |code|
  }

  /** The filled underlines are a prefix of the four, as many as the code's digits. */
  lemma FilledUnderlinesCountDigits(value: string)
    ensures forall i :: 0 <= i < CodeLength ==> (UnderlineFilled(SanitiseCode(value), i) <==> i < Min(CodeLength, |Digits(value)|))
  {
  }
}
