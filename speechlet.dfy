/**
 * The Math Whiz voice skill: the intent router (`onLaunch`, `onIntent`,
 * `onSessionEnded`), its fixed tables (facts and arithmetic operators) and the
 * two response builders ("ask" keeps the session open and re-prompts, "tell"
 * carries no re-prompt).
 *
 * The random fact index is a parameter `pick` below the bound the source hands
 * to its random source; the platform's request and response objects are plain
 * datatypes holding their logical fields.
 */
module MathWhizSpeechlet {
  import opened Outcomes
  import opened JavaInt
  import opened JavaDecimal

  const Welcome: string := "Welcome to Math Whiz. "
  const CardTitle: string := "Math Whiz"
  const RepromptPrefix: string := "Sorry, I didn't get that. "
  const Instructions: string := "You can say 'tell me a fact' or 'what is 1 plus 1'"
  const AnswerPrefix: string := "The answer is "

  /** The facts, in the order the static initialiser adds them (spelling and trailing space included). */
  const Facts: seq<string> := [
    "A negative number times another negative number is a postive",
    "Georg Cantor proved that there are many infinities, some vastly larger than others.",
    "A prime number is a whole number greater than 1, whose only two whole-number factors are 1 and itself. "
  ]

  /** The exclusive bound the fact index is drawn below; a literal in the source, not |Facts|. */
  const FactBound: nat := 3

  // ---------------------------------------------------------------- operators

  /** The four operator functions of the table. */
  datatype Operator = Addition | Subtraction | Multiplication | Division

  /** The keyword under which each operator is put in the table. */
  function Keyword(op: Operator): string {
    match op
    case Addition => "plus"
    case Subtraction => "minus"
    case Multiplication => "times"
    case Division => "divided by"
  }

  /**
   * Lookup in the operator table. A null keyword or one the table lacks gives
   * None (the table returns null for it).
   */
  function Operations(keyword: Option<string>): (op: Option<Operator>)
    ensures op.Some? ==> keyword == Some(Keyword(op.value))
  {
    match keyword
    case None => None
    case Some(k) =>
      if k == "plus" then Some(Addition)
      else if k == "minus" then Some(Subtraction)
      else if k == "times" then Some(Multiplication)
      else if k == "divided by" then Some(Division)
      else None
  }

  /** The table holds exactly the four keywords... */
  lemma OperationsDomain(k: string)
    ensures Operations(Some(k)).Some? <==> exists op :: k == Keyword(op)
  {
  }

  /** ...and each keyword finds the operator it was put in with. */
  lemma OperationsKeyword(op: Operator)
    ensures Operations(Some(Keyword(op))) == Some(op)
  {
  }

  /** The exact mathematical value of an operator applied to its operands in order (division truncated). */
  function Exact(op: Operator, a: int, b: int): int
    requires op == Division ==> b != 0
  {
    match op
    case Addition => a + b
    case Subtraction => a - b
    case Multiplication => a * b
    case Division => TruncDiv(a, b)
  }

  /**
   * An operator lambda applied to (first, second) with Java `int` arithmetic:
   * only a zero divisor fails; otherwise the answer is the `int` congruent to the
   * exact value modulo 2^32, and is the exact value whenever that fits an `int`.
   */
  function Apply(op: Operator, a: Int32, b: Int32): (r: Result<Int32>)
    ensures r.Failure? <==> op == Division && b == 0
    ensures r.Failure? ==> r.error == ArithmeticException
    ensures r.Success? ==> (Exact(op, a, b) - r.value) % TwoTo32 == 0
    ensures r.Success? && InRange(Exact(op, a, b)) ==> r.value == Exact(op, a, b)
  {
    match op
    case Addition => Success(Add(a, b))
    case Subtraction => Success(Sub(a, b))
    case Multiplication => Success(Mul(a, b))
    case Division => Div(a, b)
  }

  /** Applying an operator is deterministic in Java's sense: its answer is the one `int` Wrap gives. */
  lemma ApplyIsWrappedExact(op: Operator, a: Int32, b: Int32)
    requires op == Division ==> b != 0
    ensures Apply(op, a, b) == Success(Wrap(Exact(op, a, b)))
  {
  }

  // ---------------------------------------------------------------- responses

  /** The visual card shown in the companion app. */
  datatype Card = SimpleCard(title: string, content: string)

  /** A speechlet response: its spoken text, its card, and either a re-prompt or the end-session flag. */
  datatype Response =
    | Ask(speech: string, card: Card, reprompt: string)
    | Tell(speech: string, card: Card, shouldEndSession: bool)
  {
    /** An ask response always keeps the session open. */
    function ShouldEndSession(): bool {
      if Ask? then false else shouldEndSession
    }

    function Reprompt(): Option<string> {
      if Ask? then Some(reprompt) else None
    }
  }

  /** Every response the skill builds shows the skill's name and exactly what it says. */
  predicate CardShowsSpeech(r: Response) {
    r.card.title == CardTitle && r.card.content == r.speech
  }

  /** Builds an "ask" response: speech and card as given, re-prompt prefixed by the apology. */
  function InitAskResponse(speechText: string, repromptText: string): (r: Response)
    ensures r.speech == speechText && CardShowsSpeech(r)
    ensures r.Reprompt() == Some(RepromptPrefix + repromptText)
    ensures !r.ShouldEndSession()
  {
    Ask(speechText, SimpleCard(CardTitle, speechText), RepromptPrefix + repromptText)
  }

  /** Builds a "tell" response: speech and card as given, no re-prompt, end-session flag as given. */
  function InitTellResponse(speechText: string, shouldEndSession: bool): (r: Response)
    ensures r.speech == speechText && CardShowsSpeech(r)
    ensures r.Reprompt() == None
    ensures r.ShouldEndSession() == shouldEndSession
  {
    Tell(speechText, SimpleCard(CardTitle, speechText), shouldEndSession)
  }

  // ---------------------------------------------------------------- requests

  /** An intent as the platform delivers it: an optional name and slot values (a slot may be present with no value). */
  datatype Intent = Intent(name: Option<string>, slots: map<string, Option<string>>)

  /** The requests the platform routes to the speechlet's handlers. */
  datatype Request =
    | LaunchRequest
    | IntentRequest(intent: Option<Intent>)
    | SessionEndedRequest

  const IntentNames: set<string> := {"GetFactIntent", "DoMathIntent", "AMAZON.HelpIntent"}

  /** Whether the router recognises a request's intent. */
  predicate IsKnownIntent(intent: Option<Intent>) {
    intent.Some? && intent.value.name.Some? && intent.value.name.value in IntentNames
  }

  /** The value of a named slot; dereferencing a missing slot throws NullPointerException. */
  function SlotValue(slots: map<string, Option<string>>, name: string): (r: Result<Option<string>>)
    ensures r.Success? <==> name in slots
    ensures r.Success? ==> r.value == slots[name]
    ensures r.Failure? ==> r.error == NullPointerException
  {
    if name in slots then Success(slots[name]) else Failure(NullPointerException)
  }

  /**
   * The answer of a DoMathIntent, with the source's order of evaluation: the
   * first number is read and parsed, then the operator slot read, then the
   * second number read and parsed, then the operator looked up and applied.
   */
  function DoMath(slots: map<string, Option<string>>): (r: Result<Int32>)
    ensures r.Success? ==>
      && "FirstNumber" in slots && "Operator" in slots && "SecondNumber" in slots
      && ParseInt(slots["FirstNumber"]).Success?
      && ParseInt(slots["SecondNumber"]).Success?
      && Operations(slots["Operator"]).Some?
      && Apply(Operations(slots["Operator"]).value,
               ParseInt(slots["FirstNumber"]).value,
               ParseInt(slots["SecondNumber"]).value) == r
    ensures r.Failure? ==> r.error != SpeechletException("Invalid Intent")
  {
    var first :- SlotValue(slots, "FirstNumber");
    var a :- ParseInt(first);
    var operation :- SlotValue(slots, "Operator");
    var second :- SlotValue(slots, "SecondNumber");
    var b :- ParseInt(second);
    match Operations(operation)
    case None => Failure(NullPointerException)
    case Some(op) => Apply(op, a, b)
  }

  /** `onLaunch`: the welcome, as an ask response. */
  function OnLaunch(): (r: Response)
    ensures r.speech == Welcome + Instructions
    ensures r.Reprompt() == Some(RepromptPrefix + Instructions)
    ensures CardShowsSpeech(r) && !r.ShouldEndSession()
  {
    InitAskResponse(Welcome + Instructions, Instructions)
  }

  /**
   * `onIntent`: a fact, a computed answer or the help text; any other (or no)
   * intent is rejected with SpeechletException("Invalid Intent"). `pick` is the
   * random fact index.
   */
  function OnIntent(intent: Option<Intent>, pick: nat): (r: Result<Response>)
    requires pick < FactBound
    ensures r == Failure(SpeechletException("Invalid Intent")) <==> !IsKnownIntent(intent)
    ensures r.Success? ==> CardShowsSpeech(r.value) && !r.value.ShouldEndSession()
  {
    var name := if intent.Some? then intent.value.name else None;
    if name == Some("GetFactIntent") then
      Success(InitTellResponse(Facts[pick], false))
    else if name == Some("DoMathIntent") then
      var answer :- DoMath(intent.value.slots);
      Success(InitTellResponse(AnswerPrefix + ToString(answer), false))
    else if name == Some("AMAZON.HelpIntent") then
      Success(InitAskResponse(Welcome + Instructions, Instructions))
    else
      Failure(SpeechletException("Invalid Intent"))
  }

  /**
   * The platform's routing of a request to the handlers: a session-ended
   * request runs `onSessionEnded`, which does nothing and answers nothing.
   */
  function Handle(request: Request, pick: nat): (r: Result<Option<Response>>)
    requires pick < FactBound
    ensures request.SessionEndedRequest? ==> r == Success(None)
    ensures request.LaunchRequest? ==> r == Success(Some(OnLaunch()))
    ensures request.IntentRequest? ==>
      r == (var o := OnIntent(request.intent, pick);
            if o.Success? then Success(Some(o.value)) else Failure(o.error))
    ensures r.Success? && r.value.Some? ==> CardShowsSpeech(r.value.value)
    ensures r.Failure? ==> request.IntentRequest?
  {
    match request
    case LaunchRequest => Success(Some(OnLaunch()))
    case IntentRequest(intent) =>
      var response :- OnIntent(intent, pick);
      Success(Some(response))
    case SessionEndedRequest => Success(None)
  }

  // ---------------------------------------------------------------- properties

  /** The help intent answers exactly what a launch does. */
  lemma HelpIsLaunch(slots: map<string, Option<string>>, pick: nat)
    requires pick < FactBound
    ensures OnIntent(Some(Intent(Some("AMAZON.HelpIntent"), slots)), pick) == Success(OnLaunch())
    ensures OnLaunch().Ask?
  {
  }

  /** A fact request tells the fact at the drawn index, which is always in bounds, and keeps the session. */
  lemma GetFactTellsAFact(slots: map<string, Option<string>>, pick: nat)
    requires pick < FactBound
    ensures |Facts| == FactBound
    ensures var r := OnIntent(Some(Intent(Some("GetFactIntent"), slots)), pick);
      && r.Success? && r.value.Tell?
      && r.value.speech == Facts[pick] && r.value.speech in Facts
      && !r.value.ShouldEndSession() && r.value.Reprompt() == None
  {
  }

  /**
   * With two parseable numbers and a known keyword, a math request tells
   * "The answer is " followed by the operator applied in slot order.
   */
  lemma DoMathAnswers(slots: map<string, Option<string>>, pick: nat, a: Int32, op: Operator, b: Int32)
    requires pick < FactBound
    requires "FirstNumber" in slots && ParseInt(slots["FirstNumber"]) == Success(a)
    requires "Operator" in slots && slots["Operator"] == Some(Keyword(op))
    requires "SecondNumber" in slots && ParseInt(slots["SecondNumber"]) == Success(b)
    requires op == Division ==> b != 0
    ensures var r := OnIntent(Some(Intent(Some("DoMathIntent"), slots)), pick);
      && r.Success? && r.value.Tell?
      && r.value.speech == AnswerPrefix + ToString(Wrap(Exact(op, a, b)))
      && !r.value.ShouldEndSession() && r.value.Reprompt() == None
  {
  }

  /** The spoken answer determines the computed value. */
  lemma SpokenAnswerDeterminesValue(x: Int32, y: Int32)
    requires AnswerPrefix + ToString(x) == AnswerPrefix + ToString(y)
    ensures x == y
  {
    assert ToString(x) == (AnswerPrefix + ToString(x))[|AnswerPrefix|..];
    ToStringInjective(x, y);
  }

  /** Dividing by zero throws ArithmeticException and never yields an answer. */
  lemma DivisionByZeroFails(slots: map<string, Option<string>>, pick: nat)
    requires pick < FactBound
    requires "FirstNumber" in slots && ParseInt(slots["FirstNumber"]).Success?
    requires "Operator" in slots && slots["Operator"] == Some("divided by")
    requires "SecondNumber" in slots && ParseInt(slots["SecondNumber"]) == Success(0)
    ensures OnIntent(Some(Intent(Some("DoMathIntent"), slots)), pick) == Failure(ArithmeticException)
  {
  }

  /** A keyword outside the table (or no keyword) makes the lookup yield null: NullPointerException. */
  lemma UnknownOperatorFails(slots: map<string, Option<string>>, pick: nat)
    requires pick < FactBound
    requires "FirstNumber" in slots && ParseInt(slots["FirstNumber"]).Success?
    requires "Operator" in slots && (slots["Operator"].None? || forall op :: slots["Operator"].value != Keyword(op))
    requires "SecondNumber" in slots && ParseInt(slots["SecondNumber"]).Success?
    ensures OnIntent(Some(Intent(Some("DoMathIntent"), slots)), pick) == Failure(NullPointerException)
  {
  }

  /** A first number that does not parse fails with NumberFormatException, whatever the other slots hold. */
  lemma BadFirstNumberFails(slots: map<string, Option<string>>, pick: nat)
    requires pick < FactBound
    requires "FirstNumber" in slots && ParseInt(slots["FirstNumber"]).Failure?
    ensures OnIntent(Some(Intent(Some("DoMathIntent"), slots)), pick) == Failure(NumberFormatException)
  {
  }

  /**
   * A second number that does not parse fails with NumberFormatException, even
   * when the keyword is unknown: parsing comes before the lookup.
   */
  lemma BadSecondNumberFails(slots: map<string, Option<string>>, pick: nat)
    requires pick < FactBound
    requires "FirstNumber" in slots && ParseInt(slots["FirstNumber"]).Success?
    requires "Operator" in slots
    requires "SecondNumber" in slots && ParseInt(slots["SecondNumber"]).Failure?
    ensures OnIntent(Some(Intent(Some("DoMathIntent"), slots)), pick) == Failure(NumberFormatException)
  {
  }

  /** A math request missing a slot it reads fails with NullPointerException. */
  lemma MissingSlotFails(slots: map<string, Option<string>>, pick: nat)
    requires pick < FactBound
    requires "FirstNumber" !in slots
      || ("Operator" !in slots && ParseInt(slots["FirstNumber"]).Success?)
      || ("SecondNumber" !in slots && "Operator" in slots && ParseInt(slots["FirstNumber"]).Success?)
    ensures OnIntent(Some(Intent(Some("DoMathIntent"), slots)), pick) == Failure(NullPointerException)
  {
  }

  /** Worked examples in the skill's own words. */
  lemma Examples(pick: nat)
    requires pick < FactBound
    ensures OnIntent(Some(Intent(Some("DoMathIntent"),
      map["FirstNumber" := Some("7"), "Operator" := Some("minus"), "SecondNumber" := Some("9")])), pick)
      == Success(Tell("The answer is -2", SimpleCard("Math Whiz", "The answer is -2"), false))
    ensures OnIntent(Some(Intent(Some("DoMathIntent"),
      map["FirstNumber" := Some("notanumber"), "Operator" := Some("plus"), "SecondNumber" := Some("2")])), pick)
      == Failure(NumberFormatException)
    ensures OnIntent(Some(Intent(Some("unknown"), map[])), pick) == Failure(SpeechletException("Invalid Intent"))
    ensures OnIntent(None, pick) == Failure(SpeechletException("Invalid Intent"))
  {
    var slots := map["FirstNumber" := Some("7"), "Operator" := Some("minus"), "SecondNumber" := Some("9")];
    assert ParseInt(Some("7")) == Success(7) by {
      assert DigitsValue("7") == 7;
    }
    assert ParseInt(Some("9")) == Success(9) by {
      assert DigitsValue("9") == 9;
    }
    DoMathAnswers(slots, pick, 7, Subtraction, 9);
    assert Wrap(Exact(Subtraction, 7, 9)) == -2;
    assert Digits(2) == "2" by {
      assert DigitChar(2) == '2';
    }
    assert ToString(-2) == "-2";
    assert AnswerPrefix + "-2" == "The answer is -2";
  }
}
