# Math Whiz speechlet — a Dafny model

Math Whiz is a voice skill. Its speechlet receives a launch request, an intent
request or a session-ended request and answers with a spoken response and a
visual card. A launch or the help intent welcomes the user and explains what to
say, as an "ask" response that keeps the session open and re-prompts.
`GetFactIntent` tells one of three fixed facts. `DoMathIntent` parses two number
slots, looks the operator keyword up in a four-entry table and tells
"The answer is …". Any other intent is rejected with `SpeechletException("Invalid Intent")`.

The model has four modules:

- `Outcomes` (outcomes.dfy): a `Result` type and the Java exceptions that can
  escape a handler.
- `JavaInt` (java_int.dfy): Java `int` arithmetic as the operator lambdas use it.
  `+`, `-` and `*` wrap modulo 2^32 (Java Language Specification sections
  15.18.2 and 15.17.1). `/` truncates toward zero and throws on a zero divisor
  (section 15.17.2). Dafny's own `/` is Euclidean, so truncation is defined
  here and proved unique.
- `JavaDecimal` (java_decimal.dfy): `Integer.parseInt` and `Integer.toString`
  for radix 10, with their round trip proved.
- `MathWhizSpeechlet` (speechlet.dfy): the constants and tables, the response
  builders, `onLaunch`, `onIntent`, and the routing of the three request kinds.

The random fact index is a parameter `pick` with `pick < 3`, the literal bound
the source passes to `nextInt`. Exceptions become `Failure` values, in the
order in which the source would throw them.

Errors keep their Java exception classes. A missing slot or an operator keyword
outside the table raises `NullPointerException`. A null or malformed number, or
one outside the `int` range, raises `NumberFormatException`. A zero divisor
raises `ArithmeticException`. `+`, `-` and `*` wrap on overflow. The re-prompt
is the instructions prefixed by "Sorry, I didn't get that. ". A session-ended
request gives no response and no error.

## Model

| member | source | states |
|---|---|---|
| JavaInt.Wrap | src/main/java/com/bennorthrop/mathwhiz/MathWhizSpeechlet.java:46-50 | the `int` kept of an exact result is congruent to it modulo 2^32 and equals it when it fits |
| JavaInt.WrapUnique | src/main/java/com/bennorthrop/mathwhiz/MathWhizSpeechlet.java:46-50 | no other `int` is congruent to the exact result, so the wrapped value is Java's answer |
| JavaInt.TruncDiv | src/main/java/com/bennorthrop/mathwhiz/MathWhizSpeechlet.java:52 | the quotient has the largest magnitude whose product with the divisor does not exceed the dividend in magnitude, and it is positive exactly when the operands have the same sign |
| JavaInt.TruncDivUnique | src/main/java/com/bennorthrop/mathwhiz/MathWhizSpeechlet.java:52 | any integer meeting those two conditions is TruncDiv's quotient |
| JavaInt.QuotientInRange | src/main/java/com/bennorthrop/mathwhiz/MathWhizSpeechlet.java:52 | a quotient of two `int`s fits an `int` except for MinValue / -1 |
| JavaInt.Add | src/main/java/com/bennorthrop/mathwhiz/MathWhizSpeechlet.java:46 | `a + b` is congruent to the exact sum and exact when the sum fits |
| JavaInt.Sub | src/main/java/com/bennorthrop/mathwhiz/MathWhizSpeechlet.java:48 | `a - b` is congruent to the exact difference and exact when it fits |
| JavaInt.Mul | src/main/java/com/bennorthrop/mathwhiz/MathWhizSpeechlet.java:50 | `a * b` is congruent to the exact product and exact when it fits |
| JavaInt.Div | src/main/java/com/bennorthrop/mathwhiz/MathWhizSpeechlet.java:52 | `a / b` fails with ArithmeticException iff b is zero, and otherwise is the truncated quotient unless MinValue / -1 |
| JavaInt.OverflowExamples | src/main/java/com/bennorthrop/mathwhiz/MathWhizSpeechlet.java:46-52 | MaxValue plus 1 is MinValue, MinValue minus 1 is MaxValue, 65536 times 65536 is 0, MinValue / -1 is MinValue |
| JavaInt.TruncationExamples | src/main/java/com/bennorthrop/mathwhiz/MathWhizSpeechlet.java:52 | -7 / 2 is -3 in Java while Dafny's Euclidean division gives -4 |
| JavaDecimal.ParseInt | src/main/java/com/bennorthrop/mathwhiz/MathWhizSpeechlet.java:88 | parsing fails only with NumberFormatException, always fails for a null value, and succeeds only on an optional sign followed by digits; a negative result needs a '-' |
| JavaDecimal.Digits | src/main/java/com/bennorthrop/mathwhiz/MathWhizSpeechlet.java:93 | the digits of a natural are non-empty and decimal, with no leading zero except the text "0" |
| JavaDecimal.ToString | src/main/java/com/bennorthrop/mathwhiz/MathWhizSpeechlet.java:93 | the text of an `int` is canonical (no '+', no leading zero, no "-0") and starts with '-' iff the value is negative |
| JavaDecimal.ParseToString | src/main/java/com/bennorthrop/mathwhiz/MathWhizSpeechlet.java:88-93 | parsing the text of any `int` gives that `int` back |
| JavaDecimal.ToStringParse | src/main/java/com/bennorthrop/mathwhiz/MathWhizSpeechlet.java:88-93 | a canonical text that parses is exactly the text of the parsed value |
| JavaDecimal.ParseAcceptsInRange | src/main/java/com/bennorthrop/mathwhiz/MathWhizSpeechlet.java:88-90 | every sign-then-digits text whose value fits an `int` parses to that signed value, leading zeros and '+' included |
| JavaDecimal.ParseRejectsOutOfRange | src/main/java/com/bennorthrop/mathwhiz/MathWhizSpeechlet.java:88-90 | every sign-then-digits text whose value does not fit an `int` raises NumberFormatException |
| JavaDecimal.ParseRangeExamples | src/main/java/com/bennorthrop/mathwhiz/MathWhizSpeechlet.java:88-90 | "2147483648" raises NumberFormatException and "-2147483648" parses to MinValue |
| JavaDecimal.ToStringInjective | src/main/java/com/bennorthrop/mathwhiz/MathWhizSpeechlet.java:93 | distinct `int`s have distinct texts |
| JavaDecimal.ParseExamples | src/main/java/com/bennorthrop/mathwhiz/MathWhizSpeechlet.java:88-90 | "42", "+7" and "-007" parse; "notanumber", "-", "", "1.5" and null raise NumberFormatException |
| MathWhizSpeechlet.Operations | src/main/java/com/bennorthrop/mathwhiz/MathWhizSpeechlet.java:62-65 | a table hit returns the operator put under that exact keyword; null finds nothing |
| MathWhizSpeechlet.OperationsDomain | src/main/java/com/bennorthrop/mathwhiz/MathWhizSpeechlet.java:62-65 | the lookup succeeds iff the keyword is the keyword of some operator: plus, minus, times or divided by |
| MathWhizSpeechlet.OperationsKeyword | src/main/java/com/bennorthrop/mathwhiz/MathWhizSpeechlet.java:62-65 | each operator's keyword finds that operator |
| MathWhizSpeechlet.Apply | src/main/java/com/bennorthrop/mathwhiz/MathWhizSpeechlet.java:46-52 | an operator fails only on division by zero, with ArithmeticException; otherwise its answer is congruent to the exact value in slot order, and equal to it when that fits |
| MathWhizSpeechlet.ApplyIsWrappedExact | src/main/java/com/bennorthrop/mathwhiz/MathWhizSpeechlet.java:46-52 | a non-failing operator returns exactly the wrapped exact value of (first, second) |
| MathWhizSpeechlet.InitAskResponse | src/main/java/com/bennorthrop/mathwhiz/MathWhizSpeechlet.java:114-119 | an ask response speaks the text, shows it on a "Math Whiz" card, re-prompts with the apology prefix and keeps the session open |
| MathWhizSpeechlet.InitTellResponse | src/main/java/com/bennorthrop/mathwhiz/MathWhizSpeechlet.java:126-132 | a tell response speaks the text, shows it on a "Math Whiz" card, has no re-prompt, and ends the session exactly when the flag says |
| MathWhizSpeechlet.SlotValue | src/main/java/com/bennorthrop/mathwhiz/MathWhizSpeechlet.java:88-90 | reading a slot succeeds iff it is present, and a missing slot raises NullPointerException |
| MathWhizSpeechlet.DoMath | src/main/java/com/bennorthrop/mathwhiz/MathWhizSpeechlet.java:87-92 | a math answer exists only when all three slots are present, both numbers parse, the keyword is in the table, and the operator applied in slot order returns it |
| MathWhizSpeechlet.OnLaunch | src/main/java/com/bennorthrop/mathwhiz/MathWhizSpeechlet.java:73-75 | launching speaks the welcome plus the instructions, re-prompts with the apology plus the instructions, keeps the session open, and shows its speech on the card |
| MathWhizSpeechlet.OnIntent | src/main/java/com/bennorthrop/mathwhiz/MathWhizSpeechlet.java:78-102 | the handler fails with SpeechletException("Invalid Intent") iff the intent is absent or unnamed or not one of the three names, and every response it gives keeps the session open and shows its speech on the card |
| MathWhizSpeechlet.Handle | src/main/java/com/bennorthrop/mathwhiz/MathWhizSpeechlet.java:105-107 | a session-ended request yields no response, a launch yields exactly the welcome of OnLaunch, an intent request yields OnIntent's response or its exception, only intent requests fail, and every response shows its speech on the card |
| MathWhizSpeechlet.HelpIsLaunch | src/main/java/com/bennorthrop/mathwhiz/MathWhizSpeechlet.java:96-98 | the help intent returns exactly the launch response, an ask response |
| MathWhizSpeechlet.GetFactTellsAFact | src/main/java/com/bennorthrop/mathwhiz/MathWhizSpeechlet.java:83-85 | the fact index bound equals the number of facts, and a fact request tells the fact at the drawn index with no re-prompt and the session kept open |
| MathWhizSpeechlet.DoMathAnswers | src/main/java/com/bennorthrop/mathwhiz/MathWhizSpeechlet.java:87-94 | with parseable numbers and a known keyword, the response tells "The answer is " followed by the text of the wrapped exact result in slot order, and keeps the session open |
| MathWhizSpeechlet.SpokenAnswerDeterminesValue | src/main/java/com/bennorthrop/mathwhiz/MathWhizSpeechlet.java:93 | two answers that are spoken the same are the same value |
| MathWhizSpeechlet.DivisionByZeroFails | src/main/java/com/bennorthrop/mathwhiz/MathWhizSpeechlet.java:92 | "divided by" with a second number of 0 fails with ArithmeticException |
| MathWhizSpeechlet.UnknownOperatorFails | src/main/java/com/bennorthrop/mathwhiz/MathWhizSpeechlet.java:92 | a keyword outside the table, or no keyword, fails with NullPointerException once both numbers parse |
| MathWhizSpeechlet.BadFirstNumberFails | src/main/java/com/bennorthrop/mathwhiz/MathWhizSpeechlet.java:88 | a first number that does not parse fails with NumberFormatException, whatever the other slots hold |
| MathWhizSpeechlet.BadSecondNumberFails | src/main/java/com/bennorthrop/mathwhiz/MathWhizSpeechlet.java:90 | a second number that does not parse fails with NumberFormatException even when the keyword is unknown |
| MathWhizSpeechlet.MissingSlotFails | src/main/java/com/bennorthrop/mathwhiz/MathWhizSpeechlet.java:88-90 | a slot missing when it is read fails with NullPointerException |
| MathWhizSpeechlet.Examples | src/main/java/com/bennorthrop/mathwhiz/MathWhizSpeechlet.java:78-102 | 7 minus 9 tells "The answer is -2"; "notanumber" raises NumberFormatException; an unknown or absent intent raises SpeechletException("Invalid Intent") |

## Left out

- JavaDecimal.ParseInt: accepts only the ASCII digits '0' to '9'. `Integer.parseInt` also accepts other Unicode decimal digits, through `Character.digit`.
- `java.util.Random`: the fact index is a parameter. Whether the facts are chosen uniformly is a statistical claim, not modelled.
- `onSessionStarted` and `onSessionEnded` have empty bodies. The model states only that a session-ended request gives no response (`Handle`).
- The `Session` argument of every handler is never read by the source, so it is not modelled.
- MathWhizSpeechlet.Handle: this is the platform SDK's routing of requests to the handlers. It is modelled only as a composition of the handlers, not as the SDK's code.
- `initOutputSpeech`, `initReprompt` and `initSimpleCard` only wrap a string in a platform object. They are folded into the `speech`, `reprompt` and `card` fields of `Response`.
- Platform SDK objects (`SpeechletResponse`, `SimpleCard`, `PlainTextOutputSpeech`, `Reprompt`, `Intent`, `Slot`) are kept only as their logical fields. Their defaults and JSON wire format are not modelled. A null request object is not modelled either.
- `MathWhizSpeechletRequestStreamHandler.java` is transport wiring: it hands the speechlet and the skill ID to the platform's Lambda handler. It is not part of this model.
- Concurrent invocations are not modelled. The tables are constants that are never written after start-up.
