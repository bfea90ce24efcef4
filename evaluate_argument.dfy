/**
 * The `/evaluate-argument` handler: validation of the JSON request body,
 * the check for a blocked model reply, the parsing of the reply into a
 * score, a reasoning text and a feedback text, and the JSON response.
 * The call to the language model is not modelled: its outcome is an input.
 */
module EvaluateArgument {
  import opened Wrappers
  import opened Text
  import opened NumberPattern

  const MissingFieldsMessage := "No text or topic provided"
  const BlockedMessage := "\U{26A0}\U{FE0F} AI could not generate a response due to content restrictions. Please rephrase your argument."
  /** `str(e)` for the AttributeError raised by `None.group()`. */
  const NoGroupMessage := "'NoneType' object has no attribute 'group'"

  const ScoreMarker := "Rationality Score:"
  const ReasonMarker := "**Reasoning for Score:**"
  const FeedbackMarker := "**Feedback:**"
  const NoReasoning := "No reasoning provided."
  const NoFeedback := "No feedback provided."

  // ---------------------------------------------------------------------
  // Request validation

  /** The request body as `request.get_json()` returns it. */
  datatype Json =
    | JNull
    | JBool(b: bool)
    | JNumber(n: int)
    | JString(s: string)
    | JArray(items: seq<Json>)
    | JObject(fields: map<string, Json>)

  /** Python truthiness: None, False, 0, "", [] and {} are false. */
  predicate Truthy(v: Json) {
    match v
    case JNull => false
    case JBool(b) => b
    case JNumber(n) => n != 0
    case JString(s) => s != ""
    case JArray(items) => items != []
    case JObject(fields) => fields != map[]
  }

  /** The values on which Python's `in` is defined. */
  predicate IsContainer(v: Json) {
    v.JObject? || v.JArray? || v.JString?
  }

  /** Python's `key in v`: a key of a dict, an element of a list, a
      substring of a str. */
  predicate Member(key: string, v: Json)
    requires IsContainer(v)
  {
    match v
    case JObject(fields) => key in fields
    case JArray(items) => JString(key) in items
    case JString(s) => Contains(s, key)
  }

  datatype Validation =
    | Accepted(topic: Json, text: Json)
      // `data["topic"]` and `data["text"]`
    | Rejected
      // answered 400 with MissingFieldsMessage
    | Raises
      // a TypeError raised before the `try`: `in` on a number or on `true`,
      // or `data["topic"]` on a list or a str

  /** The check at the top of the handler: a body that is falsy or lacks one
      of the two keys is rejected. Only the presence of the keys is checked,
      so empty or non-string values are accepted. */
  function Validate(body: Json): (r: Validation)
    ensures r.Accepted? <==> body.JObject? && "text" in body.fields && "topic" in body.fields
    ensures r.Accepted? ==> r.topic == body.fields["topic"] && r.text == body.fields["text"]
    ensures r.Rejected? <==>
              || !Truthy(body)
              || (IsContainer(body) && (!Member("text", body) || !Member("topic", body)))
  {
    if !Truthy(body) then Rejected
    else if !IsContainer(body) then Raises
    else if !Member("text", body) || !Member("topic", body) then Rejected
    else if body.JObject? then Accepted(body.fields["topic"], body.fields["text"])
    else Raises
  }

  /** Bodies the validation treats as Python does: None, 0 and empty containers
      are falsy; `in` looks for a list element or a substring; a str or list
      that holds both names gets past the validation and fails on `data["topic"]`;
      the values of the two keys are not examined. */
  lemma ValidationExamples()
    ensures Validate(JNull) == Rejected
    ensures Validate(JObject(map[])) == Rejected
    ensures Validate(JNumber(0)) == Rejected && Validate(JNumber(7)) == Raises
    ensures Validate(JArray([JString("text")])) == Rejected
    ensures Validate(JArray([JString("text"), JString("topic")])) == Raises
    ensures Validate(JString("hello")) == Rejected
    ensures Validate(JString("topic text")) == Raises
    ensures Validate(JObject(map["text" := JString(""), "topic" := JNull])) == Accepted(JNull, JString(""))
  {
    assert OccursAt("topic text", "topic", 0);
    assert OccursAt("topic text", "text", 6);
    assert !Contains("hello", "text") by {
      forall i: nat | i <= 5 ensures !OccursAt("hello", "text", i) {
        assert i + 4 <= 5 ==> "hello"[i] != 't';
      }
    }
  }

  // ---------------------------------------------------------------------
  // Parsing the model's reply

  /** What `model.generate_content(prompt)` gives the handler. */
  datatype ModelOutcome =
    | Raised(message: string)
      // an exception while calling the model or reading its reply: `str(e)`
    | Replied(hasParts: bool, text: string)
      // whether `response.parts` is non-empty, and `response.text`

  /** The rationality score: the 0.5 default, or the text the pattern
      matched, which `float()` then reads. */
  datatype Score = DefaultScore | ParsedScore(lexeme: string)

  /** The exact value of the score; the double `float()` produces is the
      nearest one to it. */
  function ScoreValue(score: Score): real {
    match score
    case DefaultScore => 0.5
    case ParsedScore(t) => Value(t)
  }

  datatype Evaluation = Evaluation(score: Score, reasonForScore: string, feedback: string)

  /** The lines of the stripped reply, split on "\n". */
  function Lines(output: string): seq<string> {
    Split(output, '\n')
  }

  /** The score: the leftmost number in the first line that mentions
      "Rationality Score:", or 0.5 when no line does; a score line without a
      number makes `.group()` fail on None. */
  function ExtractScore(output: string): (r: Result<Score, string>)
    ensures r.Failure? ==> r.error == NoGroupMessage
    ensures r.Success? && r.value.ParsedScore? ==> IsNumber(r.value.lexeme)
  {
    var lines := Lines(output);
    match FirstContaining(lines, ScoreMarker)
    case None => Success(DefaultScore)
    case Some(i) =>
      match Search(lines[i])
      case None => Failure(NoGroupMessage)
      case Some(m) =>
        SearchFromCorrect(lines[i], 0);
        Success(ParsedScore(Group(lines[i], m)))
  }

  /** `output[start:].strip()` from the first occurrence of `marker`, or the
      placeholder when the marker does not occur. */
  function ExtractSection(output: string, marker: string, placeholder: string): string {
    var start := Find(output, marker);
    if start != -1 then Strip(output[start..]) else placeholder
  }

  /** The parsing of the stripped reply: the score, then the reasoning and
      the feedback. */
  function ParseOutput(output: string): (r: Result<Evaluation, string>)
    ensures r.Failure? ==> r.error == NoGroupMessage
  {
    var score :- ExtractScore(output);
    Success(Evaluation(
      score,
      ExtractSection(output, ReasonMarker, NoReasoning),
      ExtractSection(output, FeedbackMarker, NoFeedback)))
  }

  /** The handler's parsing of `response.text`: strip it, then parse it. */
  function ParseReply(text: string): (r: Result<Evaluation, string>)
    ensures r.Failure? ==> r.error == NoGroupMessage
  {
    ParseOutput(Strip(text))
  }

  /** The parsing succeeds exactly when the score does, and then keeps it. */
  lemma ParsedScoreOf(output: string)
    ensures ParseOutput(output).Success? <==> ExtractScore(output).Success?
    ensures ParseOutput(output).Success? ==> ParseOutput(output).value.score == ExtractScore(output).value
  {
  }

  /** Whatever score the stripped reply gives, parsing the reply keeps. */
  lemma ReplyScore(text: string, score: Score)
    requires ExtractScore(Strip(text)) == Success(score)
    ensures ParseReply(text).Success? && ParseReply(text).value.score == score
  {
    ParsedScoreOf(Strip(text));
  }

  /** A reply with no white space at either end is parsed as it stands,
      and every reply is parsed from a stripped text. */
  lemma StrippedReply(text: string)
    ensures IsStripped(Strip(text))
    ensures IsStripped(text) ==> ParseReply(text) == ParseOutput(text)
  {
  }

  // ---------------------------------------------------------------------
  // The response

  datatype ErrorStatus = BadRequest | ServerError

  datatype Response =
    | Evaluated(evaluation: Evaluation)
      // 200 with the three fields
    | ErrorReply(status: ErrorStatus, message: string)
      // `jsonify({"error": message}), status`
    | InternalServerError
      // an exception outside the `try`: the framework's own 500 page

  /** The whole handler, given the request body and what the model call gives. */
  function Respond(body: Json, outcome: ModelOutcome): (r: Response)
    ensures Validate(body).Rejected? ==> r == ErrorReply(BadRequest, MissingFieldsMessage)
    ensures Validate(body).Raises? ==> r == InternalServerError
    ensures Validate(body).Accepted? && outcome.Raised? ==> r == ErrorReply(ServerError, outcome.message)
    ensures Validate(body).Accepted? && outcome.Replied? && (!outcome.hasParts || outcome.text == "") ==>
              r == ErrorReply(BadRequest, BlockedMessage)
    ensures r.Evaluated? <==>
              && Validate(body).Accepted?
              && outcome.Replied? && outcome.hasParts && outcome.text != ""
              && ParseReply(outcome.text).Success?
    ensures r.Evaluated? ==> r.evaluation == ParseReply(outcome.text).value
    ensures && Validate(body).Accepted?
            && outcome.Replied? && outcome.hasParts && outcome.text != ""
            && ParseReply(outcome.text).Failure? ==>
              r == ErrorReply(ServerError, NoGroupMessage)
  {
    match Validate(body)
    case Rejected => ErrorReply(BadRequest, MissingFieldsMessage)
    case Raises => InternalServerError
    case Accepted(_, _) =>
      match outcome
      case Raised(message) => ErrorReply(ServerError, message)
      case Replied(hasParts, text) =>
        if !hasParts || text == "" then
          ErrorReply(BadRequest, BlockedMessage)
        else
          match ParseReply(text)
          case Failure(message) => ErrorReply(ServerError, message)
          case Success(evaluation) => Evaluated(evaluation)
  }

  /** The HTTP status of a response. */
  function Status(r: Response): (code: nat)
    ensures code == 200 <==> r.Evaluated?
    ensures code == 400 <==> r.ErrorReply? && r.status == BadRequest
    ensures code == 500 <==> r.InternalServerError? || (r.ErrorReply? && r.status == ServerError)
  {
    match r
    case Evaluated(_) => 200
    case ErrorReply(BadRequest, _) => 400
    case ErrorReply(ServerError, _) => 500
    case InternalServerError => 500
  }

  datatype Field = ScoreField(score: Score) | StringField(s: string)

  /** The JSON object a response carries; the framework's 500 page carries
      none. */
  function Payload(r: Response): (body: Option<map<string, Field>>)
    ensures r.Evaluated? ==>
              && body.Some?
              && body.value.Keys == {"rationality_score", "reason_for_score", "feedback"}
              && body.value["rationality_score"] == ScoreField(r.evaluation.score)
              && body.value["reason_for_score"] == StringField(r.evaluation.reasonForScore)
              && body.value["feedback"] == StringField(r.evaluation.feedback)
    ensures r.ErrorReply? ==> body == Some(map["error" := StringField(r.message)])
    ensures r.InternalServerError? ==> body.None?
  {
    match r
    case Evaluated(e) =>
      Some(map[
        "rationality_score" := ScoreField(e.score),
        "reason_for_score" := StringField(e.reasonForScore),
        "feedback" := StringField(e.feedback)])
    case ErrorReply(_, message) => Some(map["error" := StringField(message)])
    case InternalServerError => None
  }

  // ---------------------------------------------------------------------
  // Properties of the parsing

  /** The score is the 0.5 default exactly when "Rationality Score:" does not
      occur in the stripped reply: since the marker holds no newline, no
      line mentions it exactly when the whole text does not. */
  lemma ScoreDefaultIffNoMarker(output: string)
    ensures ExtractScore(output) == Success(DefaultScore) <==> !Contains(output, ScoreMarker)
  {
    assert '\n' !in ScoreMarker;
    SplitContains(output, '\n', ScoreMarker);
  }

  /** The score is the leftmost-longest number of the first line that
      mentions "Rationality Score:", wherever in that line it stands. */
  lemma ScoreFromFirstScoreLine(output: string, i: nat, p: nat, n: nat)
    requires IsFirstWith(Lines(output), ScoreMarker, i)
    requires IsLeftmostLongest(Lines(output)[i], p, n)
    ensures ExtractScore(output) == Success(ParsedScore(Lines(output)[i][p..p + n]))
  {
    var lines := Lines(output);
    var j := FirstContaining(lines, ScoreMarker).value;
    assert !(i < j) && !(j < i);
    SearchIsLeftmostLongest(lines[i], p, n);
  }

  /** Parsing fails exactly when the first line that mentions
      "Rationality Score:" holds no digit. */
  lemma ScoreFailsIffNoDigit(output: string, i: nat)
    requires IsFirstWith(Lines(output), ScoreMarker, i)
    ensures ExtractScore(output).Failure? <==>
              forall c :: 0 <= c < |Lines(output)[i]| ==> !IsDigit(Lines(output)[i][c])
  {
    var lines := Lines(output);
    var j := FirstContaining(lines, ScoreMarker).value;
    assert !(i < j) && !(j < i);
    SearchFailsIffNoDigit(lines[i]);
  }

  /** A section is the stripped suffix from the first occurrence of its
      marker, or the placeholder when the marker does not occur. */
  lemma SectionAtFirstMarker(output: string, marker: string, placeholder: string, i: nat)
    ensures !Contains(output, marker) ==> ExtractSection(output, marker, placeholder) == placeholder
    ensures IsFirstOccurrence(output, marker, i) ==>
              ExtractSection(output, marker, placeholder) == Strip(output[i..])
  {
    if IsFirstOccurrence(output, marker, i) {
      var start := Find(output, marker);
      assert !(start < i) && !(i < start);
    }
  }

  /** In a text that does not end in white space, a section is the whole
      suffix from the first occurrence of its marker (the `.strip()` leaves
      it unchanged, as it starts with the marker), or the placeholder. */
  lemma SectionFromMarker(output: string, marker: string, placeholder: string, i: nat)
    requires |output| == 0 || !IsSpace(output[|output| - 1])
    requires |marker| > 0 && !IsSpace(marker[0])
    ensures !Contains(output, marker) ==> ExtractSection(output, marker, placeholder) == placeholder
    ensures IsFirstOccurrence(output, marker, i) ==> ExtractSection(output, marker, placeholder) == output[i..]
  {
    SectionAtFirstMarker(output, marker, placeholder, i);
    if IsFirstOccurrence(output, marker, i) {
      var suffix := output[i..];
      assert suffix[0] == output[i..i + |marker|][0] == marker[0];
      assert suffix[|suffix| - 1] == output[|output| - 1];
    }
  }

  /** `reason_for_score` is the suffix of the stripped reply from the first
      "**Reasoning for Score:**" on, or "No reasoning provided.". */
  lemma ReasonForScoreFromMarker(output: string, i: nat)
    requires IsStripped(output)
    ensures ParseOutput(output).Success? ==>
              var reason := ParseOutput(output).value.reasonForScore;
              && (!Contains(output, ReasonMarker) ==> reason == NoReasoning)
              && (IsFirstOccurrence(output, ReasonMarker, i) ==> reason == output[i..])
  {
    SectionFromMarker(output, ReasonMarker, NoReasoning, i);
  }

  /** `feedback` is the suffix of the stripped reply from the first
      "**Feedback:**" on, or "No feedback provided.". */
  lemma FeedbackFromMarker(output: string, i: nat)
    requires IsStripped(output)
    ensures ParseOutput(output).Success? ==>
              var feedback := ParseOutput(output).value.feedback;
              && (!Contains(output, FeedbackMarker) ==> feedback == NoFeedback)
              && (IsFirstOccurrence(output, FeedbackMarker, i) ==> feedback == output[i..])
  {
    SectionFromMarker(output, FeedbackMarker, NoFeedback, i);
  }

  /** When the reasoning marker comes first, the feedback is a suffix of the
      reasoning: both run to the end of the reply. */
  lemma FeedbackWithinReasoning(output: string, r: nat, f: nat)
    requires IsStripped(output)
    requires IsFirstOccurrence(output, ReasonMarker, r)
    requires IsFirstOccurrence(output, FeedbackMarker, f)
    requires r <= f
    ensures ParseOutput(output).Success? ==>
              var e := ParseOutput(output).value;
              f - r <= |e.reasonForScore| && e.feedback == e.reasonForScore[f - r..]
  {
    ReasonForScoreFromMarker(output, r);
    FeedbackFromMarker(output, f);
    assert output[r..][f - r..] == output[f..];
  }

  /** A line made of plain text that mentions the marker, then a number,
      then text that neither continues the number nor breaks the line: the
      number is the match. */
  lemma PlainScoreLine(prefix: string, t: string, suffix: string)
    requires forall q :: 0 <= q < |prefix| ==> IsPlain(prefix[q]) && prefix[q] != '\n'
    requires Contains(prefix, ScoreMarker)
    requires IsNumber(t) && '\n' !in t
    requires '\n' !in suffix && (|suffix| == 0 || (!IsDigit(suffix[0]) && suffix[0] != '.'))
    ensures var line := prefix + t + suffix;
            && '\n' !in line
            && Contains(line, ScoreMarker)
            && Search(line) == Some(Match(|prefix|, |t|))
            && Group(line, Match(|prefix|, |t|)) == t
  {
    var line := prefix + t + suffix;
    forall q | 0 <= q < |line| ensures line[q] != '\n' {
      if q < |prefix| {
        assert line[q] == prefix[q];
      } else if q < |prefix| + |t| {
        assert line[q] == t[q - |prefix|];
      } else {
        assert line[q] == suffix[q - |prefix| - |t|];
      }
    }
    var i: nat :| i <= |prefix| && OccursAt(prefix, ScoreMarker, i);
    assert line[i..i + |ScoreMarker|] == prefix[i..i + |ScoreMarker|];
    assert OccursAt(line, ScoreMarker, i);
    SearchAfterPlainPrefix(prefix, t, suffix);
    assert line[|prefix|..|prefix| + |t|] == t;
  }

  /** When the reply's lines are `before`, then `line`, then `after`, and
      `line` is the first to mention the marker, the score is what the
      search finds on `line`, whatever the lines after it. */
  lemma ScoreOfLines(output: string, before: seq<string>, line: string, after: seq<string>, m: Match)
    requires Lines(output) == before + [line] + after
    requires forall i :: 0 <= i < |before| ==> !Contains(before[i], ScoreMarker)
    requires Contains(line, ScoreMarker)
    requires Search(line) == Some(m)
    ensures m.start + m.len <= |line|
    ensures ExtractScore(output) == Success(ParsedScore(Group(line, m)))
  {
    var lines := Lines(output);
    assert lines[|before|] == line;
    forall j | 0 <= j < |before| ensures !Contains(lines[j], ScoreMarker) {
      assert lines[j] == before[j];
    }
    SearchIsLeftmostLongest(line, m.start, m.len);
    ScoreFromFirstScoreLine(output, |before|, m.start, m.len);
  }

  /** A one-line reply made of plain text that mentions the marker,
      followed by a number, scores that number. */
  lemma ScoreLineScore(prefix: string, t: string)
    requires forall q :: 0 <= q < |prefix| ==> IsPlain(prefix[q]) && prefix[q] != '\n'
    requires Contains(prefix, ScoreMarker)
    requires IsNumber(t) && '\n' !in t
    ensures ExtractScore(prefix + t) == Success(ParsedScore(t))
  {
    PlainScoreLine(prefix, t, "");
    var line := prefix + t + "";
    assert line == prefix + t;
    SplitWithoutSeparator(line, '\n');
    assert Lines(line) == [] + [line] + [];
    ScoreOfLines(line, [], line, [], Match(|prefix|, |t|));
  }

  /** A one-line reply made of plain text mentioning the marker and then a
      number, with any white space before and after it, is parsed to that
      number. */
  lemma OneLineReplyScore(lead: string, prefix: string, t: string, trail: string)
    requires forall q :: 0 <= q < |lead| ==> IsSpace(lead[q])
    requires |prefix| > 0 && !IsSpace(prefix[0])
    requires forall q :: 0 <= q < |prefix| ==> IsPlain(prefix[q]) && prefix[q] != '\n'
    requires Contains(prefix, ScoreMarker)
    requires IsNumber(t) && '\n' !in t
    requires forall q :: 0 <= q < |trail| ==> IsSpace(trail[q])
    ensures ParseReply(lead + prefix + t + trail).Success?
    ensures ParseReply(lead + prefix + t + trail).value.score == ParsedScore(t)
  {
    OneLineStrip(lead, prefix, t, trail);
    ScoreLineScore(prefix, t);
    ReplyScore(lead + prefix + t + trail, ParsedScore(t));
  }

  /** Stripping such a reply leaves the plain text and the number. */
  lemma OneLineStrip(lead: string, prefix: string, t: string, trail: string)
    requires forall q :: 0 <= q < |lead| ==> IsSpace(lead[q])
    requires |prefix| > 0 && !IsSpace(prefix[0])
    requires IsNumber(t)
    requires forall q :: 0 <= q < |trail| ==> IsSpace(trail[q])
    ensures Strip(lead + prefix + t + trail) == prefix + t
  {
    var u := prefix + t;
    NumberEndsInDigit(t);
    assert u[0] == prefix[0];
    assert u[|u| - 1] == t[|t| - 1];
    StripSurroundingSpace(lead, u, trail);
    assert lead + prefix + t + trail == lead + u + trail;
  }

  /** The start of the score line the prompt asks for. */
  const RequestedPrefix := "**" + ScoreMarker + "** "

  /** The score line the prompt asks for: "**Rationality Score:** X.X"
      followed by two spaces. */
  function RequestedScoreLine(t: string): string {
    RequestedPrefix + t + "  "
  }

  lemma RequestedPrefixPlain()
    ensures forall q :: 0 <= q < |RequestedPrefix| ==> IsPlain(RequestedPrefix[q]) && RequestedPrefix[q] != '\n'
    ensures Contains(RequestedPrefix, ScoreMarker)
  {
    assert RequestedPrefix[2..2 + |ScoreMarker|] == ScoreMarker;
    assert OccursAt(RequestedPrefix, ScoreMarker, 2);
  }

  /** A reply whose lines before the score line do not mention the marker,
      and whose score line is the requested one, scores the number on that
      line, whatever the lines after it. */
  lemma FormattedReplyScore(output: string, before: seq<string>, t: string, after: seq<string>)
    requires Lines(output) == before + [RequestedScoreLine(t)] + after
    requires forall i :: 0 <= i < |before| ==> !Contains(before[i], ScoreMarker)
    requires IsNumber(t)
    ensures ExtractScore(output) == Success(ParsedScore(t))
  {
    var line := RequestedScoreLine(t);
    assert line in Lines(output);
    forall q | 0 <= q < |t| ensures t[q] != '\n' {
      assert t[q] == line[|RequestedPrefix| + q];
    }
    RequestedPrefixPlain();
    PlainScoreLine(RequestedPrefix, t, "  ");
    ScoreOfLines(output, before, line, after, Match(|RequestedPrefix|, |t|));
  }

  /** A reply in the requested format scores the number on its score line:
      the lines of the stripped reply are those before the score line (the
      "---" line, which does not mention the marker), the line
      "**Rationality Score:** X.X  " and the sections after it. */
  lemma RequestedFormatScore(text: string, before: seq<string>, t: string, after: seq<string>)
    requires Lines(Strip(text)) == before + [RequestedScoreLine(t)] + after
    requires forall i :: 0 <= i < |before| ==> !Contains(before[i], ScoreMarker)
    requires IsNumber(t)
    ensures ParseReply(text).Success? && ParseReply(text).value.score == ParsedScore(t)
  {
    FormattedReplyScore(Strip(text), before, t, after);
    ReplyScore(text, ParsedScore(t));
  }

  /** The score is not clamped to [0, 1]: a reply that is the marker, a
      space and a run of digits scores the value of those digits, however
      large. */
  lemma ScoreNotClamped(digits: string)
    requires Integer(digits)
    ensures var r := ParseReply(ScoreMarker + " " + digits);
            && r.Success?
            && r.value.score == ParsedScore(digits)
            && ScoreValue(r.value.score) == DigitsValue(digits) as real
  {
    var prefix := ScoreMarker + " ";
    assert OccursAt(prefix, ScoreMarker, 0) by {
      assert prefix[..|ScoreMarker|] == ScoreMarker;
    }
    assert '\n' !in digits by {
      forall q | 0 <= q < |digits| ensures digits[q] != '\n' {
        assert IsDigit(digits[q]);
      }
    }
    var text := prefix + digits;
    assert IsStripped(text) by {
      NumberEndsInDigit(digits);
      assert text[|text| - 1] == digits[|digits| - 1];
    }
    ScoreLineScore(prefix, digits);
    ReplyScore(text, ParsedScore(digits));
    IntegerValue(digits);
  }

}
