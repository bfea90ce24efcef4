# AI Debate Coach: the `/evaluate-argument` reply parser, in Dafny

This project models the core of the AI Debate Coach backend: the
`/evaluate-argument` handler of `app.py`. The handler checks the JSON request
body, asks a language model to evaluate the argument, and turns the model's
free-text reply into a three-field JSON answer. The answer holds a
rationality score, the reasoning for the score, and feedback. The model is
written as pure functions over `string`, with lemmas about them.

- `wrappers.dfy` (`Wrappers`): `Option` and `Result`.
- `text.dfy` (`Text`): the Python string operations the parser uses.
  These are `str.strip()` (with Python's full `str.isspace` character set),
  `sub in s`, `str.find` and `str.split("\n")`, with `Join` as the inverse
  of `Split`.
- `number_pattern.dfy` (`NumberPattern`): the pattern `[-+]?\d*\.\d+|\d+`.
  The language of the pattern is written as predicates, one per piece of
  the regular expression. `Search` models `re.search` the way the
  backtracking engine runs it. `Value` gives the exact decimal value that
  `float()` reads.
- `evaluate_argument.dfy` (`EvaluateArgument`): the request body as a JSON
  value with Python truthiness and `in`, plus `Validate`, `ExtractScore`,
  `ExtractSection`, `ParseOutput`, `ParseReply`, `Respond`, `Status` and `Payload`.

The language-model call is an input to the model. `ModelOutcome` is either
an exception message or a reply, given as a "has parts" flag and the reply
text.

The model follows the code:

- Only the presence of the keys `text` and `topic` is checked. Empty
  strings, and values that are not strings, pass validation (`Validate`).
- The score is not clamped to [0, 1] (`ScoreNotClamped`). The pattern also
  accepts a leading sign on a decimal.
- The score is the leftmost number anywhere in the first line that
  mentions `Rationality Score:`. This includes a number standing before the
  marker.
- Both text fields run from their marker to the end of the reply, so they
  overlap (`FeedbackWithinReasoning`). No `improved_argument` field is ever
  produced (`Payload`).

## Model

| member | source | states |
|---|---|---|
| `Text.Strip` | app.py:88 | The result is the slice of the input between a leading and a trailing run of white space. It neither starts nor ends with white space. A text that neither starts nor ends with white space is returned unchanged. |
| `Text.StripSurroundingSpace` | app.py:88 | White space of any kind on either side of a non-empty text with no white space at its ends is removed, and nothing else is. |
| `Text.Find` | app.py:95 | Returns -1 exactly when the marker does not occur. Otherwise returns the lowest index at which it occurs. |
| `Text.Split` | app.py:91 | Splitting on "\n" gives at least one piece. No piece contains the separator. Joining the pieces with the separator gives back the text. |
| `Text.SplitJoin` | app.py:91 | The other direction of the round trip: joining pieces that hold no separator and splitting the result gives the pieces back. |
| `Text.FirstContaining` | app.py:91 | The generator finds nothing exactly when no line contains the marker. Otherwise it finds the first line that does. |
| `Text.SplitContains` | app.py:91 | Take a marker that holds no separator. Some line of `split(sep)` contains it exactly when the whole text does. |
| `NumberPattern.MatchAtCorrect` | app.py:92 | `MatchAt` tries the decimal alternative first, then the integer one, as the backtracking engine does at one position. Its match is the longest string of the pattern there, and there is none exactly when no string of the pattern starts there. |
| `NumberPattern.SearchIsLeftmostLongest` | app.py:92 | `Search` (`re.search`) returns a given position and length exactly when that string is of the pattern, none starts earlier, and none at that position is longer. |
| `NumberPattern.LeftmostLongestUnique` | app.py:92 | At most one string is leftmost and longest, so the declarative description determines the match. |
| `NumberPattern.SearchFailsIffNoDigit` | app.py:92 | `re.search` returns None exactly when the line holds no digit. |
| `NumberPattern.SignBeforeIntegerSkipped` | app.py:92 | A sign in front of a plain run of digits is not part of the match. |
| `NumberPattern.SearchAfterPlainPrefix` | app.py:92 | After text with no digit, sign or point, a string of the pattern is the whole match when the text after it is empty or starts with neither a digit nor a point. |
| `NumberPattern.SearchExamples` | app.py:92 | "-1" matches as "1", and "-0.3" matches whole. |
| `NumberPattern.IntegerValue` | app.py:92 | `float()` of a run of digits is the number those digits denote. |
| `NumberPattern.DecimalValue` | app.py:92 | `float()` of digits, a point and more digits is the digits read as one integer, divided by ten to the number of digits after the point. |
| `NumberPattern.SignedValue` | app.py:92 | A leading "-" negates the value and a leading "+" leaves it unchanged. |
| `NumberPattern.ValueExamples` | app.py:92 | "0.7" and "-0.3" have the exact values 0.7 and -0.3. |
| `NumberPattern.NumberEndsInDigit` | app.py:92 | Every string of the pattern ends in a digit. |
| `EvaluateArgument.ValidationExamples` | app.py:48-52 | Python truthiness and `in` on concrete bodies. `None`, `{}`, `0`, a list without "topic" and a str without "text" are rejected. `7` raises a TypeError in the `in` test itself. The list `["text", "topic"]` and the str "topic text" pass the validation and raise on `data["topic"]`. A dict with both keys is accepted whatever their values. |
| `EvaluateArgument.Validate` | app.py:47-52 | A body is accepted exactly when it is a dict with both keys, whatever their values. It is rejected exactly when it is falsy or is a container lacking a key. An accepted body yields `data["topic"]` and `data["text"]`. |
| `EvaluateArgument.ExtractScore` | app.py:91-92 | A failure carries the message of `None.group()`. A parsed score is a string of the pattern. |
| `EvaluateArgument.ParseOutput` | app.py:91-100 | Parsing the stripped reply fails only with the `None.group()` message, raised while extracting the score. |
| `EvaluateArgument.ParseReply` | app.py:88-103 | The only failure is the `None.group()` message, raised while extracting the score. |
| `EvaluateArgument.StrippedReply` | app.py:88 | The parsed text has no white space at either end, and a reply already without it is parsed as it stands. |
| `EvaluateArgument.ParsedScoreOf` | app.py:91-100 | Parsing succeeds exactly when extracting the score does, and then carries that score. |
| `EvaluateArgument.ReplyScore` | app.py:88-92 | Whatever score the stripped reply gives is the score of the parsed reply. |
| `EvaluateArgument.Respond` | app.py:47-109 | Rejected body: 400 "No text or topic provided". Raising body: the framework's 500. Model exception: 500 with its message. No parts or empty text: 400 with the content-restrictions message, and no parsing. A reply that fails to parse: 500 with the message of `None.group()`. Success exactly when the reply parses, carrying the parsed fields. |
| `EvaluateArgument.Status` | app.py:49-109 | Status 200 exactly for a successful evaluation. 400 exactly for a bad-request error. 500 for the other failures. |
| `EvaluateArgument.Payload` | app.py:102-109 | A success carries exactly the keys `rationality_score`, `reason_for_score` and `feedback`, so never `improved_argument`. An error carries exactly `error`. The framework's 500 page carries no JSON. |
| `EvaluateArgument.ScoreDefaultIffNoMarker` | app.py:91-92 | The score is the 0.5 default exactly when "Rationality Score:" does not occur in the stripped reply. |
| `EvaluateArgument.ScoreFromFirstScoreLine` | app.py:91-92 | Take the first line that mentions "Rationality Score:". The score is that line's leftmost-longest string of the pattern. |
| `EvaluateArgument.ScoreFailsIffNoDigit` | app.py:91-92 | Extracting the score fails exactly when the first line that mentions the marker holds no digit. |
| `EvaluateArgument.SectionAtFirstMarker` | app.py:95-100 | `ExtractSection`: without the marker, the section is the placeholder. Otherwise it is the stripped suffix from the first occurrence of the marker. |
| `EvaluateArgument.SectionFromMarker` | app.py:95-100 | In a text that does not end in white space, a section is the suffix from the first occurrence of its marker, since the trailing `.strip()` changes nothing. Without the marker, the section is the placeholder. |
| `EvaluateArgument.ReasonForScoreFromMarker` | app.py:95-96 | `reason_for_score` is the stripped reply from the first "**Reasoning for Score:**" to its end, or "No reasoning provided.". |
| `EvaluateArgument.FeedbackFromMarker` | app.py:99-100 | `feedback` is the stripped reply from the first "**Feedback:**" to its end, or "No feedback provided.". |
| `EvaluateArgument.FeedbackWithinReasoning` | app.py:95-100 | When the reasoning marker comes first, `feedback` is a suffix of `reason_for_score`. |
| `EvaluateArgument.PlainScoreLine` | app.py:92 | On a line of plain text that mentions the marker, then a number, then text that neither continues the number nor breaks the line, the search matches exactly that number. |
| `EvaluateArgument.ScoreOfLines` | app.py:91-92 | When the reply's lines are some lines without the marker, then a line with it, then any lines, the score is what the search finds on that line. |
| `EvaluateArgument.ScoreLineScore` | app.py:91-92 | A one-line text made of plain text that mentions the marker, followed by a number, scores that number. |
| `EvaluateArgument.OneLineReplyScore` | app.py:88-92 | A one-line reply made of plain text that mentions the marker, followed by a number, parses to that number. Any white space before and after it is stripped first and changes nothing. |
| `EvaluateArgument.FormattedReplyScore` | app.py:91-92 | When the lines before the requested score line "**Rationality Score:** X.X  " (app.py:69) do not mention the marker, the score is X.X, whatever the lines after it. |
| `EvaluateArgument.RequestedFormatScore` | app.py:67-92 | A reply in the requested format parses, and its score is X.X. The format is: lines without the marker (the "---" line), then "**Rationality Score:** X.X  ", then any lines (the reasoning, feedback and improved-argument sections). |
| `EvaluateArgument.ScoreNotClamped` | app.py:92 | The marker, a space and any run of digits score exactly the value of those digits, however large. |

## Left out

- `speech_to_text` (app.py:23-42) is not modelled. It is file I/O on a shared `input.wav`, audio decoding and a call to an external speech service.
- The language-model call and its configuration (app.py:12-14, 80) are not modelled. The call's outcome is an input: an exception message, or a reply given as a "has parts" flag and its text.
- Building the prompt (app.py:55-77) is not modelled. It is a text template, and the handler uses the topic and the argument only there.
- Rounding to a double is not modelled. `Value` is the exact decimal that `float()` rounds, so a lexeme too large for a double (which Python reads as infinity) is not distinguished.
- Routing, `jsonify`, `home`, the environment settings and `app.run` (app.py:8-21, 111-113) are not modelled. They are framework plumbing.
- frontend.py is not part of this model. It is a user interface whose only logic is presentation fallbacks.
- How `request.get_json()` treats a request that is not JSON depends on the framework version, and is not modelled. The body is the parsed JSON value, and a JSON `null` is `JNull`.
- `EvaluateArgument.Json` keeps JSON numbers as integers. The truthiness of non-integer numbers, such as `0.0` being falsy, is not captured.
- `NumberPattern.Search` matches only the ASCII digits. Python's `\d` on a `str` also matches other Unicode decimal digits.
- `Text.IsSpace` lists the characters for which Python's `str.isspace` holds. It is fixed at the Unicode data of current Python versions.
