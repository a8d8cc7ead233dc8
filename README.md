# Skill score generator: a Dafny model

The skill score generator compares a resume with a comma-separated list of job requirements. It reports the skills it finds, which requirements are matched or missing, a match percentage, suggestions, and short experience and education summaries. The analysis runs in two places, and this project models the core of both:

- **The Python backend** (`app.py`), on the path it takes when no spaCy language model is loaded:
  - keyword extraction of skills, experience lines and education lines;
  - parsing of the requirement list;
  - the split of requirements into matched and missing skills;
  - the match percentage and the improvement suggestions;
  - the `/analyze` handler that puts them together.
- **The serverless function** (`supabase/functions/analyze-resume/index.ts`), which asks an AI gateway for the analysis and normalises its reply:
  - locating the JSON text in the model's reply;
  - the whole-content fallback and its error messages;
  - the defaults applied to the result fields;
  - the mapping of gateway statuses and exceptions to HTTP responses;
  - the CORS preflight.

Modules, one per file:

- `wrappers.dfy` (`Wrappers`): `Option` and `Result`.
- `text.dfy` (`Text`): the Python string operations the backend relies on, on ASCII text.
  - `lower`, `strip`, substring `in`, `split` on one character, `join`;
  - subsequences and first-occurrence de-duplication.
- `extraction.dfy` (`Extraction`): `extract_skills`, `extract_experience` and `extract_education`, fallback branches. Each is a method with a loop, proved against a specification function.
- `matching.dfy` (`Matching`):
  - requirement parsing;
  - the matched/missing loop of `analyze_resume`;
  - `calculate_match_percentage`.
- `suggestions.dfy` (`Suggestions`): `generate_suggestions`.
- `analyzer.dfy` (`Analyzer`): `analyze_resume` from the resume text and the requirement string to the result record.
- `json.dfy` (`Json`): JSON values, JavaScript truthiness and property reads.
- `normalizer.dfy` (`ResponseNormalizer`):
  - the brace-span regular expression;
  - the parse fallback;
  - the field defaults.
- `handler.dfy` (`AnalyzeResumeFunction`): the `serve` handler.

Conventions of the model:

- **Whitespace** is Python's `str.isspace` on ASCII: tab through carriage return, the separators 0x1C to 0x1F, and space.
- **Lowering** maps `A`-`Z` to `a`-`z`.
- **Match percentage** is the exact rational `matched / len(required) * 100`.
- **The runtime's `JSON.parse` and `JSON.stringify`** are parameters of the TypeScript model. `parse` yields `None` where `JSON.parse` throws.
- **External inputs are parameters**: the request body, the `LOVABLE_API_KEY` environment variable and the gateway's reply (`Upstream`).
- **Runtime errors.** An exception the JavaScript engine raises is the single value `Failure.RuntimeError`. Its message text is the engine's own. Such exceptions come from:
  - `req.json()` on a body that is not JSON;
  - destructuring `null`;
  - a `fetch` network failure;
  - `response.json()` on a gateway reply whose body is not JSON;
  - reading a property of `null`;
  - calling `match` on a non-string;
  - assigning a property on a primitive in strict-mode code.

  Like every other exception, it becomes a 500 response.
- **A non-object analysis value.**
  - `null`, a boolean, a number or a string makes the field defaults throw. These cases are modelled as `RuntimeError`.
  - An array gains the fields as properties, but `JSON.stringify` drops them. So an array is returned unchanged.

Observations the proofs make explicit:

- The backend's response and its suggestions use different notions of "missing".
  - The response treats a requirement as missing when no extracted skill contains it or is contained in it.
  - The suggestions treat a requirement as missing when no extracted skill equals it ignoring case.
  - `Analyzer.MissingIsMissingExactly` shows that the first is the stricter one.
- `Matching.CountAgreesWithMissing` relates the matched count in `calculate_match_percentage` to the partition loop. The count is exactly the number of requirements the loop does not list as missing, because the handler only passes stripped strings to it.
- The whole-content fallback of the serverless function runs only on a reply with no `{` followed later by a `}`. A reply whose text is a JSON object always has such a pair. So, for a correct parser, the fallback never yields an object. It can only yield an array or a primitive.

## Model

| member | source | states |
|---|---|---|
| Text.StripLeftSpec | app.py:108 | `lstrip` drops exactly the leading whitespace and leaves a result that does not start with whitespace |
| Text.StripRightSpec | app.py:108 | `rstrip` drops exactly the trailing whitespace and leaves a result that does not end with whitespace |
| Text.StripIsInfix | app.py:283 | `strip()` yields a stripped infix of its input with only whitespace around it |
| Text.StripStripped | app.py:283 | the stripped text is stripped and contains only characters of the input |
| Text.StripIdempotent | app.py:158-159 | stripping twice is stripping once |
| Text.SplitPiecesAvoidSep | app.py:283 | no piece of `split(',')` contains a comma |
| Text.SplitAtSep | app.py:283 | the pieces of `a + sep + b` are the pieces of `a` followed by the pieces of `b` |
| Text.SplitWithoutSep | app.py:283 | text without the separator splits into itself alone |
| Text.JoinSplit | app.py:104 | joining the pieces of `split(sep)` with `sep` gives back the text |
| Text.Dedup | app.py:323 | `list(set(...))`: no repeats, and the same elements as the input |
| Extraction.AllSkillsStripped | app.py:35-48 | every entry of the skill table is non-empty and stripped |
| Extraction.SkillHitsSpec | app.py:59-63 | a table entry is found iff its lower-case form occurs in the lowered text; hits keep table order |
| Extraction.ExtractSkills | app.py:55-64 | fallback skill extraction returns exactly the table entries occurring in the lowered text, technical before soft, in table order |
| Extraction.KeywordLinesOrder | app.py:104-108 | at most one kept line per input line, in line order, each stripped |
| Extraction.KeywordLinesConcat | app.py:104-108 | keyword lines are collected line by line: concatenated line lists give concatenated results, so a line written twice is kept twice |
| Extraction.KeywordLinesOfLine | app.py:104-108 | one line is kept, stripped, exactly when it mentions a keyword |
| Extraction.KeywordLinesMembership | app.py:104-108 | a stripped line is kept iff some line that strips to it mentions a keyword |
| Extraction.CollectKeywordLines | app.py:104-108 | the line loop collects exactly the stripped lines that mention a keyword |
| Extraction.ExtractExperience | app.py:102-109 | the first three keyword lines joined by a space, or the fixed default when there are none |
| Extraction.ExtractEducation | app.py:128-135 | the first two keyword lines joined by a space, or the fixed default when there are none |
| Matching.NonBlankEntries | app.py:283 | every kept requirement is non-empty, stripped and free of the separator |
| Matching.NonBlankOrder | app.py:283 | kept requirements appear in the order of their pieces |
| Matching.NonBlankKeeps | app.py:283 | every piece that is not blank after stripping is kept |
| Matching.ParseRequirementsSpec | app.py:283 | parsed requirements are non-empty, stripped, comma-free and in piece order, and the stripped form of every non-blank piece is among them |
| Matching.NonBlankConcat | app.py:283 | dropping blank pieces works piece by piece: on concatenated piece lists it gives the concatenated results |
| Matching.ParseRequirementsAtComma | app.py:283 | the requirements of `a,b` are those of `a` followed by those of `b`, so a requirement written twice is kept twice |
| Matching.ParseRequirementsOfPiece | app.py:283 | text without a comma gives its stripped form as the one requirement, or nothing when it is blank |
| Matching.FirstExact | app.py:299-302 | finds a skill equal to the requirement ignoring case iff one exists |
| Matching.FirstOverlap | app.py:306-310 | finds a skill overlapping the requirement ignoring case iff one exists |
| Matching.FirstExactAt | app.py:299-302 | the exact-match scan stops at the earliest equal skill |
| Matching.FirstOverlapAt | app.py:306-310 | the partial-match scan stops at the earliest overlapping skill |
| Matching.ResolveSpec | app.py:295-312 | a requirement is matched iff some extracted skill overlaps it ignoring case, and then with one that does |
| Matching.PartitionSizes | app.py:295-312 | each requirement adds exactly one entry to matched or to missing |
| Matching.MissingOrder | app.py:303-312 | missing requirements keep the requirement order |
| Matching.MissingMembership | app.py:303-312 | a requirement is missing iff no extracted skill contains it or is contained in it, ignoring case |
| Matching.MatchedFromSkills | app.py:295-310 | every matched skill is an extracted skill |
| Matching.PartitionRequirements | app.py:291-312 | the nested loops with `break` and the `found` flag build exactly the matched and missing lists specified above |
| Matching.MatchCount | app.py:162-172 | the count of matched requirements never exceeds the number of requirements |
| Matching.CalculateMatchPercentage | app.py:150-175 | 0 for no requirements, otherwise the matched share times 100, and always within 0..100 |
| Matching.SearchOverlap | app.py:169-172 | the partial-match scan reports a hit iff some normalised resume skill contains the requirement or is contained in it |
| Matching.PercentBounds | app.py:174 | a part of a whole, as a percentage, lies in 0..100 |
| Matching.NormalizedOfStripped | app.py:158-159 | normalising stripped skills only lowers them |
| Matching.CountedIffResolved | app.py:163-172 | the percentage counts a stripped requirement iff the partition matches it |
| Matching.CountAgreesWithMissing | app.py:150-175 | on stripped inputs the matched count equals the number of requirements minus the missing ones |
| Suggestions.MissingExactlySpec | app.py:184-185 | the suggestion's missing list holds exactly the requirements with no case-insensitive equal skill, in order |
| Suggestions.MissingExactlyConcat | app.py:184-185 | the filter works requirement by requirement: concatenated requirement lists give concatenated results, so a requirement written twice is listed twice |
| Suggestions.MissingExactlyOfOne | app.py:184-185 | one requirement is listed exactly when no resume skill equals it ignoring case |
| Suggestions.ExpectedShape | app.py:182-203 | three to five suggestions, the last two being the fixed reminders |
| Suggestions.ExpectedAdvisesLowScore | app.py:187-188 | the low-score advice appears iff the score is below 60 |
| Suggestions.ExpectedNamesMissing | app.py:190-191 | a "Focus on learning" line appears iff some requirement is missing, naming the first three at most |
| Suggestions.ExpectedHasOneTier | app.py:193-198 | exactly the tier message picked by the 80 and 60 thresholds appears |
| Suggestions.FocusLineIsFocus | app.py:191 | the missing-skills line starts with its prefix |
| Suggestions.GenerateSuggestions | app.py:178-203 | the appended list equals the specified suggestion list; it has three to five lines, so the cut to five drops nothing |
| Analyzer.AnalyzeResume | app.py:276-331 | empty resume text is refused with its message; otherwise the record holds the extracted skills, a de-duplicated matched list, the missing list, the percentage of requirements not missing, the suggestions, and the experience and education summaries exactly as the two extractors build them |
| Analyzer.MissingFacts | app.py:303-312 | the response's missing list keeps requirement order and holds exactly the requirements no extracted skill overlaps |
| Analyzer.MissingIsMissingExactly | app.py:303-312 | a requirement the response lists as missing is also missing for the suggestions |
| Json.Member | supabase/functions/analyze-resume/index.ts:78-82 | a property read throws exactly on `null`, yields an object's own field when it is present, and nothing otherwise |
| ResponseNormalizer.IndexOf | supabase/functions/analyze-resume/index.ts:89 | the position of the first occurrence, or the length when absent |
| ResponseNormalizer.LastIndexOf | supabase/functions/analyze-resume/index.ts:89 | the position of the last occurrence, or -1 when absent |
| ResponseNormalizer.BraceSpanIsRegexMatch | supabase/functions/analyze-resume/index.ts:89 | the greedy brace pattern finds nothing iff no `{` precedes a `}`, and otherwise the leftmost, then longest, match |
| ResponseNormalizer.BraceSpanOfObjectText | supabase/functions/analyze-resume/index.ts:89 | text that opens with `{` and closes with `}` matches as a whole |
| ResponseNormalizer.DefaultList | supabase/functions/analyze-resume/index.ts:110-112 | a falsy or non-array field becomes `[]`, an array is kept, other fields are untouched |
| ResponseNormalizer.DefaultNumber | supabase/functions/analyze-resume/index.ts:119-121 | a non-number percentage becomes 0, a number is kept, other fields are untouched |
| ResponseNormalizer.CoerceListFields | supabase/functions/analyze-resume/index.ts:110-124 | after the defaults each list field is the array it held, even an empty one, or `[]` |
| ResponseNormalizer.CoerceKeys | supabase/functions/analyze-resume/index.ts:109-124 | the defaults add exactly the five result fields to the keys |
| ResponseNormalizer.CoercePercentage | supabase/functions/analyze-resume/index.ts:119-121 | the percentage is the number it held, or 0 |
| ResponseNormalizer.CoerceOtherFields | supabase/functions/analyze-resume/index.ts:109-124 | every other field, including both summaries, is unchanged |
| ResponseNormalizer.CoerceSpec | supabase/functions/analyze-resume/index.ts:109-124 | the four facts above together |
| ResponseNormalizer.CoerceKeepsSchemaObject | supabase/functions/analyze-resume/index.ts:109-124 | an object with four arrays and a number in place comes through unchanged |
| ResponseNormalizer.CoerceIdempotent | supabase/functions/analyze-resume/index.ts:109-124 | the defaults give an object of the schema, and applying them twice is applying them once |
| ResponseNormalizer.NormalizeLocatedSpan | supabase/functions/analyze-resume/index.ts:101-107 | with a brace span, a span that does not parse fails with the parse message, and an object in it is returned defaulted |
| ResponseNormalizer.NormalizeNoJson | supabase/functions/analyze-resume/index.ts:92-98 | with no span and no whole-content parse, the failure is the extraction message plus the first 200 characters |
| ResponseNormalizer.NormalizeWholeContent | supabase/functions/analyze-resume/index.ts:92-103 | with no span, a content that parses is taken as its parsed value when parse undoes stringify |
| ResponseNormalizer.NormalizeIdempotent | supabase/functions/analyze-resume/index.ts:89-124 | the text of a normalised object normalises to itself |
| AnalyzeResumeFunction.NatToString | supabase/functions/analyze-resume/index.ts:73 | the status is written as a non-empty string of decimal digits |
| AnalyzeResumeFunction.DecimalRoundTrip | supabase/functions/analyze-resume/index.ts:73 | reading the numeral back gives the status, and it has no leading zero |
| AnalyzeResumeFunction.NatToStringInjective | supabase/functions/analyze-resume/index.ts:73 | different statuses give different error messages |
| AnalyzeResumeFunction.ReadContent | supabase/functions/analyze-resume/index.ts:76-86 | a content read is a non-empty string found at `choices[0].message.content`; a `null` reply throws; a reply of any other type with falsy or empty `choices` is an invalid format |
| AnalyzeResumeFunction.ReadContentOfReply | supabase/functions/analyze-resume/index.ts:82-89 | for any reply that passes the three truthiness checks, whatever the types on the way: a falsy content is the empty-response error, a non-empty string is the content, any other value throws |
| AnalyzeResumeFunction.ReadContentOfOddShapes | supabase/functions/analyze-resume/index.ts:78-82 | a `null` or string first choice and an array reply are invalid formats, and `choices` given as an object with field "0" is read like an array |
| AnalyzeResumeFunction.ReadContentWithoutMessage | supabase/functions/analyze-resume/index.ts:78-80 | any reply with truthy `choices` whose first choice, or that choice's message, is falsy or absent is an invalid format |
| AnalyzeResumeFunction.Process | supabase/functions/analyze-resume/index.ts:58-70 | an early error response only ever passes on a gateway status of 402 or 429 |
| AnalyzeResumeFunction.Handle | supabase/functions/analyze-resume/index.ts:8-144 | preflight gets 200 with the CORS headers and no body; other requests get the JSON headers, a status among 200, 402, 429 and 500, and an error body iff the status is not 200 |
| AnalyzeResumeFunction.GatewayStatusMapping | supabase/functions/analyze-resume/index.ts:58-74 | gateway 429 and 402 pass through with their messages; any other non-ok status is a 500 naming it |
| AnalyzeResumeFunction.MissingKeyResponse | supabase/functions/analyze-resume/index.ts:17-20 | without the key the answer is the 500 naming it, whatever the gateway would say |
| AnalyzeResumeFunction.MalformedReplyResponses | supabase/functions/analyze-resume/index.ts:78-86 | for any `ok` reply that is not `null`: falsy `choices`, or a falsy first choice or message, gives a 500 with the invalid-format message, and a falsy content a 500 with the empty-response message |
| AnalyzeResumeFunction.ContentReplyOutcome | supabase/functions/analyze-resume/index.ts:76-143 | an `ok` reply whose content reads is answered 200 with the normalised analysis, or 500 with the normalisation's error |
| AnalyzeResumeFunction.SuccessfulAnalysis | supabase/functions/analyze-resume/index.ts:76-131 | any `ok` reply that passes the checks and whose content is a non-empty string with an object in braces is answered 200 with that object, defaulted to the schema |
| AnalyzeResumeFunction.ErrorMessagesAreKnown | supabase/functions/analyze-resume/index.ts:133-143 | every error message the function writes is one of its fixed messages or starts with its gateway or extraction prefix |

## Left out

- The spaCy branches of `extract_skills`, `extract_experience` and `extract_education` (app.py:66-95, 111-121, 137-147). They depend on a foreign language model.
- Matching.CalculateMatchPercentage: returns the exact percentage, not `round(percentage, 2)`, because floating point is not modelled. Rounding could move a score of at least 59.995 across the 60 threshold, or one of at least 79.995 across the 80 threshold, in `generate_suggestions`, but only with at least 4000 requirements.
- Analyzer.AnalyzeResume: takes the resume text and the requirement string directly. It does not model:
  - Flask's request parsing;
  - the `No data provided` 400;
  - `data.get` defaults;
  - non-string fields;
  - the HTTP status codes 400 and 500.

  Its failure carries the message only.
- Analyzer.AnalyzeResume: the order of `list(set(matched_skills))` is unspecified in Python. The contract states the elements and the absence of repeats, not the order. The body uses first-occurrence order.
- Whitespace and case beyond ASCII: `str.isspace` and `str.lower` on non-ASCII characters are not modelled.
- ResponseNormalizer.Head200: JavaScript's `substring` counts UTF-16 code units, while Dafny characters are code points. The two agree on text without characters outside the Basic Multilingual Plane.
- The `/upload`, `/health` and `/` routes of the backend, and the React front end. They are outside the analysis core.
- Deno's `serve`, `Deno.env.get` and the `fetch` to the AI gateway, including the prompt text and `console` logging. The key, the reply and the network outcome are parameters instead.
- The bodies of `JSON.parse` and `JSON.stringify`, which are parameters. Serialisation of the response body is also left out: the body is the JSON value itself.
- The engine's message texts for `TypeError` and `SyntaxError`, which are collapsed into `RuntimeError`.
- JavaScript `NaN`, which is falsy. Numbers are modelled as reals.
- The fallback message `Unknown error occurred`. It is unreachable, because every exception the function can meet is an `Error`.
- `await response.text()` on a failed gateway reply. It only feeds the log.
