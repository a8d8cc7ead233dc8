/** The part of the serverless function that turns the model's free-form
    reply into the analysis object: locate the JSON text, parse it, and
    default the result fields that are missing or of the wrong type.
    `JSON.parse` and `JSON.stringify` belong to the runtime; they are
    parameters here, `parse` answering `None` where `JSON.parse` throws. */
module ResponseNormalizer {
  import opened Wrappers
  import opened Json
  import opened Text

  // ---------------------------------------------------------------------
  // Locating the JSON text

  /** Index of the first `c` in `s`, or `|s|` when there is none. */
  function IndexOf(s: string, c: char): (r: nat)
    ensures r <= |s|
    ensures r < |s| ==> s[r] == c
    ensures forall i :: 0 <= i < r ==> s[i] != c
  {
    if s == [] then 0
    else if s[0] == c then 0
    else 1 + IndexOf(s[1..], c)
  }

  /** Index of the last `c` in `s`, or -1 when there is none. */
  function LastIndexOf(s: string, c: char): (r: int)
    ensures -1 <= r < |s|
    ensures r >= 0 ==> s[r] == c
    ensures forall i :: r < i < |s| ==> s[i] != c
  {
    if s == [] then -1
    else if s[|s| - 1] == c then |s| - 1
    else LastIndexOf(s[..|s| - 1], c)
  }

  /** What `content.match(/\{[\s\S]*\}/)` finds: the text from the first `{`
      to the last `}`, when some `}` follows the first `{`. */
  function BraceSpan(content: string): Option<string> {
    var i := IndexOf(content, '{');
    var j := LastIndexOf(content, '}');
    if i < j then Some(content[i..j + 1]) else None
  }

  /** `content[i..j + 1]` matches the pattern `\{[\s\S]*\}`: it opens with
      `{`, closes with `}`, and anything may stand in between. */
  predicate SpanMatches(content: string, i: int, j: int) {
    0 <= i < j < |content| && content[i] == '{' && content[j] == '}'
  }

  /** `BraceSpan` is the match a backtracking regular-expression engine
      reports for the pattern: none when no substring matches, otherwise the
      leftmost match and, of those starting there, the longest (the star is
      greedy). */
  lemma BraceSpanIsRegexMatch(content: string)
    ensures BraceSpan(content).None? <==> forall i, j :: !SpanMatches(content, i, j)
    ensures BraceSpan(content).Some? ==>
      exists i, j :: SpanMatches(content, i, j) && BraceSpan(content).value == content[i..j + 1] &&
        forall i', j' :: SpanMatches(content, i', j') ==> i < i' || (i == i' && j' <= j)
  {
    var i := IndexOf(content, '{');
    var j := LastIndexOf(content, '}');
    if i < j {
      assert SpanMatches(content, i, j);
    } else {
      forall i', j' ensures !SpanMatches(content, i', j') {
      }
    }
  }

  /** Text that already opens with `{` and closes with `}` is its own span. */
  lemma BraceSpanOfObjectText(t: string)
    requires |t| >= 2 && t[0] == '{' && t[|t| - 1] == '}'
    ensures BraceSpan(t) == Some(t)
  {
    assert t[0..|t|] == t;
  }

  // ---------------------------------------------------------------------
  // Field defaults

  const ExtractedSkills: string := "extractedSkills"
  const MatchedSkills: string := "matchedSkills"
  const MissingSkills: string := "missingSkills"
  const MatchPercentage: string := "matchPercentage"
  const Suggestions: string := "suggestions"

  /** Every field the defaults may touch. */
  const SchemaFields: set<string> := {ExtractedSkills, MatchedSkills, MissingSkills, MatchPercentage, Suggestions}

  /** `if (!a[k] || !Array.isArray(a[k])) a[k] = [];` */
  function DefaultList(a: map<string, Json>, k: string): (r: map<string, Json>)
    ensures r.Keys == a.Keys + {k}
    ensures r[k] == ListOrEmpty(a, k)
    ensures forall k' :: k' in a && k' != k ==> r[k'] == a[k']
  {
    var v := Lookup(a, k);
    if !Truthy(v) || !v.value.JArray? then a[k := JArray([])] else a
  }

  /** `if (typeof a[k] !== 'number') a[k] = 0;` */
  function DefaultNumber(a: map<string, Json>, k: string): (r: map<string, Json>)
    ensures r.Keys == a.Keys + {k}
    ensures r[k] == NumberOrZero(a, k)
    ensures forall k' :: k' in a && k' != k ==> r[k'] == a[k']
  {
    if k in a && a[k].JNumber? then a else a[k := JNumber(0.0)]
  }

  /** Field `k` of `r` is what the defaults make of field `k` of `a`. */
  predicate ListFieldCoerced(a: map<string, Json>, r: map<string, Json>, k: string) {
    k in r && r[k] == ListOrEmpty(a, k)
  }

  /** Field `k` of `a` holds an array. */
  predicate IsArrayField(a: map<string, Json>, k: string) {
    k in a && a[k].JArray?
  }

  /** The value a list field ends up with. */
  function ListOrEmpty(a: map<string, Json>, k: string): Json {
    if k in a && a[k].JArray? then a[k] else JArray([])
  }

  /** The value the percentage field ends up with. */
  function NumberOrZero(a: map<string, Json>, k: string): Json {
    if k in a && a[k].JNumber? then a[k] else JNumber(0.0)
  }

  /** The in-place defaults applied to the parsed analysis object, in the
      order the function applies them.  Each list field keeps an array it
      already holds, even an empty one, and becomes `[]` otherwise; the
      percentage keeps a number and becomes 0 otherwise; every other field,
      the two summaries included, is left as it was. */
  function Coerce(a: map<string, Json>): map<string, Json> {
    var a1 := DefaultList(a, ExtractedSkills);
    var a2 := DefaultList(a1, MatchedSkills);
    var a3 := DefaultList(a2, MissingSkills);
    var a4 := DefaultNumber(a3, MatchPercentage);
    DefaultList(a4, Suggestions)
  }

  /** The five result field names are pairwise different. */
  lemma FieldNamesDistinct()
    ensures ExtractedSkills != MatchedSkills && ExtractedSkills != MissingSkills
    ensures ExtractedSkills != MatchPercentage && ExtractedSkills != Suggestions
    ensures MatchedSkills != MissingSkills && MatchedSkills != MatchPercentage
    ensures MatchedSkills != Suggestions && MissingSkills != MatchPercentage
    ensures MissingSkills != Suggestions && MatchPercentage != Suggestions
  {
    assert ExtractedSkills[0] == 'e' && Suggestions[0] == 's';
    assert MatchedSkills[0] == 'm' && MissingSkills[0] == 'm' && MatchPercentage[0] == 'm';
    assert MatchedSkills[1] == 'a' && MissingSkills[1] == 'i';
    assert MatchedSkills[5] == 'e' && MatchPercentage[5] == 'P';
    assert MissingSkills[1] != MatchPercentage[1];
  }

  /** Each list field keeps an array it already holds, even an empty one,
      and is `[]` otherwise. */
  lemma CoerceListFields(a: map<string, Json>)
    ensures ListFieldCoerced(a, Coerce(a), ExtractedSkills) && ListFieldCoerced(a, Coerce(a), MatchedSkills)
    ensures ListFieldCoerced(a, Coerce(a), MissingSkills) && ListFieldCoerced(a, Coerce(a), Suggestions)
  {
    CoerceExtracted(a);
    CoerceMatched(a);
    CoerceMissing(a);
    CoerceSuggestions(a);
  }

  lemma CoerceExtracted(a: map<string, Json>)
    ensures ExtractedSkills in Coerce(a) && Coerce(a)[ExtractedSkills] == ListOrEmpty(a, ExtractedSkills)
  {
    FieldNamesDistinct();
  }

  lemma CoerceMatched(a: map<string, Json>)
    ensures MatchedSkills in Coerce(a) && Coerce(a)[MatchedSkills] == ListOrEmpty(a, MatchedSkills)
  {
    FieldNamesDistinct();
  }

  lemma CoerceMissing(a: map<string, Json>)
    ensures MissingSkills in Coerce(a) && Coerce(a)[MissingSkills] == ListOrEmpty(a, MissingSkills)
  {
    FieldNamesDistinct();
  }

  lemma CoerceSuggestions(a: map<string, Json>)
    ensures Suggestions in Coerce(a) && Coerce(a)[Suggestions] == ListOrEmpty(a, Suggestions)
  {
    FieldNamesDistinct();
  }

  /** The defaults add the schema fields when absent and leave every other
      field, the two summaries included, as it was; the percentage keeps a
      number and is 0 otherwise. */
  lemma CoerceSpec(a: map<string, Json>)
    ensures ListFieldCoerced(a, Coerce(a), ExtractedSkills) && ListFieldCoerced(a, Coerce(a), MatchedSkills)
    ensures ListFieldCoerced(a, Coerce(a), MissingSkills) && ListFieldCoerced(a, Coerce(a), Suggestions)
    ensures MatchPercentage in Coerce(a) && Coerce(a)[MatchPercentage] == NumberOrZero(a, MatchPercentage)
    ensures Coerce(a).Keys == a.Keys + SchemaFields
    ensures forall k :: k in a && k !in SchemaFields ==> Coerce(a)[k] == a[k]
  {
    CoerceListFields(a);
    CoerceKeys(a);
    CoercePercentage(a);
    CoerceOtherFields(a);
  }

  lemma CoerceKeys(a: map<string, Json>)
    ensures Coerce(a).Keys == a.Keys + SchemaFields
  {
  }

  lemma CoercePercentage(a: map<string, Json>)
    ensures MatchPercentage in Coerce(a) && Coerce(a)[MatchPercentage] == NumberOrZero(a, MatchPercentage)
  {
  }

  lemma CoerceOtherFields(a: map<string, Json>)
    ensures forall k :: k in a && k !in SchemaFields ==> Coerce(a)[k] == a[k]
  {
  }

  /** The object has the result schema at the top level: four arrays and a
      number where the defaults look. */
  predicate HasSchema(a: map<string, Json>) {
    IsArrayField(a, ExtractedSkills) && IsArrayField(a, MatchedSkills) &&
    IsArrayField(a, MissingSkills) && IsArrayField(a, Suggestions) &&
    MatchPercentage in a && a[MatchPercentage].JNumber?
  }

  /** An object that already has the schema comes through unchanged. */
  lemma CoerceKeepsSchemaObject(a: map<string, Json>)
    requires HasSchema(a)
    ensures Coerce(a) == a
  {
    CoerceListFields(a);
    CoercePercentage(a);
    CoerceKeys(a);
    CoerceOtherFields(a);
    var r := Coerce(a);
    assert r.Keys == a.Keys;
    assert r[ExtractedSkills] == a[ExtractedSkills] && r[MatchedSkills] == a[MatchedSkills];
    assert r[MissingSkills] == a[MissingSkills] && r[Suggestions] == a[Suggestions];
    assert r[MatchPercentage] == a[MatchPercentage];
  }

  /** Applying the defaults twice is the same as applying them once. */
  lemma CoerceIdempotent(a: map<string, Json>)
    ensures HasSchema(Coerce(a))
    ensures Coerce(Coerce(a)) == Coerce(a)
  {
    CoerceSpec(a);
    CoerceKeepsSchemaObject(Coerce(a));
  }

  /** Defaults on whatever `JSON.parse` produced.  An object gets the field
      defaults.  An array takes the new properties but `JSON.stringify` drops
      them, so it comes back as it was.  On `null` the first property read
      throws, and on a string, number or boolean the first property write
      throws in strict-mode code. */
  function CoerceValue(v: Json): (r: Result<Json, Failure>)
    ensures r.Success? <==> v.JObject? || v.JArray?
    ensures v.JObject? ==> r == Success(JObject(Coerce(v.fields)))
    ensures v.JArray? ==> r == Success(v)
  {
    match v
    case JObject(a) => Success(JObject(Coerce(a)))
    case JArray(_) => Success(v)
    case _ => Failure(RuntimeError)
  }

  // ---------------------------------------------------------------------
  // The whole normalisation

  const ExtractFailure: string := "Failed to extract JSON from AI response. Response: "
  const ParseFailure: string := "Failed to parse AI response as JSON"

  /** `content.substring(0, 200)`. */
  function Head200(content: string): (r: string)
    ensures |r| == Min(200, |content|) && r == content[..|r|]
    ensures |content| <= 200 ==> r == content
  {
    content[..Min(200, |content|)]
  }

  /** The text handed to the second `JSON.parse` (`jsonMatch[0]`): the brace
      span if there is one, else the whole content re-serialised when it
      parses, else the extraction failure quoting the start of the content. */
  function LocateSource(content: string, parse: string -> Option<Json>, stringify: Json -> string)
    : Result<string, Failure>
  {
    match BraceSpan(content)
    case Some(span) => Success(span)
    case None =>
      match parse(content)
      case Some(parsed) => Success(stringify(parsed))
      case None => Failure(Raised(ExtractFailure + Head200(content)))
  }

  /** From the model's reply to the analysis object the function returns. */
  function Normalize(content: string, parse: string -> Option<Json>, stringify: Json -> string)
    : Result<Json, Failure>
  {
    match LocateSource(content, parse, stringify)
    case Failure(e) => Failure(e)
    case Success(source) =>
      match parse(source)
      case None => Failure(Raised(ParseFailure))
      case Some(analysis) => CoerceValue(analysis)
  }

  /** A reply with a brace span is decided by that span alone: it fails with
      the parse message when the span is not JSON, and an object in it comes
      out with the field defaults applied. */
  lemma NormalizeLocatedSpan(content: string, parse: string -> Option<Json>, stringify: Json -> string)
    requires BraceSpan(content).Some?
    ensures var span := BraceSpan(content).value;
      (parse(span).None? ==> Normalize(content, parse, stringify) == Failure(Raised(ParseFailure))) &&
      (forall a :: parse(span) == Some(JObject(a)) ==>
         Normalize(content, parse, stringify) == Success(JObject(Coerce(a))))
  {
  }

  /** A reply with no brace span that does not parse as a whole fails with the
      extraction message followed by its first 200 characters. */
  lemma NormalizeNoJson(content: string, parse: string -> Option<Json>, stringify: Json -> string)
    requires BraceSpan(content).None? && parse(content).None?
    ensures Normalize(content, parse, stringify) == Failure(Raised(ExtractFailure + Head200(content)))
  {
  }

  /** A reply with no brace span that parses as a whole is treated as the
      value it parses to, provided the runtime's parse undoes its stringify. */
  lemma NormalizeWholeContent(content: string, parse: string -> Option<Json>, stringify: Json -> string,
                              v: Json)
    requires BraceSpan(content).None? && parse(content) == Some(v)
    requires parse(stringify(v)) == Some(v)
    ensures Normalize(content, parse, stringify) == CoerceValue(v)
  {
  }

  /** Feeding the function's own output back through it changes nothing: the
      text of a normalised object is its own brace span, and the defaults are
      idempotent. */
  lemma NormalizeIdempotent(a: map<string, Json>, parse: string -> Option<Json>, stringify: Json -> string)
    requires var t := stringify(JObject(Coerce(a)));
      |t| >= 2 && t[0] == '{' && t[|t| - 1] == '}'
    requires parse(stringify(JObject(Coerce(a)))) == Some(JObject(Coerce(a)))
    ensures Normalize(stringify(JObject(Coerce(a))), parse, stringify) == Success(JObject(Coerce(a)))
  {
    BraceSpanOfObjectText(stringify(JObject(Coerce(a))));
    CoerceIdempotent(a);
  }
}
