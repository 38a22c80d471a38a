/**
 * The mock fraud score of logic/fraud-analysis.js. The payload is any
 * JSON value or `undefined`; the score looks at `payload?.message` through
 * two case-insensitive regular-expression tests, which first turn their
 * argument into a string the way JavaScript does.
 */
module FraudAnalysis {
  import opened Wrappers
  import opened Models
  import opened Text
  import opened Numerals

  /**
   * `payload?.message`, with None for `undefined`: a missing or null
   * payload, a payload that is not an object, and an object without a
   * `message` field all give `undefined`.
   */
  function MessageOf(payload: Option<Json>): (m: Option<Json>)
    ensures m.Some? <==> payload.Some? && payload.value.JObject? && "message" in payload.value.fields
    ensures m.Some? ==> m.value == payload.value.fields["message"]
  {
    match payload
    case Some(JObject(fields)) => if "message" in fields then Some(fields["message"]) else None
    case _ => None
  }

  /** JavaScript's `String(v)` for a JSON value (integral numbers only). */
  function JsString(v: Json): (s: string)
    ensures v.JNull? ==> s == "null"
    ensures v.JString? ==> s == v.s
    ensures v.JNumber? ==> s == IntToString(v.n) && ParseInt(s) == Some(v.n)
    ensures v.JBool? ==> (s == "true" <==> v.b) && (s == "false" <==> !v.b)
    ensures v.JObject? ==> s == "[object Object]"
    ensures v.JArray? && v.items == [] ==> s == ""
    ensures v.JArray? && |v.items| == 1 && v.items[0] != JNull ==> s == JsString(v.items[0])
    decreases v
  {
    match v
    case JNull => "null"
    case JBool(b) => if b then "true" else "false"
    case JNumber(n) => IntToStringRoundTrip(n); IntToString(n)
    case JString(s) => s
    case JArray(items) => JoinItems(items)
    case JObject(_) => "[object Object]"
  }

  /** `Array.prototype.join(",")`: null elements become the empty text. */
  function JoinItems(items: seq<Json>): string
    decreases items
  {
    if items == [] then ""
    else
      var first := if items[0] == JNull then "" else JsString(items[0]);
      if |items| == 1 then first else first + "," + JoinItems(items[1..])
  }

  /** The text the regular expressions are matched against; `undefined` reads "undefined". */
  function RegexInput(payload: Option<Json>): string {
    match MessageOf(payload)
    case None => "undefined"
    case Some(v) => JsString(v)
  }

  /** `/word/i.test(text)` for a lower-case ASCII word. */
  predicate Mentions(text: string, word: string) {
    Contains(Lower(text), word)
  }

  /**
   * fraudScore: 10, plus 20 when "urgente" occurs, plus 15 when "batida"
   * occurs, in any letter case, capped at 100.
   */
  function FraudScore(payload: Option<Json>): (score: int)
    ensures 10 <= score <= 100
    ensures score in {10, 25, 30, 45}
    ensures score == 30 || score == 45 <==> Mentions(RegexInput(payload), "urgente")
    ensures score == 25 || score == 45 <==> Mentions(RegexInput(payload), "batida")
  {
    var text := RegexInput(payload);
    var score := 10;
    var score := if Mentions(text, "urgente") then score + 20 else score;
    var score := if Mentions(text, "batida") then score + 15 else score;
    if score < 100 then score else 100
  }

  /** A payload without a message, or with a null one, scores 10. */
  lemma NoMessageScoresTen(payload: Option<Json>)
    requires MessageOf(payload).None? || MessageOf(payload) == Some(JNull)
    ensures FraudScore(payload) == 10
  {
    var text := RegexInput(payload);
    assert text == "undefined" || text == "null";
    LowerWithoutCapitals(text);
    NeitherWordMentioned(text);
  }

  /** A lower-case text without 'r' and 'b' mentions neither word of the score. */
  lemma NeitherWordMentioned(text: string)
    requires Lower(text) == text && 'r' !in text && 'b' !in text
    ensures !Mentions(text, "urgente") && !Mentions(text, "batida")
  {
    MissingCharNotContained(text, "urgente", 'r');
    MissingCharNotContained(text, "batida", 'b');
  }

  /** Upper-casing a text message does not change its score. */
  lemma {:induction false} UpperCaseSameScore(fields: map<string, Json>, s: string)
    ensures FraudScore(Some(JObject(fields["message" := JString(Upper(s))])))
         == FraudScore(Some(JObject(fields["message" := JString(s)])))
  {
    LowerOfUpper(s);
  }
}
