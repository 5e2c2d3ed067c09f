/** The structured-feedback path of `Task_2/llm.py`: the prompt builder,
    the extraction of one JSON object from a model completion, and the
    normalisation of that object into the three-field feedback record.

    The JSON parser (`json.loads`), Python's `str()` of a JSON value and
    the HTTP call to the model are not written out; they enter as function
    parameters, so every statement below holds for any parser, any
    rendering and any model, except `NormalizeScalarAction`, which assumes
    of the rendering only that a string renders as itself. */
module Llm {
  import opened Wrappers
  import opened PyStr

  /** A value produced by `json.loads`: `Array` is a Python list, `Object`
      a dict. Numbers are kept as their literal text. */
  datatype Json =
    | Null
    | Bool(b: bool)
    | Number(literal: string)
    | Str(s: string)
    | Array(items: seq<Json>)
    | Object(fields: JsonObject)

  type JsonObject = map<string, Json>

  /** The `LLMError` cases. The first two come from `call_llm`, the last
      two from `parse_llm_json`. */
  datatype LlmError =
    | MissingToken
    | ApiError(status: int, body: string)
    | NoJsonFound
    | MalformedJson

  // ---------------------------------------------------------------------
  // build_prompt

  /** The opening words of the prompt: the assistant's role. */
  const PromptRole: string := "You are an AI assistant"

  /** The rest of the template up to the rating: the inputs, the three
      tasks, the three required keys and their types, a worked example
      and the blank line before the rating. */
  const PromptInstructions: string :=
    " helping a business understand customer feedback.\n\nYou will receive:\n- A star rating (1 to 5)\n- A short free-text review\n\nYour tasks:\n1. Write a short, warm, user-facing reply directly to the customer.\n2. Summarise the essence of the review in <= 20 words.\n3. Suggest 2\U{2013}3 concrete next actions for the business.\n\nReturn ONLY a valid JSON object with these exact keys:\n- \"user_response\": string\n- \"summary\": string\n- \"actions\": array of strings\n\nExample of the required format:\n{\n  \"user_response\": \"Thank you for your feedback...\",\n  \"summary\": \"Customer loved the food but found service slow.\",\n  \"actions\": [\n    \"Train staff to reduce wait time\",\n    \"Monitor peak hours and add staff\"\n  ]\n}\n\nNow generate the JSON.\n\n"

  /** The template text up to the rating, after the leading newline that
      `.strip()` removes. */
  const PromptHead: string := PromptRole + PromptInstructions + RatingLabel

  const RatingLabel: string := "Rating: "

  /** Between the rating and the review: the line break and the opening
      triple quote. */
  const ReviewOpen: string := "\nReview: \"\"\""

  /** After the review: the closing triple quote (followed by a space in
      the template), a blank line and the `JSON:` cue. */
  const PromptTail: string := "\"\"\" \n\nJSON:"

  /** `build_prompt(rating, review)`: the f-string, which frames the text
      from the role sentence to `JSON:` with one line break on each side,
      with the rating and the review filled in, stripped. `strip()`
      removes only the template's own outer line breaks, so the review is
      embedded verbatim even when it starts or ends with whitespace. */
  function BuildPrompt(rating: int, review: string): (p: string)
    ensures p == PromptHead + IntToString(rating) + ReviewOpen + review + PromptTail
  {
    var m := PromptHead + IntToString(rating) + ReviewOpen + review + PromptTail;
    assert m[0] == 'Y';
    assert m[|m| - 1] == ':';
    assert AllSpace("\n");
    StripExact("\n", m, "\n");
    Strip("\n" + m + "\n")
  }

  /** The prompt starts with the role sentence, holds `Rating: `
      followed by the rating's decimal text, holds the review verbatim
      between triple quotes, and ends with the `JSON:` cue. */
  lemma BuildPromptLayout(rating: int, review: string)
    ensures BuildPrompt(rating, review)[..|PromptRole|] == PromptRole
    ensures IsOccurrence(BuildPrompt(rating, review), RatingLabel + IntToString(rating),
                         |PromptRole| + |PromptInstructions|)
    ensures IsOccurrence(BuildPrompt(rating, review), "\"\"\"" + review + "\"\"\"",
                         |PromptRole| + |PromptInstructions| + 8 + |IntToString(rating)| + 9)
    ensures var p := BuildPrompt(rating, review); p[|p| - 5..] == "JSON:"
  {
    var p := BuildPrompt(rating, review);
    LayoutOf(p, PromptRole, PromptInstructions, IntToString(rating), review);
  }

  /** `BuildPromptLayout` for any opening text `role + instr`. */
  lemma LayoutOf(p: string, role: string, instr: string, t: string, review: string)
    requires p == role + instr + RatingLabel + t + ReviewOpen + review + PromptTail
    ensures p[..|role|] == role
    ensures IsOccurrence(p, RatingLabel + t, |role| + |instr|)
    ensures IsOccurrence(p, "\"\"\"" + review + "\"\"\"", |role| + |instr| + 8 + |t| + 9)
    ensures p[|p| - 5..] == "JSON:"
  {
    var q := "\"\"\"" + review + "\"\"\"";
    assert p == role + (instr + RatingLabel + t + ReviewOpen + review + PromptTail);
    assert p == (role + instr) + (RatingLabel + t) + (ReviewOpen + review + PromptTail);
    assert p == (role + instr + RatingLabel + t + "\nReview: ") + q + " \n\nJSON:";
    assert p == (role + instr + RatingLabel + t + ReviewOpen + review + "\"\"\" \n\n") + "JSON:";
  }

  /** The prompt loses nothing: rating and review can both be read back
      from it, so two different requests never share a prompt. */
  lemma BuildPromptInjective(r1: int, s1: string, r2: int, s2: string)
    requires BuildPrompt(r1, s1) == BuildPrompt(r2, s2)
    ensures r1 == r2 && s1 == s2
  {
    var t1, t2 := IntToString(r1), IntToString(r2);
    assert '\n' !in t1 by {
      forall k | 0 <= k < |t1| ensures t1[k] != '\n' { assert IsDigit(t1[k]) || t1[k] == '-'; }
    }
    assert '\n' !in t2 by {
      forall k | 0 <= k < |t2| ensures t2[k] != '\n' { assert IsDigit(t2[k]) || t2[k] == '-'; }
    }
    FillingsDetermined(PromptHead, IntToString(r1), s1, IntToString(r2), s2);
    IntToStringInjective(r1, r2);
  }

  /** After any fixed opening text, a rating text free of line breaks and
      the review are determined by the filled-in template. */
  lemma FillingsDetermined(h: string, t1: string, s1: string, t2: string, s2: string)
    requires '\n' !in t1 && '\n' !in t2
    requires h + t1 + ReviewOpen + s1 + PromptTail == h + t2 + ReviewOpen + s2 + PromptTail
    ensures t1 == t2 && s1 == s2
  {
    var p := h + t1 + ReviewOpen + s1 + PromptTail;
    var x := p[|h|..];
    assert x == t1 + (ReviewOpen + s1 + PromptTail);
    assert x == t2 + (ReviewOpen + s2 + PromptTail);
    FindAtBoundary(t1, ReviewOpen + s1 + PromptTail, '\n');
    FindAtBoundary(t2, ReviewOpen + s2 + PromptTail, '\n');
    assert t1 == x[..|t1|] == t2;
    var lo := |h| + |t1| + |ReviewOpen|;
    assert s1 == p[lo..|p| - |PromptTail|] == s2;
  }

  /** The prompt contains `Rating: ` with the rating's decimal text, and
      the review itself. */
  lemma BuildPromptContains(rating: int, review: string)
    ensures Contains(BuildPrompt(rating, review), RatingLabel + IntToString(rating))
    ensures Contains(BuildPrompt(rating, review), review)
  {
    var p := BuildPrompt(rating, review);
    ContainsOf(p, PromptRole, PromptInstructions, IntToString(rating), review);
  }

  /** `BuildPromptContains` for any opening text `role + instr`. */
  lemma ContainsOf(p: string, role: string, instr: string, t: string, review: string)
    requires p == role + instr + RatingLabel + t + ReviewOpen + review + PromptTail
    ensures Contains(p, RatingLabel + t) && Contains(p, review)
  {
    LayoutOf(p, role, instr, t, review);
    var i := |role| + |instr| + 8 + |t| + 9;
    OccurrenceWithin(p, "\"\"\"", review, "\"\"\"", i);
    assert IsOccurrence(p, review, i + 3);
    assert IsOccurrence(p, RatingLabel + t, |role| + |instr|);
  }

  /** The middle of an occurrence of `a + b + c` is an occurrence of `b`. */
  lemma OccurrenceWithin(s: string, a: string, b: string, c: string, i: int)
    requires IsOccurrence(s, a + b + c, i)
    ensures IsOccurrence(s, b, i + |a|)
  {
    var w := s[i..i + |a + b + c|];
    assert w[|a|..|a| + |b|] == b;
    OccurrenceInSlice(s, b, i, i + |a + b + c|, |a|);
  }

  // ---------------------------------------------------------------------
  // parse_llm_json

  /** No `{` comes before any `}`: there is no candidate object text. */
  predicate NoBracePair(raw: string)
  {
    forall i, j :: 0 <= i < j < |raw| && raw[i] == '{' ==> raw[j] != '}'
  }

  /** The candidate object text `raw[start..stop]`. */
  datatype Span = Span(start: nat, stop: nat)

  /** `sp` runs from the first `{` of `raw` through its last `}`,
      inclusive. */
  predicate IsGreedySpan(raw: string, sp: Span)
  {
    && sp.start + 2 <= sp.stop <= |raw|
    && raw[sp.start] == '{' && raw[sp.stop - 1] == '}'
    && (forall k :: 0 <= k < sp.start ==> raw[k] != '{')
    && (forall k :: sp.stop <= k < |raw| ==> raw[k] != '}')
  }

  /** The span `parse_llm_json` hands to the parser: from `raw.find("{")`
      through `raw.rfind("}")`. There is none exactly when no `{` precedes
      a `}`; this is a greedy span, not brace matching. */
  function JsonSpan(raw: string): (span: Option<Span>)
    ensures span.None? <==> NoBracePair(raw)
    ensures span.Some? ==> IsGreedySpan(raw, span.value)
  {
    var start := Find(raw, "{");
    var end := RFind(raw, "}");
    FindChar(raw, '{');
    RFindChar(raw, '}');
    if start == -1 || end == -1 || end <= start then
      assert NoBracePair(raw) by {
        forall i, j | 0 <= i < j < |raw| && raw[i] == '{' ensures raw[j] != '}' {
          assert start != -1 && start <= i;
        }
      }
      None
    else
      Some(Span(start, end + 1))
  }

  /** `parse_llm_json(raw_text)`: parse the greedy span, failing with
      `NoJsonFound` when there is no span and with `MalformedJson` when
      the parser rejects it; a failure never carries a partial object. */
  function ParseLlmJson(raw: string, parse: string -> Option<JsonObject>): (r: Result<JsonObject, LlmError>)
    ensures r == Err(NoJsonFound) <==> NoBracePair(raw)
    ensures r.Err? ==> r.error == NoJsonFound || r.error == MalformedJson
    ensures r.Ok? || r == Err(MalformedJson) <==> JsonSpan(raw).Some?
  {
    match JsonSpan(raw)
    case None => Err(NoJsonFound)
    case Some(sp) =>
      match parse(raw[sp.start..sp.stop])
      case None => Err(MalformedJson)
      case Some(obj) => Ok(obj)
  }

  /** The greedy span of a text made of prose without `{`, then a text
      that starts with `{` and ends with `}`, then prose without `}`, is
      exactly the middle text, whatever braces it holds inside. */
  lemma SpanOfEmbedded(pre: string, body: string, post: string)
    requires '{' !in pre && '}' !in post
    requires |body| >= 2 && body[0] == '{' && body[|body| - 1] == '}'
    ensures JsonSpan(pre + body + post) == Some(Span(|pre|, |pre| + |body|))
  {
    var raw := pre + body + post;
    assert raw == pre + (body + post);
    FindAtBoundary(pre, body + post, '{');
    RFindAtBoundary(pre + body, post, '}');
  }

  /** A well-formed object embedded in prose is recovered unchanged; one
      the parser rejects gives `MalformedJson`. */
  lemma EmbeddedObject(pre: string, body: string, post: string, parse: string -> Option<JsonObject>)
    requires '{' !in pre && '}' !in post
    requires |body| >= 2 && body[0] == '{' && body[|body| - 1] == '}'
    ensures parse(body).Some? ==> ParseLlmJson(pre + body + post, parse) == Ok(parse(body).value)
    ensures parse(body).None? ==> ParseLlmJson(pre + body + post, parse) == Err(MalformedJson)
  {
    var raw := pre + body + post;
    SpanOfEmbedded(pre, body, post);
    assert raw[|pre|..|pre| + |body|] == body;
  }

  /** Two objects in one completion are handed to the parser as ONE text,
      together with everything between them: the outcome is that of
      parsing `o1 + mid + o2`, whatever parsing `o1` alone would give. */
  lemma GreedyAcrossObjects(pre: string, o1: string, mid: string, o2: string, post: string,
                            parse: string -> Option<JsonObject>)
    requires '{' !in pre && '}' !in post
    requires |o1| >= 2 && o1[0] == '{' && o1[|o1| - 1] == '}'
    requires |o2| >= 2 && o2[0] == '{' && o2[|o2| - 1] == '}'
    ensures parse(o1 + mid + o2).None? ==>
              ParseLlmJson(pre + o1 + mid + o2 + post, parse) == Err(MalformedJson)
    ensures parse(o1 + mid + o2).Some? ==>
              ParseLlmJson(pre + o1 + mid + o2 + post, parse) == Ok(parse(o1 + mid + o2).value)
  {
    var body := o1 + mid + o2;
    assert pre + o1 + mid + o2 + post == pre + body + post;
    EmbeddedObject(pre, body, post, parse);
  }

  /** A completion with an opening brace but no closing one is reported as
      having no object at all, not as malformed JSON. */
  lemma UnclosedObjectIsNoJson(parse: string -> Option<JsonObject>)
    ensures ParseLlmJson("Sure! {not valid json", parse) == Err(NoJsonFound)
  {
    var raw := "Sure! {not valid json";
    assert forall j :: 0 <= j < |raw| ==> raw[j] != '}';
  }

  // ---------------------------------------------------------------------
  // The normalisation tail of generate_feedback

  const DefaultUserResponse: string := "Thank you for your feedback!"
  const DefaultSummary: string := "Customer left feedback."

  /** The three keys of the record `generate_feedback` returns. */
  const FeedbackKeys: set<string> := {"user_response", "summary", "actions"}

  /** The shape every normalised record has: exactly the three keys, and
      `actions` a list. */
  predicate IsStructuredFeedback(r: JsonObject)
  {
    r.Keys == FeedbackKeys && r["actions"].Array?
  }

  /** `data.get(key, default)`. */
  function GetOr(data: JsonObject, key: string, default: Json): Json
  {
    if key in data then data[key] else default
  }

  /** Lines 117-128 of `generate_feedback`: take the three fields with
      their defaults, wrap a non-list `actions` value `v` as `[str(v)]`.
      Every present field other than a non-list `actions` passes through
      untouched, and keys other than the three are dropped. */
  function Normalize(data: JsonObject, render: Json -> string): (r: JsonObject)
    ensures IsStructuredFeedback(r)
    ensures forall k :: k in FeedbackKeys && k in data && (k == "actions" ==> data[k].Array?) ==> r[k] == data[k]
  {
    var userResponse := GetOr(data, "user_response", Str(DefaultUserResponse));
    var summary := GetOr(data, "summary", Str(DefaultSummary));
    var actions := GetOr(data, "actions", Array([]));
    var actions' := if actions.Array? then actions else Array([Str(render(actions))]);
    map["user_response" := userResponse, "summary" := summary, "actions" := actions']
  }

  /** Missing fields get the fixed defaults; a present non-list `actions`
      value becomes the one-element list of its rendering. */
  lemma NormalizeDefaults(data: JsonObject, render: Json -> string)
    ensures "user_response" !in data ==> Normalize(data, render)["user_response"] == Str(DefaultUserResponse)
    ensures "summary" !in data ==> Normalize(data, render)["summary"] == Str(DefaultSummary)
    ensures "actions" !in data ==> Normalize(data, render)["actions"] == Array([])
    ensures "actions" in data && !data["actions"].Array? ==>
              Normalize(data, render)["actions"] == Array([Str(render(data["actions"]))])
  {
  }

  /** The record depends on nothing but the three fields of the object. */
  lemma NormalizeReadsOnlyFeedbackKeys(d1: JsonObject, d2: JsonObject, render: Json -> string)
    requires forall k :: k in FeedbackKeys ==> (k in d1 <==> k in d2)
    requires forall k :: k in FeedbackKeys && k in d1 ==> d1[k] == d2[k]
    ensures Normalize(d1, render) == Normalize(d2, render)
  {
    assert "user_response" in FeedbackKeys && "summary" in FeedbackKeys && "actions" in FeedbackKeys;
  }

  /** A record that already has the feedback shape is a fixed point, so
      normalising twice is normalising once. */
  lemma NormalizeIdempotent(data: JsonObject, render: Json -> string)
    ensures Normalize(Normalize(data, render), render) == Normalize(data, render)
  {
    var r := Normalize(data, render);
    var r2 := Normalize(r, render);
    assert r2.Keys == r.Keys;
    forall k | k in r ensures r2[k] == r[k] {
      assert k in FeedbackKeys;
    }
  }

  /** An object that already holds the three fields, `actions` a list, is
      recovered as exactly those three fields. */
  lemma NormalizeRecoversWellFormed(data: JsonObject, render: Json -> string)
    requires FeedbackKeys <= data.Keys && data["actions"].Array?
    ensures Normalize(data, render) == map k | k in FeedbackKeys :: data[k]
  {
    var r := Normalize(data, render);
    var want := map k | k in FeedbackKeys :: data[k];
    forall k | k in r ensures r[k] == want[k] {
      assert k in FeedbackKeys;
    }
    assert r.Keys == want.Keys;
  }

  /** `{"summary": "ok"}` normalises to the default reply, `"ok"` and no
      actions. */
  lemma NormalizeSummaryOnly(render: Json -> string)
    ensures Normalize(map["summary" := Str("ok")], render)
         == map["user_response" := Str(DefaultUserResponse), "summary" := Str("ok"), "actions" := Array([])]
  {
    var r := Normalize(map["summary" := Str("ok")], render);
    assert r.Keys == FeedbackKeys;
  }

  /** `{"actions": "retrain staff"}` normalises to the one-element action
      list `["retrain staff"]`, since `str` of a string is that string. */
  lemma NormalizeScalarAction(render: Json -> string)
    requires forall s :: render(Str(s)) == s
    ensures Normalize(map["actions" := Str("retrain staff")], render)["actions"]
         == Array([Str("retrain staff")])
  {
  }

  // ---------------------------------------------------------------------
  // generate_feedback

  /** `generate_feedback(rating, review)`: build the prompt, call the
      model (`callLlm`, which may fail), extract the object and normalise
      it. Model and parser failures propagate unchanged and are the only
      failures: whenever the span parses, the result is the normalised
      object, so missing or mistyped fields never cause an error. Any
      success has the feedback shape. */
  function GenerateFeedback(rating: int, review: string,
                            callLlm: string -> Result<string, LlmError>,
                            parse: string -> Option<JsonObject>,
                            render: Json -> string): (r: Result<JsonObject, LlmError>)
    ensures callLlm(BuildPrompt(rating, review)).Err? ==> r == Err(callLlm(BuildPrompt(rating, review)).error)
    ensures r.Ok? ==> IsStructuredFeedback(r.value)
    ensures callLlm(BuildPrompt(rating, review)).Ok? ==>
              (r == Err(NoJsonFound) <==> NoBracePair(callLlm(BuildPrompt(rating, review)).value))
    ensures callLlm(BuildPrompt(rating, review)).Ok? ==>
              var parsed := ParseLlmJson(callLlm(BuildPrompt(rating, review)).value, parse);
              && (parsed.Err? ==> r == parsed)
              && (parsed.Ok? ==> r == Ok(Normalize(parsed.value, render)))
  {
    match callLlm(BuildPrompt(rating, review))
    case Err(e) => Err(e)
    case Ok(raw) =>
      match ParseLlmJson(raw, parse)
      case Err(e) => Err(e)
      case Ok(data) => Ok(Normalize(data, render))
  }

  /** When the model answers with a well-formed three-field object
      embedded in prose, `generate_feedback` returns exactly those three
      values. */
  lemma GenerateFeedbackRecovers(rating: int, review: string,
                                 callLlm: string -> Result<string, LlmError>,
                                 parse: string -> Option<JsonObject>,
                                 render: Json -> string,
                                 pre: string, body: string, post: string, obj: JsonObject)
    requires callLlm(BuildPrompt(rating, review)) == Ok(pre + body + post)
    requires '{' !in pre && '}' !in post
    requires |body| >= 2 && body[0] == '{' && body[|body| - 1] == '}'
    requires parse(body) == Some(obj)
    requires FeedbackKeys <= obj.Keys && obj["actions"].Array?
    ensures GenerateFeedback(rating, review, callLlm, parse, render) == Ok(map k | k in FeedbackKeys :: obj[k])
  {
    EmbeddedObject(pre, body, post, parse);
    NormalizeRecoversWellFormed(obj, render);
  }
}
