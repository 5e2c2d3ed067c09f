# Customer-feedback text core, modelled in Dafny

The repository is a small customer-feedback application. A customer gives
a star rating and a short review and gets a reply. An administrator gets a
summary of recent reviews and a list of recommended actions. Around a
language-model call there are a few pure text transformations, and this
project models those and proves properties of them:

- `Task_2/llm.py`. The prompt builder `build_prompt` places the rating and
  the review in a fixed instruction template. The extractor
  `parse_llm_json` takes the greedy span from the first `{` to the last
  `}` and parses it. The normalisation at the end of `generate_feedback`
  always returns a record with the three fields `user_response`, `summary`
  and `actions`.
- `app.py`, `analyze_feedback`. It guards against an empty table and builds
  a digest of the last twenty reviews. It then parses the model's answer
  into a summary and an action text by splitting at `ACTIONS:`.
- `Task_2/pages/1_user_dashboard.py`. The rule-based `generate_ai_response`
  picks one of four replies. The star widget's index becomes a rating, and
  a submission without stars is refused.

All three pieces are pure, so the model is made of datatypes, functions
and lemmas.

| file | module | contents |
|---|---|---|
| `wrappers.dfy` | `Wrappers` | `Option`, `Result` |
| `pystr.dfy` | `PyStr` | the Python `str` built-ins the core uses: `find`, `rfind`, `split`, `replace`, `strip`, `join`, `str(int)` |
| `llm.dfy` | `Llm` | the prompt, span extraction, parsing, normalisation and `generate_feedback` |
| `admin.dfy` | `Admin` | `analyze_feedback`: the digest, the prompt and the section parser |
| `user_dashboard.dfy` | `UserDashboard` | the canned replies, the star rating and the submit guard |

Some collaborators become function-typed parameters, so every statement
holds for all of their behaviours. Each is listed here with the parameter
that stands for it:

- `json.loads`: `parse: string -> Option<JsonObject>`.
- Python `str()` of a JSON value: `render: Json -> string`.
- `call_llm`: `callLlm: string -> Result<string, LlmError>`.
- `client.text_generation`: `generate: string -> string`.

A text that starts with `{`, ends with `}` and is valid JSON is always an
object. So the parser returns an object map directly.

Four behaviours of the code are worth knowing:

- `analysis.split("ACTIONS:")` cuts at every `ACTIONS:`. Only the first two
  parts are used, so text after a second marker is dropped
  (`Admin.ParseSectionsWithMarker`).
- `"Sure! {not valid json"` has no `}`. `parse_llm_json` therefore reports
  that no JSON object was found, not that the JSON is malformed
  (`Llm.UnclosedObjectIsNoJson`).
- The summary is the first part with every `SUMMARY:` removed and then
  trimmed: removal comes first, trimming second.
- The prompt asks for a numbered answer, `1. SUMMARY: ...` and
  `2. ACTIONS: ...`. The parser does not remove the numbers, so the summary
  of such an answer starts with `1.` and ends with `2.`
  (`Admin.ParseSectionsNumbered`).

## Model

| member | source | states |
|---|---|---|
| `PyStr.Find` | Task_2/llm.py:90 | `str.find`: -1 exactly when there is no occurrence; otherwise an occurrence with none before it |
| `PyStr.RFind` | Task_2/llm.py:91 | `str.rfind`: -1 exactly when there is no occurrence; otherwise an occurrence with none after it |
| `PyStr.Split` | app.py:89 | `str.split(sep)` splits at every occurrence: there is at least one part, no part contains `sep`, and joining the parts with `sep` gives back the input |
| `PyStr.SplitLeftmost` | app.py:89 | every cut is at the leftmost occurrence of `sep` in what remains: each part but the last, followed by `sep`, has its first `sep` right after the part |
| `PyStr.FindInPrefix` | app.py:89 | cutting a text after its first occurrence of `sub` keeps that occurrence first |
| `PyStr.Join` | app.py:75 | joining no elements gives the empty text; otherwise the result starts with the first element |
| `PyStr.SplitFirstPieces` | app.py:89 | without `sep` the split is `[s]`; otherwise part 0 is the text before the first `sep` and part 1 runs up to the next one |
| `PyStr.SplitJoin` | app.py:75 | when no element holds the separator character, splitting the joined list gives the list back |
| `PyStr.Replace` | app.py:90 | `s.replace(pat, rep)` leaves `s` unchanged when `pat` does not occur or when `rep` is `pat`, and keeps the text before the first occurrence |
| `PyStr.ReplaceIsJoinOfSplit` | app.py:90 | `s.replace(pat, rep)` equals `rep.join(s.split(pat))` |
| `PyStr.TrimStart` | app.py:90-91 | `lstrip`: a suffix not starting with whitespace; everything dropped is whitespace |
| `PyStr.TrimEnd` | app.py:90-91 | `rstrip`: a prefix not ending with whitespace; everything dropped is whitespace |
| `PyStr.Strip` | app.py:90-91 | `strip()` is never longer than its input, and a non-empty result neither starts nor ends with whitespace |
| `PyStr.StripExact` | Task_2/llm.py:82 | `strip` of whitespace + m + whitespace is m, when m neither starts nor ends with whitespace |
| `PyStr.StripKeepsAbsence` | app.py:91 | trimming never creates an occurrence of a substring |
| `PyStr.StripIdempotent` | app.py:90-91 | stripping twice is stripping once |
| `PyStr.IntToString` | Task_2/llm.py:78 | `str(n)` is `-` exactly for negative n, followed by a non-empty run of digits that reads back as the magnitude of n and starts with `0` only when it is the single digit of 0 |
| `PyStr.NatToString` | app.py:75 | `str(n)` for n >= 0 is a non-empty run of digits, and starts with `0` only when it is `"0"` for 0 itself |
| `PyStr.NatToStringRoundTrip` | app.py:75 | reading `str(n)` back as a decimal gives n |
| `PyStr.IntToStringInjective` | Task_2/llm.py:78 | different integers have different decimal texts |
| `Llm.BuildPrompt` | Task_2/llm.py:48-82 | `strip()` only removes the template's outer line breaks: the prompt is the text from the role sentence to `JSON:`, with the rating and the review filled in unchanged |
| `Llm.BuildPromptLayout` | Task_2/llm.py:49-82 | the prompt starts with `You are an AI assistant`; it holds `Rating: ` plus the rating's text, and the review verbatim between triple quotes, at fixed positions; it ends with `JSON:` |
| `Llm.BuildPromptContains` | Task_2/llm.py:78-79 | the prompt contains `Rating: ` plus the rating's text, and contains the review |
| `Llm.BuildPromptInjective` | Task_2/llm.py:48-82 | equal prompts come from equal ratings and equal reviews |
| `Llm.JsonSpan` | Task_2/llm.py:90-95 | there is no span exactly when no `{` comes before a `}`; otherwise the span starts at the first `{`, ends after the last `}`, and is at least 2 long |
| `Llm.ParseLlmJson` | Task_2/llm.py:85-100 | `NoJsonFound` exactly when no `{` precedes a `}`; the only errors are `NoJsonFound` and `MalformedJson`; the result is a success or `MalformedJson` exactly when a span exists |
| `Llm.SpanOfEmbedded` | Task_2/llm.py:90-95 | when the prose before an object text has no `{` and the prose after it has no `}`, the span is exactly that object text |
| `Llm.EmbeddedObject` | Task_2/llm.py:90-100 | an object embedded in such prose is recovered unchanged when it parses; otherwise the result is `MalformedJson`, never a partial map |
| `Llm.GreedyAcrossObjects` | Task_2/llm.py:90-100 | with two objects in one completion, the parser gets both of them and the text between them as a single span |
| `Llm.UnclosedObjectIsNoJson` | Task_2/llm.py:92-93 | `Sure! {not valid json` gives `NoJsonFound` |
| `Llm.Normalize` | Task_2/llm.py:117-128 | the result has exactly the three keys and `actions` is a list; every present field passes through, except a non-list `actions` |
| `Llm.NormalizeDefaults` | Task_2/llm.py:118-122 | a missing field gets its fixed default; a present non-list `actions` value v becomes `[str(v)]` |
| `Llm.NormalizeReadsOnlyFeedbackKeys` | Task_2/llm.py:117-128 | objects that agree on the three keys normalise alike |
| `Llm.NormalizeIdempotent` | Task_2/llm.py:117-128 | normalising twice is normalising once |
| `Llm.NormalizeRecoversWellFormed` | Task_2/llm.py:117-128 | an object with all three fields and a list `actions` gives back exactly those three fields |
| `Llm.NormalizeSummaryOnly` | Task_2/llm.py:118-120 | `{"summary": "ok"}` gives the default reply, `"ok"` and `[]` |
| `Llm.NormalizeScalarAction` | Task_2/llm.py:121-122 | `{"actions": "retrain staff"}` gives the action list `["retrain staff"]` |
| `Llm.GenerateFeedback` | Task_2/llm.py:103-128 | model errors propagate unchanged; every success has the feedback shape; `NoJsonFound` exactly when the completion has no `{` before a `}`; when the model answers, an extraction failure is returned unchanged and an extraction success gives exactly the normalised object, so missing or mistyped fields never fail |
| `Llm.GenerateFeedbackRecovers` | Task_2/llm.py:103-128 | a well-formed three-field object embedded in the completion is returned with exactly those three values |
| `Admin.LastRows` | app.py:75 | `df.tail(n)` gives the last `min(n, len)` rows in their original order |
| `Admin.DigestLine` | app.py:75 | a line opens with `- `, holds the rating's decimal text followed by ` stars: ` right after it, ends with the review, and is exactly as long as those pieces together, so nothing else is in it |
| `Admin.DigestLines` | app.py:75 | one line per row, in order, each `- {rating} stars: {review}` |
| `Admin.Digest` | app.py:75 | the digest is empty exactly when there are no rows; otherwise it opens with `- `, the bullet of the first recent row |
| `Admin.DigestLayout` | app.py:75 | the digest has one line for each of at most the last 20 rows, in their original order |
| `Admin.DigestLineUnbroken` | app.py:75 | a digest line holds a line break only if its review does |
| `Admin.DigestSplitsIntoLines` | app.py:75 | when no review holds a line break, splitting the digest at `\n` gives back exactly the row lines |
| `Admin.ParseSections` | app.py:89-93 | total, with no error path; the action text never contains `ACTIONS:` |
| `Admin.ParseSectionsWithoutMarker` | app.py:89-91 | without `ACTIONS:`, the summary is the input with every `SUMMARY:` removed and then trimmed, and the actions are the fallback message |
| `Admin.ParseSectionsWithMarker` | app.py:89-91 | with `ACTIONS:`, the summary comes only from the text before the first marker, and the actions are the trimmed text up to the next marker or the end |
| `Admin.FallbackLacksMarker` | app.py:91 | the fallback message does not contain `ACTIONS:` |
| `Admin.ParseSectionsOneMarker` | app.py:89-91 | with exactly one marker, the summary is made from the text before it and the actions are the trimmed text after it |
| `Admin.ParseSectionsLabelled` | app.py:89-91 | an unnumbered answer `SUMMARY: s ACTIONS: a` gives back s and a, when neither holds a colon nor has whitespace at its ends |
| `Admin.ParseSectionsNumbered` | app.py:82-91 | an answer in the numbered layout the prompt asks for, `1. SUMMARY: s` then `2. ACTIONS: a` on the next line, gives the actions a and the summary `1.  s` followed by a line break and `2.`; the numbers stay in the summary |
| `Admin.NumberedLacksActions` | app.py:89 | a colon-free text, `SUMMARY:` and another colon-free text do not contain `ACTIONS:` |
| `Admin.NumberedSummaryAfterMarker` | app.py:90 | removing `SUMMARY:` from a colon-free text, the marker and another colon-free text leaves the two texts joined |
| `Admin.NumberedStrip` | app.py:90 | trimming the numbered summary part removes only its one trailing space |
| `Admin.SummaryAfterMarker` | app.py:90 | removing a leading `SUMMARY:` from a text with no colon in the rest leaves the rest |
| `Admin.LabelLacksActions` | app.py:89-90 | `SUMMARY:` followed by text without a colon does not contain `ACTIONS:` |
| `Admin.ParseSectionsExample` | app.py:89-93 | `SUMMARY: great day ACTIONS: - do X\n- do Y` gives `great day` and `- do X\n- do Y` |
| `Admin.AnalyzeFeedback` | app.py:69-93 | empty data gives exactly the fixed pair; otherwise the section parse of the model's answer to the prompt built from the digest of the rows, whose action text never contains `ACTIONS:` |
| `Admin.AnalyzeFeedbackDependsOnAnswer` | app.py:86-93 | with data present, the report depends only on the model's answer |
| `UserDashboard.Excerpt` | Task_2/pages/1_user_dashboard.py:23 | `review_text[:30]`: the first `min(30, len)` characters; empty exactly when the review is |
| `UserDashboard.GenerateAiResponse` | Task_2/pages/1_user_dashboard.py:12-27 | the thanks for the rating exactly when the review is empty (for every rating); the balanced reply exactly for a non-empty review with 3 stars; the apology exactly for a non-empty review below 3; for 4 or more, the thrilled reply with the rating and the excerpt |
| `UserDashboard.RepliesDistinct` | Task_2/pages/1_user_dashboard.py:19-27 | the four branch outputs are pairwise different, so the reply reveals its branch |
| `UserDashboard.ThrilledReply` | Task_2/pages/1_user_dashboard.py:23 | the f-string opens with `We are thrilled to hear that! Thank you for the `, holds the rating's text followed by `-star feedback. We're glad you enjoyed: '` right after it, ends with the excerpt followed by `...'`, and is exactly as long as those pieces together, so nothing else is in it |
| `UserDashboard.ThrilledLayout` | Task_2/pages/1_user_dashboard.py:22-23 | the high-rating reply carries the rating's text followed by `-star`, and ends with the excerpt followed by `...'` |
| `UserDashboard.ReplyOnlySeesExcerpt` | Task_2/pages/1_user_dashboard.py:19-27 | the reply to a review equals the reply to its first 30 characters |
| `UserDashboard.ReplySameExcerpt` | Task_2/pages/1_user_dashboard.py:23 | reviews with the same first 30 characters get the same reply |
| `UserDashboard.RatingValue` | Task_2/pages/1_user_dashboard.py:58-62 | 0 exactly when nothing is selected; otherwise 1 to 5, the index plus one |
| `UserDashboard.RatingValueInjective` | Task_2/pages/1_user_dashboard.py:58-62 | different selections give different ratings |
| `UserDashboard.Submit` | Task_2/pages/1_user_dashboard.py:58-76 | a warning exactly when no star is selected; otherwise the reply generated for the selected index plus one, a rating from 1 to 5 |
| `UserDashboard.SubmitByStar` | Task_2/pages/1_user_dashboard.py:58-76 | with a review written: stars four and five get the thrilled reply, star three the balanced reply, and stars one and two the apology |
| `UserDashboard.SubmitWithoutReview` | Task_2/pages/1_user_dashboard.py:19-20 | with no review, every star gets the thanks for the rating |

## Left out

- `call_llm` (the HTTP request, the token check, and the handling of the response shape) is a parameter that may fail. Its output is an arbitrary string.
- `json.loads` is a parameter. JSON syntax is not modelled, and neither is the order of keys in a Python `dict`.
- Python `str()` of an arbitrary JSON value is a parameter. Only `str` of an integer is written out.
- The detail text carried by a `MalformedJson` error is not modelled. The error itself is.
- `client.text_generation` in `analyze_feedback` is a parameter, and its failures are not modelled.
- The model does not cover the pandas table itself, CSV loading, or the type of the `rating` column. A row is a pair of an integer rating and a review text.
- `AnalysisPrompt` is not tied to a property. It is the prompt text, passed to the model parameter.
- `time.sleep`, `datetime.now()`, `save_to_csv`, and all Streamlit display calls are side effects with no logic. They are not modelled.
- The rest of `app.py` is out of scope. That is the client setup, `load_data`, `save_feedback`, `get_ai_response` and the user interface.
- `Task_2/pages/2_admin_dashboard.py` and `Task_2/pages/storage.py` are HTTP and file glue. They are not part of this model.
- `PyStr.IsSpace` follows `str.isspace` for ASCII and the Unicode space characters. It has no Unicode database behind it.
- `build_prompt(5, "Great food!")` is covered only by the general `Llm.BuildPromptContains` and `Llm.BuildPromptLayout`. Those lemmas state, for every rating and review, the substrings and the `JSON:` ending that the concrete instance promises.
