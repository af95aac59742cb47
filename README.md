# Micro-Challenge backend: the `/api/ask` pipeline in Dafny

This project models the question-answering endpoint of a small Express relay
(`server.js`). The endpoint picks a chat-completion provider from two
configured API keys: Perplexity first, OpenAI as the fallback. It sends the
provider the question. It then cuts the completion text into a summary and an
answer at the literal `"Answer:"` and normalises both parts with `cleanText`.
The reply is 200 `{ summary, answer }`, 400 when no key is configured, or 500
when the provider call fails.

Everything the endpoint does besides the network call is pure string work. It
is modelled as functions, with lemmas about them:

- `JsStrings.dfy` holds the JavaScript string operations the handler uses:
  `split`, `replace` of the first occurrence, a global `replace` of a literal
  pattern, and `trim` with ECMAScript's whitespace and line-terminator set
  (`IsWs`). It also holds the search for the first occurrence of a pattern
  (`IndexFrom`, `IndexOf`) that `split` and `replace` perform internally. Each
  has an independent characterisation:
  - `split` is undone by `join` and no piece holds the separator;
  - `indexOf` gives the first occurrence;
  - `trim` gives the unique trimmed slice with only whitespace around it.
- `TextNormalizer.dfy` holds `cleanText`.
- `ResponseSplitter.dfy` holds the split-and-clean block that both provider
  branches contain word for word, modelled once as `SplitCompletion`.
- `AnswerPipeline.dfy` holds provider selection and the whole handler
  (`Select`, `Ask`). The environment is passed in as two optional strings.
  The provider call is a function parameter from the request to an optional
  completion text.

Three behaviours of the code are easy to misread:

- One might expect only a leading `"Summary:"` to be stripped. The code
  removes the first `"Summary:"` wherever it occurs in the text before
  `"Answer:"` (`SummaryIsCleanedPrefix`).
- One might expect the answer to be everything after `"Answer:"`. The code's
  `split` keeps only the text between the first and the second `"Answer:"`
  (`SplitCompletionSpec`).
- One might expect a blank answer segment to give the placeholder. Only a
  segment that is exactly `""` does. A segment of whitespace or `*` alone is
  truthy, so it yields an empty answer (`BlankSegmentGivesEmptyAnswer`).

## Model

| member | source | states |
|---|---|---|
| `JsStrings.IndexFrom` | server.js:96 | the result is the first occurrence of the pattern at or after the start index, or none when there is no occurrence from there on |
| `JsStrings.IndexOf` | server.js:96 | the result is an occurrence with no earlier one, or none when the pattern occurs nowhere |
| `JsStrings.Before` | server.js:96 | the result is the prefix up to the first occurrence (that occurrence starts right after it), and no occurrence starts inside it; with no occurrence it is the whole text |
| `JsStrings.Split` | server.js:96 | `split` with a literal separator gives at least one piece, and more than one exactly when the separator occurs |
| `JsStrings.SplitHead` | server.js:96 | the first piece is the text before the first separator |
| `JsStrings.SplitJoin` | server.js:96 | joining the pieces of a split with the separator gives back the original text |
| `JsStrings.SplitPiecesFree` | server.js:96 | no piece of a split contains the separator |
| `JsStrings.SplitSecond` | server.js:101 | `parts[1]` is the text after the first separator up to the next separator or the end |
| `JsStrings.BeforeFree` | server.js:96 | the text before the first separator contains no separator |
| `JsStrings.ReplaceFirst` | server.js:100 | `replace` with a string pattern replaces only the first occurrence, wherever it is, and leaves a text without one unchanged |
| `JsStrings.ReplaceFirstLength` | server.js:100 | removing `"Summary:"` shortens the text by its length when it occurs, and by nothing otherwise |
| `JsStrings.ReplaceFirstAtStart` | server.js:100 | a text starting with the pattern loses exactly that prefix |
| `JsStrings.DeleteAll` | server.js:20 | a global deletion of a literal pattern is no longer than its input; what the two deletions compute together is stated by `DeletePairThenChar` and `DeleteAllChar` |
| `JsStrings.DeleteAllChar` | server.js:20 | the global replacement of `*` by "" is the filter that drops every `*` |
| `JsStrings.DeletePairThenChar` | server.js:20 | deleting every `**` and then every `*` removes exactly the `*` characters and keeps the rest in order |
| `JsStrings.Without` | server.js:20 | the filtered text contains no `*` and is no longer than the input |
| `JsStrings.WithoutKeepsOthers` | server.js:20 | the filter keeps every other character as often as it occurs |
| `JsStrings.WithoutAppend` | server.js:20 | filtering distributes over concatenation |
| `JsStrings.WithoutIgnoresChar` | server.js:20 | an extra `*` anywhere makes no difference to the filter |
| `JsStrings.IsWs` | server.js:20 | the characters `trim` strips, exactly ECMAScript's WhiteSpace and LineTerminator set; each is one UTF-16 code unit and none is `*` |
| `JsStrings.LeadingWsRun` | server.js:20 | the counted run at the start of a text is all whitespace, and the character after it is not |
| `JsStrings.TrailingWsRun` | server.js:20 | the counted run at the end of a text is all whitespace, and the character before it is not |
| `JsStrings.Trim` | server.js:20 | `trim` returns a text with no whitespace at either end, no longer than the input |
| `JsStrings.TrimSlice` | server.js:20 | `trim` returns the contiguous slice of the text that starts after its leading whitespace |
| `JsStrings.TrimDropsOnlyWs` | server.js:20 | what `trim` drops on either side of that slice is whitespace only |
| `JsStrings.TrimUnique` | server.js:20 | a trimmed text surrounded by any whitespace trims to exactly that text |
| `JsStrings.TrimLeadingWs` | server.js:20 | whitespace before a trimmed text is all that `trim` removes |
| `JsStrings.TrimIdempotent` | server.js:20 | trimming twice is trimming once |
| `JsStrings.SoleOccurrence` | server.js:96 | when the pattern's first character occurs nowhere else, the one written occurrence is the only one |
| `JsStrings.NoOccurrence` | server.js:96 | a text without the pattern's first character contains no occurrence |
| `TextNormalizer.CleanText` | server.js:18-21 | the result contains no `*`, has no whitespace at either end, and is no longer than the input; a falsy input gives "" |
| `TextNormalizer.CleanTextIsTrimWithoutStars` | server.js:20 | `cleanText` is `trim` applied to the input with every `*` removed |
| `TextNormalizer.CleanTextKeepsTheRest` | server.js:20 | the result is the contiguous slice of the star-free input that starts after its leading whitespace |
| `TextNormalizer.CleanTextDropsOnlyWs` | server.js:20 | what `cleanText` drops from the star-free input on either side of that slice is whitespace only |
| `TextNormalizer.CleanTextUnique` | server.js:20 | whatever whitespace surrounds a trimmed text in the star-free input, `cleanText` returns exactly that text |
| `TextNormalizer.CleanTextFixesCleanText` | server.js:20 | a text that is star-free and trimmed is unchanged |
| `TextNormalizer.CleanTextIdempotent` | server.js:20 | `cleanText(cleanText(s)) == cleanText(s)` |
| `TextNormalizer.CleanTextBlank` | server.js:19-20 | the empty text, and any text of only whitespace and `*`, gives "" |
| `TextNormalizer.CleanTextStarFree` | server.js:20 | on a star-free text `cleanText` only trims |
| `TextNormalizer.CleanTextIgnoresStar` | server.js:20 | inserting a `*` anywhere does not change the result |
| `TextNormalizer.CleanTextDropsBold` | server.js:20 | Markdown bold markers around a span vanish |
| `ResponseSplitter.OrElse` | server.js:101 | `x \|\| d` is `d` for a missing or empty `x`, otherwise `x` |
| `ResponseSplitter.SplitCompletion` | server.js:96-101 | both fields of the structured answer are free of `*` and of surrounding whitespace |
| `ResponseSplitter.NoAnswerIsClean` | server.js:101 | cleaning the placeholder "No answer provided" leaves it unchanged |
| `ResponseSplitter.SplitCompletionSpec` | server.js:96-101 | with no "Answer:" the summary is the cleaned text less its first "Summary:" and the answer is the placeholder. Otherwise the summary comes from the text before the first "Answer:", and the answer is the cleaned segment up to the second "Answer:", or the placeholder when that segment is "" |
| `ResponseSplitter.SummaryIsCleanedPrefix` | server.js:96-100 | the summary is `cleanText` of the text before the first "Answer:" (the whole text without one), less the first "Summary:" anywhere in it |
| `ResponseSplitter.AnswerIsPlaceholderIff` | server.js:96-101 | the answer is the placeholder exactly when there is no "Answer:", or the segment after it is "", or that segment cleans to the placeholder's own text |
| `ResponseSplitter.BlankSegmentGivesEmptyAnswer` | server.js:101 | a non-empty segment of only whitespace and `*` gives the answer "", not the placeholder |
| `ResponseSplitter.SingleMarker` | server.js:96-101 | with exactly one "Answer:", the summary is the cleaned text before it (less its first "Summary:"); the answer is the cleaned text after it, or the placeholder when nothing follows |
| `ResponseSplitter.NoMarker` | server.js:96-101 | with no "Answer:", the answer is the placeholder and the summary is the cleaned text less its first "Summary:" |
| `ResponseSplitter.WellFormedCompletion` | server.js:96-101 | a completion shaped "Summary:" s "Answer:" a (neither part holding an "A") gives (`cleanText(s)`, `cleanText(a)`), or the placeholder for an empty `a` |
| `ResponseSplitter.PlainText` | server.js:96-101 | a star-free, trimmed text without "A" or "S" is its own summary, and the answer is the placeholder |
| `ResponseSplitter.ParisExample` | server.js:96-101 | "Summary: Paris is the capital.\nAnswer: \*\*Paris\*\*." (written as its four parts) gives ("Paris is the capital.", "Paris.") |
| `ResponseSplitter.PlainTextExample` | server.js:96-101 | "Just some text" gives ("Just some text", "No answer provided") |
| `AnswerPipeline.Truthy` | server.js:71-103 | a key is truthy exactly when it is set and not "" |
| `AnswerPipeline.Select` | server.js:71-139 | Perplexity exactly when its key is truthy; OpenAI exactly when the Perplexity key is not truthy and the OpenAI key is; no key exactly when neither is |
| `AnswerPipeline.MakeRequest` | server.js:75-90 | the request goes to the chosen provider with the fixed system prompt, and its user prompt is the fixed prefix followed by the question unchanged |
| `AnswerPipeline.Status` | server.js:136-147 | a reply has status 200 exactly when it is the answer, 400 exactly when it is the no-key error, 500 exactly when it is the failure error |
| `AnswerPipeline.Ask` | server.js:65-149 | the handler sends at most one request, to the selected provider, and none exactly when no key is usable; it replies 400 exactly when no key is usable |
| `AnswerPipeline.EmptyKeyIsNoKey` | server.js:71-103 | an empty key routes the same as an unset one |
| `AnswerPipeline.NoKeyMeansNoCall` | server.js:135-139 | with no usable key the reply is the 400 error with its fixed message, and no provider is asked |
| `AnswerPipeline.PerplexityFirst` | server.js:71-90 | a truthy Perplexity key means exactly one request, to Perplexity with that key, whatever the OpenAI key is; OpenAI is never asked |
| `AnswerPipeline.OpenAIOnlyAsFallback` | server.js:103-122 | OpenAI is asked exactly when the Perplexity key is unset or empty and the OpenAI key is truthy |
| `AnswerPipeline.ReplyFollowsCompletion` | server.js:93-148 | once a provider is selected, the reply is the split of its completion, or the 500 error when the call fails; there is no retry and no switch to the other provider |
| `AnswerPipeline.BranchesAgree` | server.js:96-133 | the two provider branches turn the same completion into the same reply |
| `AnswerPipeline.OkRepliesAreClean` | server.js:142 | every 200 reply has both fields, free of `*` and of surrounding whitespace |

## Left out

- Express setup, JSON and CORS middleware and `app.listen` (server.js:11-15, 152): framework plumbing with no logic of its own.
- The `/api/tts` endpoint (server.js:28-63): one call to a speech service, then base64 encoding by the `Buffer` library, which is not part of this model.
- The HTTP calls themselves (`axios.post`) and the reading of `response.data.choices[0].message.content`: network I/O. The model keeps what is sent (`Request`) and makes the reply a parameter. Any failure is `None`, which gives the 500 reply.
- `dotenv` and `process.env` reads (server.js:8): environment I/O. The two keys are parameters.
- `try`/`catch` and `console.error` (server.js:144-148): the catch is captured only as the 500 reply for a failed call. Logging is left out. A completion that is not a string (where `split` would throw) is outside the model, since the completion parameter is always a string.
- The assignments at server.js:97-98 and 129-130: lines 100-101 and 132-133 overwrite them before they are read.
- `async`/`await` and concurrent requests: the handler shares no state between requests.
- TextNormalizer.CleanText: takes a `string`, so of JavaScript's falsy values only "" is modelled. The handler only ever passes strings to `cleanText`.
- AnswerPipeline.MakeRequest: takes the question to be a string. The source reads `question` from the JSON body and puts it into the prompt with a template literal, so a missing field is sent as "undefined", and any other JSON value as its string form (a number as its digits, an object as "[object Object]").
- JsStrings.Split: requires a non-empty separator. JavaScript's `split("")` splits into single characters, but the handler only splits on "Answer:".
- JsStrings.ReplaceFirst: requires a non-empty pattern and takes the replacement literally. `$` patterns in the replacement are not modelled, since the handler only replaces "Summary:" with "".
- Strings are sequences of Unicode scalar values rather than UTF-16 code units. Lone surrogates cannot be represented. Nothing else changes, because every pattern is ASCII and every character `trim` strips is a single code unit.
