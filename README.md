# Resume analyzer: prompt, reply cleaning, match default and skill weights

The resume analyzer is a small Streamlit page. It takes a resume as a PDF
and a job description as JSON. It asks a hosted language model to extract
the resume's fields as JSON, then asks it again to score how well the
candidate fits the job. This project models the local logic around those
two calls, in `resume_analyzer/resume_analyzer.py`:

- `extract_information_llm` builds its prompt from the instructions and the
  input text, with three fixed headers (`PromptBuilder`).
- It then cleans the model's reply. A reply that mentions "json" or "JSON"
  loses every "```JSON", then every "```", then every "json", each through
  Python's `str.replace(old, "")`. Any other reply comes back untouched
  (`ResponseSanitizer`).
- `calculate_match_llm` asks the model with an empty input text and parses
  the cleaned reply. A failed call or an unparsable reply gives the default
  record `{"score": 0, "assessment": "Not Suitable"}` (`MatchPipeline`).
- The page builds the skill table for the pie chart. Every entry of the
  resume's `"skills"` list becomes a key holding `100/len(list)`
  (`SkillWeights`).

Three things are parameters of the model, not part of it:

- the model service is a function `generate` from a prompt to `Some(reply)`,
  or to `None` when configuring the client, calling it or reading the reply
  raises;
- `json.loads` is a function `parse` from text to a `Json.Value`, with `None`
  for a decode error;
- the match instruction text is the `instructions` argument.

`Strings` holds the substring search that the `in` test and `str.count`
stand for. `Wrappers` holds `Option`.

## Behaviour of the cleaning and the tables

- Cleaning is not idempotent: "jsjsonon" cleans to "json", which cleans
  again to "" (`CleanNotIdempotent`).
- Only "```JSON", "```" and "json" are removed, in that order. A "```json"
  fence goes in two steps (the fence, then the tag), and a bare "JSON"
  stays (`CleanFencedReply`, `CleanKeepsBareUpperTag`).
- The last step can join backticks into a new fence: "`json``" cleans to
  "```" (`CleanCanJoinFence`). Removing "```JSON" can likewise assemble a
  new "```JSON" (`FenceJsonRemovalCanReassemble`).
- Every skill gets the share 100/n, where n counts repeated entries, so the
  shares add up to 100 only when no skill repeats (`BuildSkillWeights`,
  `TotalIsHundredIffNoRepeats`).
- The match step embeds the resume and the job in the instruction text and
  passes an empty input text (`CalculateMatch`).

## Model

| member | source | states |
|---|---|---|
| PromptBuilder.Prompt | resume_analyzer/resume_analyzer.py:58 | the prompt starts with the instruction header and ends with the response header, and its length is the sum of the headers', the instructions' and the text's |
| PromptBuilder.SplitPromptOfPrompt | resume_analyzer/resume_analyzer.py:58 | the instructions and the text can both be read back out of the prompt at their fixed offsets |
| PromptBuilder.PromptOfSplitPrompt | resume_analyzer/resume_analyzer.py:58 | any text the reader accepts is exactly the prompt of the pieces it returns |
| PromptBuilder.PromptInjective | resume_analyzer/resume_analyzer.py:58 | two prompts with equally long instructions are equal only when their instructions and texts are |
| Strings.IndexOf | resume_analyzer/resume_analyzer.py:60 | a found position leaves room for the whole pattern inside the text |
| Strings.IndexOfIsLeftmost | resume_analyzer/resume_analyzer.py:60 | the search returns the leftmost occurrence, and finds nothing exactly when the pattern does not occur (the `in` test of the guard) |
| ResponseSanitizer.RemoveAll | resume_analyzer/resume_analyzer.py:61-63 | `replace(p, "")` never lengthens the text |
| ResponseSanitizer.RemoveAllIsReplaceByFind | resume_analyzer/resume_analyzer.py:61-63 | the left-to-right scan equals CPython's loop: cut the leftmost occurrence, keep what precedes it, resume right after it (so removals never overlap) |
| ResponseSanitizer.RemoveAllUnchangedIff | resume_analyzer/resume_analyzer.py:61-63 | a removal step leaves the text unchanged exactly when its pattern does not occur in it |
| ResponseSanitizer.RemoveAllAtLeftmost | resume_analyzer/resume_analyzer.py:61-63 | removal copies the text before the leftmost occurrence and continues after the occurrence |
| ResponseSanitizer.RemoveAllLength | resume_analyzer/resume_analyzer.py:61-63 | each step shortens the text by its pattern's length times `str.count` of that pattern |
| ResponseSanitizer.Clean | resume_analyzer/resume_analyzer.py:60-67 | the cleaned reply is never longer than the reply, and a reply without "json" and "JSON" comes back unchanged |
| ResponseSanitizer.CleanLength | resume_analyzer/resume_analyzer.py:60-65 | when the guard trips, the reply shrinks by 7, 3 and 4 characters per occurrence counted at each of the three steps |
| ResponseSanitizer.FenceRemovalLeavesNoFence | resume_analyzer/resume_analyzer.py:62 | after the "```" step no "```" remains, whatever its input |
| ResponseSanitizer.IntermediateHasNoFence | resume_analyzer/resume_analyzer.py:61-62 | the text handed to the "json" step contains no "```" |
| ResponseSanitizer.CleanFencedReply | resume_analyzer/resume_analyzer.py:60-65 | a reply fenced as "```json\n" + body + "\n```", with no backtick and no "json" in the body, cleans to "\n" + body + "\n" |
| ResponseSanitizer.CleanKeepsPlainText | resume_analyzer/resume_analyzer.py:60-65 | a reply with no backtick and no lower-case "json" is returned as it is, even when "JSON" trips the guard |
| ResponseSanitizer.CleanKeepsBareUpperTag | resume_analyzer/resume_analyzer.py:60-65 | "JSON" trips the guard and still comes back whole |
| ResponseSanitizer.CleanCanJoinFence | resume_analyzer/resume_analyzer.py:61-63 | "`json``" cleans to "```": the last step can join backticks into a new fence |
| ResponseSanitizer.CleanNotIdempotent | resume_analyzer/resume_analyzer.py:60-65 | "jsjsonon" cleans to "json", which cleans again to "" |
| ResponseSanitizer.FenceJsonRemovalCanReassemble | resume_analyzer/resume_analyzer.py:61 | removing "```JSON" from "`````JSON`JSON" leaves "```JSON" |
| MatchPipeline.ExtractInformation | resume_analyzer/resume_analyzer.py:53-70 | None exactly when the model call fails on the built prompt; otherwise `Clean` of the reply, never longer than the reply, and equal to it when it has no tag |
| MatchPipeline.MatchResultOf | resume_analyzer/resume_analyzer.py:160-165 | a missing reply or one that does not parse gives the default record; a reply that parses is returned as parsed |
| MatchPipeline.CalculateMatch | resume_analyzer/resume_analyzer.py:157-165 | the model is asked the prompt with empty input; a failed call or a cleaned reply that does not parse gives the default record, and a cleaned reply that parses is returned as parsed |
| MatchPipeline.DefaultMatchFields | resume_analyzer/resume_analyzer.py:165 | the default record has exactly the keys "score" (0) and "assessment" ("Not Suitable"), with no "reason" and no "questions" |
| MatchPipeline.CalculateMatchOfFencedReply | resume_analyzer/resume_analyzer.py:157-165 | a match reply fenced as a json code block is parsed with its fences and tag stripped |
| SkillWeights.BuildSkillWeights | resume_analyzer/resume_analyzer.py:208-211 | the keys are exactly the list's entries, and every key holds 100 / (length of the list, repeats included) |
| SkillWeights.KeyCount | resume_analyzer/resume_analyzer.py:208-211 | the table has at most one key per entry, and exactly one per entry when no skill is listed twice |
| SkillWeights.TotalIsHundredIffNoRepeats | resume_analyzer/resume_analyzer.py:211 | for a non-empty list the shares add up to 100 exactly when no skill is repeated |

## Left out

- The PDF text extraction with `fitz` (lines 41-51) is a foreign library call, and its text is an input of the model.
- The model service call (lines 55-59) is the `generate` parameter. A missing API key, a failed request and an unreadable `response.text` all show up as `None`, which the source's `except` turns into a `None` return. The `st.error` message is not modelled.
- `json.loads` (lines 161, 203) is the `parse` parameter, so the parser's own behaviour is not modelled. `Json.Value` only gives its results a shape.
- The match instruction text (lines 149-155), with its embedded resume and `json.dumps` of the job, is the `instructions` argument of `CalculateMatch`, because formatting those values is `json.dumps`'s work.
- The job-description gating (lines 183-193) and the rest of the page's flow are not modelled. Neither is the Streamlit UI (`st.*` calls, including `st.write(match_result)` at line 159 and the rendering loop at lines 222-228), since it is presentation only.
- `draw_charts` (lines 74-143) and the experience durations it derives are not modelled; they are chart rendering.
- SkillWeights.BuildSkillWeights: the share is an exact real, not a Python float, so rounding of `100/len` is not modelled. The table is a `map`, so the dict's insertion order is lost.
- SkillWeights.BuildSkillWeights: takes the skills as a list of strings. A missing `"skills"` key, or an entry that is not hashable, raises an uncaught `KeyError` or `TypeError` in the source. That crash is not modelled.
