/** One round trip to the model and the parse-or-default of the match step.
    The model service is a parameter `generate`: it maps a prompt to the
    reply text, or to None when configuring the client, the call or reading
    the reply raises. `json.loads` is a parameter `parse`, None standing for
    a JSONDecodeError. */
module MatchPipeline {
  import opened Wrappers
  import opened Strings
  import opened Json
  import opened PromptBuilder
  import opened ResponseSanitizer

  /** The record `calculate_match_llm` returns when the reply does not parse. */
  const DefaultMatch: Value := Object([("score", Int(0)), ("assessment", Str("Not Suitable"))])

  /** `extract_information_llm`: the model is asked exactly the prompt built
      from the instructions and the text; None comes back exactly when the
      call fails, and otherwise the cleaned reply, which is never longer than
      the reply itself. */
  function ExtractInformation(text: string, instructions: string, generate: string -> Option<string>)
    : (r: Option<string>)
    ensures r.None? <==> generate(Prompt(instructions, text)).None?
    ensures r.Some? ==> |r.value| <= |generate(Prompt(instructions, text)).value|
    ensures r.Some? ==> r.value == Clean(generate(Prompt(instructions, text)).value)
    ensures r.Some? && !MentionsJson(generate(Prompt(instructions, text)).value) ==>
              r.value == generate(Prompt(instructions, text)).value
  {
    match generate(Prompt(instructions, text))
    case None => None
    case Some(reply) => Some(Clean(reply))
  }

  /** The try/except around `json.loads`: a missing reply (the TypeError of
      `json.loads(None)`) or one that does not parse yields the default
      record; a reply that parses is returned as parsed. */
  function MatchResultOf(reply: Option<string>, parse: string -> Option<Value>): (r: Value)
    ensures reply.None? ==> r == DefaultMatch
    ensures reply.Some? && parse(reply.value).None? ==> r == DefaultMatch
    ensures reply.Some? && parse(reply.value).Some? ==> r == parse(reply.value).value
  {
    if reply.Some? && parse(reply.value).Some? then parse(reply.value).value else DefaultMatch
  }

  /** `calculate_match_llm`, given its instruction text: the model is asked
      with an empty input; a failed call or an unparsable cleaned reply ends
      in the default record, and a cleaned reply that parses is the result. */
  function CalculateMatch(instructions: string, generate: string -> Option<string>,
                          parse: string -> Option<Value>): (r: Value)
    ensures generate(Prompt(instructions, "")).None? ==> r == DefaultMatch
    ensures var g := generate(Prompt(instructions, ""));
            g.Some? && parse(Clean(g.value)).Some? ==> r == parse(Clean(g.value)).value
    ensures var g := generate(Prompt(instructions, ""));
            g.Some? && parse(Clean(g.value)).None? ==> r == DefaultMatch
  {
    MatchResultOf(ExtractInformation("", instructions, generate), parse)
  }

  /** The default record carries a score of 0 and the assessment
      "Not Suitable", and neither a reason nor any questions. */
  lemma DefaultMatchFields()
    ensures Get(DefaultMatch.members, "score") == Some(Int(0))
    ensures Get(DefaultMatch.members, "assessment") == Some(Str("Not Suitable"))
    ensures Keys(DefaultMatch.members) == {"score", "assessment"}
    ensures Get(DefaultMatch.members, "reason") == None
    ensures Get(DefaultMatch.members, "questions") == None
  {
  }

  /** A match reply fenced as a json code block is parsed with its fences
      and language tag stripped. */
  lemma CalculateMatchOfFencedReply(instructions: string, generate: string -> Option<string>,
                                    parse: string -> Option<Value>, body: string)
    requires generate(Prompt(instructions, "")) == Some("```json\n" + body + "\n```")
    requires '`' !in body && !Contains(body, Tag)
    ensures CalculateMatch(instructions, generate, parse) == MatchResultOf(Some("\n" + body + "\n"), parse)
  {
    CleanFencedReply(body);
  }
}
