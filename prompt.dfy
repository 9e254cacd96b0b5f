/** The prompt that `extract_information_llm` sends to the model: a fixed
    instruction header, the instructions, a fixed input header, the input
    text and a fixed response header, in that order. */
module PromptBuilder {
  import opened Wrappers

  const InstructionHeader: string := "### Instruction:\n"
  const InputHeader: string := "\n\n### Input:\n"
  const ResponseHeader: string := "\n\n### Response:"

  /** The prompt for the given instructions and input text. It starts with
      the instruction header, ends with the response header, and carries
      the instructions and then the text at fixed offsets. */
  function Prompt(instructions: string, text: string): (r: string)
    ensures |r| == |InstructionHeader| + |instructions| + |InputHeader| + |text| + |ResponseHeader|
    ensures InstructionHeader <= r
    ensures r[|r| - |ResponseHeader|..] == ResponseHeader
  {
    InstructionHeader + instructions + InputHeader + text + ResponseHeader
  }

  /** Reads a prompt back, given the length of its instructions: None unless
      the three headers stand where `Prompt` puts them. */
  function SplitPrompt(r: string, n: nat): Option<(string, string)>
  {
    var a := |InstructionHeader|;
    var b := a + n + |InputHeader|;
    if |r| < b + |ResponseHeader| then None
    else if r[..a] == InstructionHeader && r[a + n..b] == InputHeader
            && r[|r| - |ResponseHeader|..] == ResponseHeader
    then Some((r[a..a + n], r[b..|r| - |ResponseHeader|]))
    else None
  }

  /** Both inputs can be read back out of the prompt. */
  lemma SplitPromptOfPrompt(instructions: string, text: string)
    ensures SplitPrompt(Prompt(instructions, text), |instructions|) == Some((instructions, text))
  {
    var r := Prompt(instructions, text);
    var a := |InstructionHeader|;
    var n := |instructions|;
    var b := a + n + |InputHeader|;
    assert r[..a] == InstructionHeader;
    assert r[a..a + n] == instructions;
    assert r[a + n..b] == InputHeader;
    assert r[b..|r| - |ResponseHeader|] == text;
  }

  /** Whatever `SplitPrompt` accepts is exactly the prompt of what it returns. */
  lemma PromptOfSplitPrompt(r: string, n: nat)
    requires SplitPrompt(r, n).Some?
    ensures |SplitPrompt(r, n).value.0| == n
    ensures Prompt(SplitPrompt(r, n).value.0, SplitPrompt(r, n).value.1) == r
  {
    var a := |InstructionHeader|;
    var b := a + n + |InputHeader|;
    var e := |r| - |ResponseHeader|;
    assert r == r[..a] + r[a..a + n] + r[a + n..b] + r[b..e] + r[e..];
  }

  /** Two prompts with instructions of equal length are equal only when
      their instructions and texts are. */
  lemma PromptInjective(i1: string, t1: string, i2: string, t2: string)
    requires |i1| == |i2| && Prompt(i1, t1) == Prompt(i2, t2)
    ensures i1 == i2 && t1 == t2
  {
    SplitPromptOfPrompt(i1, t1);
    SplitPromptOfPrompt(i2, t2);
  }
}
