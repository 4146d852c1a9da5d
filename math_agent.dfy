/**
  The solver prompt and what one press of the Solve button does. The
  generative-text service is an object that answers each prompt by a fixed
  function and keeps the log of the prompts it has been sent.
 */
module MathAgent {
  import opened PyStrings
  import opened PdfReport

  const PromptPrefix: string := "You are a helpful math expert. Solve or explain this:\n"
  const EmptyInputWarning: string := "Please enter a math question."

  /** The text sent to the service for a question: the fixed instruction, then the question verbatim. */
  function Prompt(question: string): (p: string)
    ensures |p| == |PromptPrefix| + |question|
    ensures p[..|PromptPrefix|] == PromptPrefix
    ensures p[|PromptPrefix|..] == question
  {
    PromptPrefix + question
  }

  /** Different questions give different prompts, and the question can be read back from its prompt. */
  lemma PromptInjective(a: string, b: string)
    ensures Prompt(a) == Prompt(b) <==> a == b
  {
    if Prompt(a) == Prompt(b) {
      assert a == Prompt(a)[|PromptPrefix|..];
    }
  }

  /** The guard `not math_input.strip()` negated: the input has something besides whitespace. */
  function HasQuestion(input: string): (b: bool)
    ensures b <==> exists i :: 0 <= i < |input| && !IsWhitespace(input[i])
  {
    Strip(input) != []
  }

  /** The generative-text service: its replies, and the prompts sent to it so far. */
  class Solver {
    const reply: string -> string
    var sent: seq<string>

    constructor (reply: string -> string)
      ensures this.reply == reply && sent == []
    {
      this.reply := reply;
      sent := [];
    }

    /** One request to the service (`ask_math_agent` sends one prompt and returns the reply text). */
    method Ask(prompt: string) returns (r: string)
      modifies this
      ensures sent == old(sent) + [prompt]
      ensures r == reply(prompt)
    {
      sent := sent + [prompt];
      r := reply(prompt);
    }
  }

  /** What a press of Solve produces. */
  datatype Outcome =
    | Warning(message: string)
    | Solved(prompt: string, answer: string, report: seq<Block>)

  /**
    A press of Solve: a whitespace-only input only raises the warning and asks
    the service nothing; otherwise the service is asked once with the prompt
    for the input, its reply is the answer, and the report is laid out from the
    raw input and that answer.
   */
  method OnSolve(input: string, service: Solver) returns (o: Outcome)
    modifies service
    ensures o.Warning? <==> forall i :: 0 <= i < |input| ==> IsWhitespace(input[i])
    ensures o.Warning? ==> o.message == EmptyInputWarning && service.sent == old(service.sent)
    ensures o.Solved? ==> o.prompt == PromptPrefix + input
    ensures o.Solved? ==> service.sent == old(service.sent) + [o.prompt]
    ensures o.Solved? ==> o.answer == service.reply(o.prompt)
    ensures o.Solved? ==> o.report == Layout(input, o.answer)
  {
    if !HasQuestion(input) {
      o := Warning(EmptyInputWarning);
    } else {
      var prompt := Prompt(input);
      var answer := service.Ask(prompt);
      var report := GeneratePdf(input, answer);
      o := Solved(prompt, answer, report);
    }
  }
}
