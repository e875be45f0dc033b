/** The request sent to the text-generation service for one page. */
module Generation {
  import opened Settings

  datatype Role = System | User | Assistant
  datatype Message = Message(role: Role, content: string)

  /** Model name, conversation and output-token limit; the temperature is not modelled. */
  datatype Request = Request(model: string, messages: seq<Message>, maxTokens: int)

  const SystemInstruction: string := "You are a helpful assistant who writes pull request descriptions"

  /** System instruction, the few-shot pair, then the page's prompt as the final user turn. */
  function RequestFor(cfg: Config, prompt: string): Request {
    Request(cfg.model,
            [Message(System, SystemInstruction),
             Message(User, cfg.samplePrompt),
             Message(Assistant, cfg.sampleResponse),
             Message(User, prompt)],
            cfg.maxPromptToken)
  }
}
