/** The chat-completion request each script sends for one chunk. The remote
    service itself is a parameter of the model: a function from request to
    the content of the first choice's message. */
module Completion {

  datatype Message = Message(role: string, content: string)

  datatype Request = Request(model: string, messages: seq<Message>)

  /** The model both scripts ask for. */
  const ModelName: string := "gpt-3.5-turbo-0125"

  /** A request made of a system instruction and a user message. */
  function Prompt(system: string, user: string): Request
  {
    Request(ModelName, [Message("system", system), Message("user", user)])
  }
}
