/** Values shared by the tools: an optional value and the JSON-like reply a
    tool hands back to its caller (`{"message": ...}` or `{"error": ...}`). */
module Outcomes {

  datatype Option<+T> = None | Some(value: T)

  /** The reply object of a tool: exactly one of the keys "message" or "error". */
  datatype Reply = Message(text: string) | Error(text: string)
}
