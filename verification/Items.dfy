/** The conversation items a session's store holds, as the waits read them. */
module Items {
  import opened Option

  datatype Role = User | Assistant | OtherRole

  /** A message carries its joined text, which may be empty. */
  datatype Body = Message(role: Role, text: string) | ToolOutput | OtherItem

  /** The id is missing when the server's value is not a string. */
  datatype Item = Item(id: Option<string>, body: Body)
}
