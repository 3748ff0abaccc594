/** The records shared by the chat code (src/types/index.ts). */
module ChatTypes {
  import opened Results

  /** `Citation`: the label text and the reference of a bracketed citation. */
  datatype Citation = Citation(text: string, reference: string)

  datatype Role = User | Assistant

  /** `Message`: a chat message as the UI keeps it. */
  datatype Message = Message(id: string, content: string, role: Role, citations: Option<seq<Citation>>)

  /** `ChatState`: the messages shown and whether an answer is awaited. */
  datatype ChatState = ChatState(messages: seq<Message>, isLoading: bool)

  /** A row inserted into `chat_messages`; the user's row carries no citations. */
  datatype MessageRow = MessageRow(sessionId: string, userId: string, role: Role, content: string,
                                   citations: Option<seq<Citation>>)
}
