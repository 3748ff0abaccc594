/**
 * `handleSubmit` of the chat component (src/components/Chat.tsx), as a
 * transition from the component's state before the submit to its state
 * once the submit has settled, together with the rows it inserts. The
 * message ids that `uuidv4()` draws are parameters; the chain is a
 * parameter whose `None` stands for a rejected call.
 */
module ChatComponent {
  import opened Results
  import opened Text
  import opened ChatTypes
  import opened Citations

  /** The component's state: the chat, the input box and the signed-in
      user's and session's ids (`null` until known). */
  datatype View = View(chat: ChatState, input: string, userId: Option<string>, sessionId: Option<string>)

  /** The state once the submit has settled, and the rows inserted, in order. */
  datatype Submitted = Submitted(view: View, inserts: seq<MessageRow>)

  /** A JavaScript string or `null` in a boolean position: only a non-empty
      string is truthy. */
  predicate Truthy(s: Option<string>) {
    s.Some? && s.value != []
  }

  /** The guard: a non-blank input, a user and a session. */
  predicate CanSubmit(v: View) {
    Trim(v.input) != [] && Truthy(v.userId) && Truthy(v.sessionId)
  }

  /** The state while the answer is awaited: the user's message appended,
      the spinner on and the input box cleared. */
  function Started(v: View, userMessageId: string): View {
    v.(chat := ChatState(v.chat.messages + [Message(userMessageId, v.input, User, None)], true),
       input := [])
  }

  function HandleSubmit(v: View, userMessageId: string, assistantMessageId: string,
                        chain: string -> Option<string>): (r: Submitted)
  {
    if !CanSubmit(v) then Submitted(v, [])
    else
      var started := Started(v, userMessageId);
      var userRow := MessageRow(v.sessionId.value, v.userId.value, User, v.input, None);
      var failed := Submitted(started.(chat := started.chat.(isLoading := false)), [userRow]);
      match chain(v.input)
      case None => failed
      case Some(text) =>
        match ExtractCitations(text)
        case Failure(_) => failed
        case Success(citations) =>
          var answer := Message(assistantMessageId, text, Assistant, Some(citations));
          Submitted(started.(chat := ChatState(started.chat.messages + [answer], false)),
                    [userRow, MessageRow(v.sessionId.value, v.userId.value, Assistant, text, Some(citations))])
  }

  /** A blank input, or a missing user or session, changes nothing. */
  lemma SubmitIgnored(v: View, userMessageId: string, assistantMessageId: string,
                      chain: string -> Option<string>)
    requires !CanSubmit(v)
    ensures HandleSubmit(v, userMessageId, assistantMessageId, chain) == Submitted(v, [])
  {
  }

  /** While the answer is awaited the user's message is already shown, the
      spinner is on and the input box is empty. */
  lemma StartedShowsUserMessage(v: View, userMessageId: string)
    ensures var s := Started(v, userMessageId);
      && s.chat.messages == v.chat.messages + [Message(userMessageId, v.input, User, None)]
      && s.chat.isLoading
      && s.input == []
      && s.userId == v.userId && s.sessionId == v.sessionId
  {
  }

  /** An accepted submit always stores and shows the user's message first,
      clears the input box and ends with the spinner off. The answer is
      stored and shown after it exactly when the chain answers and its
      citations can be extracted. */
  lemma SubmitSettles(v: View, userMessageId: string, assistantMessageId: string,
                      chain: string -> Option<string>)
    requires CanSubmit(v)
    ensures var r := HandleSubmit(v, userMessageId, assistantMessageId, chain);
      var answered := chain(v.input).Some? && ExtractCitations(chain(v.input).value).Success?;
      && r.view.input == []
      && !r.view.chat.isLoading
      && r.view.userId == v.userId && r.view.sessionId == v.sessionId
      && |r.inserts| >= 1
      && r.inserts[0] == MessageRow(v.sessionId.value, v.userId.value, User, v.input, None)
      && |r.view.chat.messages| >= |v.chat.messages| + 1
      && r.view.chat.messages[..|v.chat.messages| + 1]
           == v.chat.messages + [Message(userMessageId, v.input, User, None)]
      && (answered <==> |r.inserts| == 2)
      && (answered <==> |r.view.chat.messages| == |v.chat.messages| + 2)
      && (!answered ==> |r.inserts| == 1 && |r.view.chat.messages| == |v.chat.messages| + 1)
      && (answered ==>
            var text := chain(v.input).value;
            var citations := ExtractCitations(text).value;
            && r.inserts[1] == MessageRow(v.sessionId.value, v.userId.value, Assistant, text, Some(citations))
            && r.view.chat.messages[|v.chat.messages| + 1] == Message(assistantMessageId, text, Assistant, Some(citations)))
  {
    var started := Started(v, userMessageId);
    var n := |v.chat.messages|;
    if chain(v.input).Some? && ExtractCitations(chain(v.input).value).Success? {
      var text := chain(v.input).value;
      var answer := Message(assistantMessageId, text, Assistant, Some(ExtractCitations(text).value));
      assert (started.chat.messages + [answer])[..n + 1] == started.chat.messages;
    } else {
      assert started.chat.messages[..n + 1] == started.chat.messages;
    }
  }

  /** An answer with any match whose content holds no `':'` throws after
      the user's message is stored: it stays stored and shown, no answer is
      stored or shown, and the spinner goes off. */
  lemma ColonlessAnswerKeepsUserMessage(v: View, userMessageId: string, assistantMessageId: string,
                                        chain: string -> Option<string>)
    requires CanSubmit(v)
    requires chain(v.input).Some?
    requires exists k :: 0 <= k < |Matches(chain(v.input).value)| && ':' !in Inner(Matches(chain(v.input).value)[k])
    ensures var r := HandleSubmit(v, userMessageId, assistantMessageId, chain);
      && r.inserts == [MessageRow(v.sessionId.value, v.userId.value, User, v.input, None)]
      && r.view.chat == ChatState(v.chat.messages + [Message(userMessageId, v.input, User, None)], false)
      && r.view.input == []
  {
    ExtractCitationsSpec(chain(v.input).value);
  }
}
