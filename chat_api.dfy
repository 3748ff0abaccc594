/**
 * `handleChatRequest` (src/api/chat.ts): ask the question-answering chain,
 * extract the citations of its answer, store the user's message and the
 * answer, and return the answer with its citations. The chain is a
 * parameter whose `None` stands for a rejected call; the two inserts are
 * recorded as the rows they write.
 */
module ChatApi {
  import opened Results
  import opened ChatTypes
  import opened Citations

  /** What `handleChatRequest` resolves with. */
  datatype Reply = Reply(text: string, citations: seq<Citation>)

  /** What it rethrows: the chain's error or the extraction's. */
  datatype RequestError = ChainFailed | CitationFailed(error: CitationError)

  /** The rows inserted, in order, and how the call settles. */
  datatype Outcome = Outcome(inserts: seq<MessageRow>, result: Result<Reply, RequestError>)

  function HandleChatRequest(userId: string, sessionId: string, message: string,
                             chain: string -> Option<string>): (o: Outcome)
  {
    match chain(message)
    case None => Outcome([], Failure(ChainFailed))
    case Some(text) =>
      match ExtractCitations(text)
      case Failure(e) => Outcome([], Failure(CitationFailed(e)))
      case Success(citations) =>
        Outcome([MessageRow(sessionId, userId, User, message, None),
                 MessageRow(sessionId, userId, Assistant, text, Some(citations))],
                Success(Reply(text, citations)))
  }

  /** The call succeeds exactly when the chain answers and the citations of
      the answer can be extracted. It then stores the user's message and the
      answer with its citations, in that order, and returns the answer. */
  lemma HandleChatRequestSucceeds(userId: string, sessionId: string, message: string,
                                  chain: string -> Option<string>)
    ensures var o := HandleChatRequest(userId, sessionId, message, chain);
      && (o.result.Success? <==> chain(message).Some? && ExtractCitations(chain(message).value).Success?)
      && (o.result.Success? ==>
            && o.result.value.text == chain(message).value
            && o.result.value.citations == ExtractCitations(chain(message).value).value
            && |o.inserts| == 2
            && o.inserts[0] == MessageRow(sessionId, userId, User, message, None)
            && o.inserts[1] == MessageRow(sessionId, userId, Assistant, o.result.value.text,
                                          Some(o.result.value.citations)))
  {
  }

  /** Extraction comes before either insert: a failed call stores nothing
      and rethrows the error it met. */
  lemma HandleChatRequestFails(userId: string, sessionId: string, message: string,
                               chain: string -> Option<string>)
    ensures var o := HandleChatRequest(userId, sessionId, message, chain);
      && (o.result.Failure? ==> o.inserts == [])
      && (chain(message).None? ==> o.result == Failure(ChainFailed))
      && (chain(message).Some? && ExtractCitations(chain(message).value).Failure? ==>
            o.result == Failure(CitationFailed(ExtractCitations(chain(message).value).error)))
  {
  }

  /** An answer with a match whose content holds no `':'`, wherever it
      stands among the other matches, stores neither message; the error
      rethrown names the content of the first such match. */
  lemma ColonlessAnswerStoresNothing(userId: string, sessionId: string, message: string,
                                     chain: string -> Option<string>)
    requires chain(message).Some?
    requires exists k :: 0 <= k < |Matches(chain(message).value)| && ':' !in Inner(Matches(chain(message).value)[k])
    ensures var o := HandleChatRequest(userId, sessionId, message, chain);
      var ms := Matches(chain(message).value);
      && o.inserts == []
      && exists k :: && 0 <= k < |ms| && ':' !in Inner(ms[k])
                     && o.result == Failure(CitationFailed(ReferenceUndefined(Inner(ms[k]))))
                     && forall q :: 0 <= q < k ==> ':' in Inner(ms[q])
  {
    ExtractCitationsSpec(chain(message).value);
    ExtractCitationsError(chain(message).value);
  }
}
