/**
 * The `POST` handler of the chat route (app/api/chat/route.ts): read the
 * message from the JSON body, ask the chain, extract the citations and
 * answer with them, or answer 500 when any step throws. `None` for the body
 * stands for `req.json()` rejecting; the message is `None` when the body
 * has no `message` field (it is `undefined`, and the chain is asked with it
 * all the same). `None` from the chain stands for a rejected call.
 */
module ChatRoute {
  import opened Results
  import opened ChatTypes
  import opened Citations

  datatype RequestBody = RequestBody(message: Option<string>)

  datatype ResponseBody =
    | Answer(content: string, citations: seq<Citation>)
    | ErrorBody(error: string)

  datatype Response = Response(status: nat, body: ResponseBody)

  /** The status that `NextResponse.json` uses when given none. */
  const OkStatus: nat := 200

  const ServerErrorStatus: nat := 500

  const ServerErrorMessage: string := "Internal Server Error"

  function Post(body: Option<RequestBody>, chain: Option<string> -> Option<string>): (r: Response)
  {
    match body
    case None => Response(ServerErrorStatus, ErrorBody(ServerErrorMessage))
    case Some(b) =>
      match chain(b.message)
      case None => Response(ServerErrorStatus, ErrorBody(ServerErrorMessage))
      case Some(text) =>
        match ExtractCitations(text)
        case Failure(_) => Response(ServerErrorStatus, ErrorBody(ServerErrorMessage))
        case Success(citations) => Response(OkStatus, Answer(text, citations))
  }

  /** The route answers 200 with the chain's text and its citations exactly
      when the body is read, the chain answers and the extraction succeeds;
      every other outcome is the fixed 500 response. */
  lemma PostResponds(body: Option<RequestBody>, chain: Option<string> -> Option<string>)
    ensures var r := Post(body, chain);
      && (r.status == 200 <==>
            body.Some? && chain(body.value.message).Some? &&
            ExtractCitations(chain(body.value.message).value).Success?)
      && (r.status == 200 ==>
            r.body == Answer(chain(body.value.message).value,
                             ExtractCitations(chain(body.value.message).value).value))
      && (r.status != 200 ==> r == Response(500, ErrorBody("Internal Server Error")))
  {
  }

  /** An answer with any match whose content holds no `':'` turns into the
      500 response, whatever the other matches hold. */
  lemma ColonlessAnswerIsServerError(message: Option<string>, chain: Option<string> -> Option<string>)
    requires chain(message).Some?
    requires exists k :: 0 <= k < |Matches(chain(message).value)| && ':' !in Inner(Matches(chain(message).value)[k])
    ensures Post(Some(RequestBody(message)), chain) == Response(500, ErrorBody("Internal Server Error"))
  {
    ExtractCitationsSpec(chain(message).value);
  }

  /** An answer without any match is sent with an empty citation list. */
  lemma PlainAnswerHasNoCitations(message: Option<string>, chain: Option<string> -> Option<string>)
    requires chain(message).Some?
    requires forall p: nat, j: nat :: !IsMatchAt(chain(message).value, p, j)
    ensures Post(Some(RequestBody(message)), chain) == Response(200, Answer(chain(message).value, []))
  {
    NoMatchNoCitations(chain(message).value);
  }
}
