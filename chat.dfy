/** The chat page's conversation state (`Home` in pages/index.js): the
    message list, the text in the input box and the busy flag, and the send
    step `handleSendMessage`. The awaited request is a parameter: the reply
    the page ends up with once `fetch` and `res.json()` have settled. */
module Chat {
  import opened Strings
  import Api

  datatype Direction = Outgoing | Incoming

  datatype Message = Message(direction: Direction, text: string)

  /** The text of the incoming message shown when the request fails. */
  const FetchErrorText: string := "Error: Failed to fetch response."

  /** How the request settled: the `response` field of a 2xx JSON body, or
      a failure (network error, non-2xx status, unreadable body). */
  datatype Reply = Received(response: string) | FetchFailed

  /** The text of the incoming message the page appends for a reply. */
  function IncomingText(reply: Reply): (t: string)
    ensures reply.Received? ==> t == reply.response
    ensures reply.FetchFailed? ==> t == FetchErrorText
  {
    match reply
    case Received(text) => text
    case FetchFailed => FetchErrorText
  }

  /** The reply the page derives from an answer of the route: `res.ok` is a
      2xx status, and the message text is the body's `response` field. */
  function ReplyOf(answer: Api.Response): (r: Reply)
    ensures r.Received? <==> 200 <= answer.status <= 299 && answer.body.ResponseBody?
    ensures r.Received? ==> r.response == answer.body.response
  {
    if 200 <= answer.status <= 299 && answer.body.ResponseBody? then Received(answer.body.response)
    else FetchFailed
  }

  /** A conversation in which every outgoing message is directly followed by
      exactly one incoming message, and nothing else occurs. */
  ghost predicate Paired(m: seq<Message>)
    decreases |m|
  {
    m == [] ||
    (|m| >= 2 && m[0].direction == Outgoing && m[1].direction == Incoming && Paired(m[2..]))
  }

  /** Pairing is kept when one paired conversation is followed by another. */
  lemma {:induction false} PairedAppend(a: seq<Message>, b: seq<Message>)
    requires Paired(a) && Paired(b)
    ensures Paired(a + b)
    decreases |a|
  {
    if a == [] {
      assert a + b == b;
    } else {
      assert (a + b)[2..] == a[2..] + b;
      PairedAppend(a[2..], b);
    }
  }

  /** In a paired conversation the even positions hold the outgoing
      messages and the odd positions the incoming ones. */
  lemma {:induction false} PairedAlternates(m: seq<Message>, i: nat)
    requires Paired(m) && i < |m|
    ensures |m| % 2 == 0
    ensures m[i].direction == (if i % 2 == 0 then Outgoing else Incoming)
    decreases |m|
  {
    if i >= 2 {
      PairedAlternates(m[2..], i - 2);
    } else if |m| > 2 {
      PairedAlternates(m[2..], 0);
    }
  }

  /** One more exchange, an outgoing message and its answer, keeps a
      conversation paired. */
  lemma PairedExchange(m: seq<Message>, sent: string, text: string)
    requires Paired(m)
    ensures Paired(m + [Message(Outgoing, sent), Message(Incoming, text)])
  {
    var pair := [Message(Outgoing, sent), Message(Incoming, text)];
    assert Paired(pair) by { assert pair[2..] == []; }
    PairedAppend(m, pair);
  }

  class Conversation {
    var messages: seq<Message>
    var prompt: string
    var loading: bool

    /** Between sends nothing is pending and the messages come in pairs. */
    ghost predicate Valid()
      reads this
    {
      !loading && Paired(messages)
    }

    /** The page's initial state: no messages, an empty input, not busy. */
    constructor ()
      ensures Valid()
      ensures messages == [] && prompt == "" && !loading
    {
      messages := [];
      prompt := "";
      loading := false;
    }

    /** The input box's `onChange`: the prompt becomes the typed text. */
    method EditPrompt(text: string)
      requires Valid()
      modifies this`prompt
      ensures Valid()
      ensures prompt == text
    {
      prompt := text;
    }

    /** `handleSendMessage` for one request, run to completion: a blank
        prompt changes nothing; otherwise the prompt is appended as an
        outgoing message, then exactly one incoming message carrying the
        reply or the fixed error text, and the input is cleared. */
    method Send(reply: Reply)
      requires Valid()
      modifies this
      ensures Valid()
      ensures if IsBlank(old(prompt)) then
                messages == old(messages) && prompt == old(prompt) && loading == old(loading)
              else
                messages == old(messages) + [Message(Outgoing, old(prompt)), Message(Incoming, IncomingText(reply))] &&
                prompt == "" && !loading
      ensures old(messages) <= messages
    {
      if !IsBlank(prompt) {
        Exchange(reply);
      }
    }

    /** The part of `handleSendMessage` after the blank check: the busy flag
        is raised, the prompt goes out, the reply comes in, and the flag and
        the input are cleared. */
    method Exchange(reply: Reply)
      requires Valid()
      modifies this
      ensures Valid()
      ensures messages == old(messages) + [Message(Outgoing, old(prompt)), Message(Incoming, IncomingText(reply))]
      ensures prompt == "" && !loading
    {
      loading := true;
      var sent := prompt;
      var before := messages;
      messages := messages + [Message(Outgoing, sent)];
      var text := IncomingText(reply);
      messages := messages + [Message(Incoming, text)];
      loading := false;
      prompt := "";
      assert messages == before + [Message(Outgoing, sent), Message(Incoming, text)];
      PairedExchange(before, sent, text);
    }
  }

  /** A prompt the page sends is never refused by the route: the page shows
      the service's text on success and the fixed error text otherwise. */
  lemma SendThroughRoute(prompt: string, generate: Api.Generator)
    requires !IsBlank(prompt)
    ensures var answer := Api.Handle(Api.Request("POST", Api.Text(prompt)), generate);
            answer.status != 400 && answer.status != 405 &&
            IncomingText(ReplyOf(answer)) ==
              match generate(Api.Text(prompt))
              case Success(t) => t
              case Failure(_) => FetchErrorText
  {
    NotBlankNotEmpty(prompt);
    var answer := Api.Handle(Api.Request("POST", Api.Text(prompt)), generate);
    match generate(Api.Text(prompt))
    case Success(t) =>
      assert ReplyOf(answer) == Received(t);
    case Failure(_) =>
      assert ReplyOf(answer) == FetchFailed;
  }

  /** The route tests only falsiness, so a prompt of white space alone,
      which the page never sends, is accepted by the route and passed to the
      service like any other text. */
  lemma BlankPromptAccepted(t: string, generate: Api.Generator)
    requires t != "" && IsBlank(t)
    ensures var answer := Api.Handle(Api.Request("POST", Api.Text(t)), generate);
            answer.status != 400 &&
            answer == (if generate(Api.Text(t)).Success?
                       then Api.Response(200, Api.ResponseBody(generate(Api.Text(t)).value))
                       else Api.GenerationFailed)
  {
  }

  /** Such prompts exist: three spaces are blank to the page. */
  lemma SpacesAreBlank()
    ensures IsBlank("   ") && "   " != ""
  {
  }
}
