/** The `POST /api/generate` route (pages/api/generate.js): a chain of guard
    clauses from the request to one status code and JSON body. The call to
    the generative-language service is a parameter: the function that maps
    the prompt to the text it returns or to the failure it raises. */
module Api {

  datatype Result<T, E> = Success(value: T) | Failure(error: E)

  /** The `prompt` property of the parsed request body, as JavaScript sees
      it: absent (undefined), a string, or a value of some other type,
      which is either truthy or falsy (null, false, 0, NaN). */
  datatype PromptField = Absent | Text(text: string) | OtherValue(truthy: bool)

  /** `!prompt`: undefined, the empty string and the falsy values of other
      types; every non-empty string, however blank, is truthy. */
  predicate Falsy(p: PromptField)
    ensures Falsy(p) <==> p == Absent || p == Text("") || p == OtherValue(false)
  {
    match p
    case Absent => true
    case Text(t) => t == ""
    case OtherValue(truthy) => !truthy
  }

  datatype Request = Request(verb: string, prompt: PromptField)

  /** The JSON object the route writes: `{error}` or `{response}`. */
  datatype Body = ErrorBody(error: string) | ResponseBody(response: string)

  datatype Response = Response(status: int, body: Body)

  /** Whatever the client construction, `generateContent` or `text()` throws. */
  datatype ServiceError = ServiceError(message: string)

  /** The service call `model.generateContent(prompt)` followed by
      `response.text()`. */
  type Generator = PromptField -> Result<string, ServiceError>

  const NotAllowed: Response := Response(405, ErrorBody("Method not allowed"))
  const PromptRequired: Response := Response(400, ErrorBody("Prompt is required"))
  const GenerationFailed: Response := Response(500, ErrorBody("Failed to generate content"))

  /** `handler`: the method is checked first, then the prompt; only a POST
      with a truthy prompt reaches the service, whose text is returned as is
      and whose every failure becomes one fixed 500 answer. */
  function Handle(req: Request, generate: Generator): (r: Response)
    ensures req.verb != "POST" ==> r == NotAllowed
    ensures req.verb == "POST" && Falsy(req.prompt) ==> r == PromptRequired
    ensures req.verb == "POST" && !Falsy(req.prompt) ==>
              match generate(req.prompt)
              case Success(t) => r == Response(200, ResponseBody(t))
              case Failure(_) => r == GenerationFailed
  {
    if req.verb != "POST" then NotAllowed
    else if Falsy(req.prompt) then PromptRequired
    else
      match generate(req.prompt)
      case Success(text) => Response(200, ResponseBody(text))
      case Failure(_) => GenerationFailed
  }

  /** The status alone tells which guard answered: 405 exactly for a wrong
      method, 400 exactly for a POST without a prompt, 200 exactly when the
      service produced text, and the body is `{response}` only with 200. */
  lemma StatusMeaning(req: Request, generate: Generator)
    ensures Handle(req, generate).status in {200, 400, 405, 500}
    ensures Handle(req, generate).status == 405 <==> req.verb != "POST"
    ensures Handle(req, generate).status == 400 <==> req.verb == "POST" && Falsy(req.prompt)
    ensures Handle(req, generate).status == 200 <==>
              req.verb == "POST" && !Falsy(req.prompt) && generate(req.prompt).Success?
    ensures Handle(req, generate).body.ResponseBody? <==> Handle(req, generate).status == 200
  {
  }

  /** A rejected request never reaches the service: a wrong method or a
      missing prompt gets the same answer whatever the service would do. */
  lemma RejectionIgnoresService(req: Request, g1: Generator, g2: Generator)
    requires req.verb != "POST" || Falsy(req.prompt)
    ensures Handle(req, g1) == Handle(req, g2)
    ensures Handle(req, g1).status in {400, 405}
  {
  }

  /** The method check comes first: a non-POST request without a prompt is
      answered 405, not 400. */
  lemma MethodBeforePrompt(verb: string, generate: Generator)
    requires verb != "POST"
    ensures Handle(Request(verb, Absent), generate) == NotAllowed
    ensures Handle(Request(verb, Text("")), generate) == NotAllowed
  {
  }
}
