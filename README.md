# Gemini chatbot: verified model of the chat page and the generate route

This project models the parts of a small web chat client that contain
logic. The client forwards prompts to a generative-language service and
renders the replies. It has four modules.

- **Render** (`render.dfy`) models `renderMessage` and the branch test of
  `getCodeOutput` in `pages/index.js`. A message shows the content of its
  first fenced block (`/```([\s\S]*?)```/`). If there is none, it shows its
  first inline span (`` /`([^`]+)`/ ``). Otherwise it shows the plain text.
  A code fragment goes down the "component" branch when it contains both
  `<` and `>`, and down the "expression" branch otherwise. Both regular
  expressions are written out as first-occurrence searches. Their
  leftmost-match semantics (and, for the fence, the lazy group) are stated
  separately as reference predicates (`FirstFenceSpan`, `FirstTickSpan`).
  `Extract` is proved against those predicates.
- **Chat** (`chat.dfy`) models the page's state and `handleSendMessage`.
  The state is the message list, the input text and the busy flag, held in
  a class `Conversation`. The awaited `fetch` becomes a `Reply` parameter.
  A blank prompt changes nothing. Otherwise exactly one outgoing and one
  incoming message are appended, and the input is cleared. The invariant
  `Paired` (every outgoing message is followed by exactly one incoming one)
  is kept by every send.
- **Api** (`api.dfy`) models the `handler` of `pages/api/generate.js` as a
  pure function from a request and the service call to a status and a JSON
  body: 405, then 400, then 200 or 500.
- **Strings** (`strings.dfy`) holds the substring search both regular
  expressions and `includes` rely on, and JavaScript's `trim`. Trimming
  uses the WhiteSpace and LineTerminator code points of ECMA-262
  (sections 12.2 and 12.3).

Two details of the code decide the model:
- The route tests only `!prompt`, so a prompt of white space alone is
  accepted and sent to the service (`Chat.BlankPromptAccepted`). Only the
  page trims.
- While a request is pending, only the send button is disabled. The Enter
  key path (`pages/index.js:119-123`) has no such guard.

## Model

| member | source | states |
|---|---|---|
| Strings.IndexFrom | pages/index.js:7 | The result is the first index at or after `from` where the pattern occurs, with no occurrence before it. None means there is no occurrence at or after `from`. |
| Strings.IncludesChar | pages/index.js:45 | `s.includes(c)` for a one-character string holds exactly when `c` is a character of `s`. |
| Strings.TrimStart | pages/index.js:81 | The result is a suffix of the input. Everything cut off is white space, and the result does not start with white space. |
| Strings.TrimEnd | pages/index.js:81 | The result is a prefix of the input. Everything cut off is white space, and the result does not end with white space. |
| Strings.Trim | pages/index.js:81 | `prompt.trim()` is a contiguous slice of the prompt. Everything before and after it is white space, and the slice neither starts nor ends with white space. |
| Strings.TrimmedEmptyIffAllSpace | pages/index.js:81 | Trimming leaves the empty string exactly when every character is white space. |
| Strings.IsBlank | pages/index.js:81 | `!prompt.trim()` holds exactly when every character of the prompt is white space, the empty prompt included. |
| Render.FindFence | pages/index.js:7-11 | Finds the regex's match: the leftmost opener, then the nearest closer at or after the opener's end. None means there is no fence pair anywhere. |
| Render.FindTickSpan | pages/index.js:23-25 | Finds the leftmost backtick pair with at least one character and no backtick between them. None means there is no such pair. |
| Render.Extract | pages/index.js:5-38 | Fenced exactly when some fence pair exists, with the code between the first opener and its nearest closer. Inline gives the leftmost backtick span. Plain exactly when neither regex matches. |
| Render.Classify | pages/index.js:45 | The component branch is taken exactly when the fragment includes both `<` and `>`. |
| Render.RenderMessage | pages/index.js:10-37 | Plain text exactly when no fragment is found, and then the text is unchanged. Otherwise the view shows the extracted fragment and its branch. |
| Render.FencedFragmentHasNoFence | pages/index.js:7 | A fenced fragment never contains "```", because the group is lazy. |
| Render.FencedFramed | pages/index.js:7-11 | The text is `pre + "```" + fragment + "```" + post`, where `pre` ends at the first "```" of the text. |
| Render.InlineShape | pages/index.js:23-25 | An inline fragment is non-empty, holds no backtick, and is framed by backticks in the text. |
| Render.InlineOnlyWithoutFence | pages/index.js:10-24 | The inline branch is reached only when no fence pair exists anywhere in the text. |
| Render.NoTickIsPlain | pages/index.js:36-37 | Text without a backtick renders as itself, and no code is run. |
| Render.FenceBeatsEarlierInline | pages/index.js:10-25 | For every text with a fence pair and an inline span that ends before the opener, the fenced fragment is shown and the inline span is ignored. |
| Render.FenceBeatsEarlierInlineExample | pages/index.js:10-25 | Example: in "`a` ```b```" the fragment is "b". |
| Render.FencedTwoPlusTwo | pages/index.js:7-11 | Example: the fragment of "```2+2```" is "2+2". |
| Render.FencedExpressionExample | pages/index.js:10-17 | Example: "```2+2```" yields the fragment "2+2" on the expression branch. |
| Render.EmptyFenceExample | pages/index.js:7-11 | Example: "``````" yields an empty fenced fragment, because the lazy group may match nothing. |
| Api.Falsy | pages/api/generate.js:10 | `!prompt` holds exactly for a missing prompt, the empty string and a falsy value of another type. A non-empty string is truthy even when it is only white space. |
| Api.Handle | pages/api/generate.js:3-27 | A non-POST request gets 405 "Method not allowed". A POST with a falsy prompt gets 400 "Prompt is required". Otherwise the service's text comes back as 200 `{response}`, and any failure becomes 500 "Failed to generate content". |
| Api.StatusMeaning | pages/api/generate.js:4-26 | The status is one of 200, 400, 405 and 500. Each status matches exactly one guard outcome, and only 200 carries a `{response}` body. |
| Api.RejectionIgnoresService | pages/api/generate.js:4-12 | A rejected request gets the same answer whatever the service would do, so the service is never called. |
| Api.MethodBeforePrompt | pages/api/generate.js:4-12 | A non-POST request with a missing or empty prompt gets 405, not 400. |
| Chat.IncomingText | pages/index.js:103-112 | The incoming message carries the `response` text of a successful reply, and "Error: Failed to fetch response." for a failed one. |
| Chat.ReplyOf | pages/index.js:97-105 | The page receives text exactly when the status is 2xx and the body has a `response` field, and then the text is that field. |
| Chat.PairedAppend | pages/index.js:84-112 | Appending one paired conversation to another keeps every outgoing message followed by exactly one incoming one. |
| Chat.PairedAlternates | pages/index.js:84-112 | A paired conversation has even length, with outgoing messages at even positions and incoming ones at odd positions. |
| Chat.Conversation.constructor | pages/index.js:75-77 | The page starts with no messages, an empty prompt and not busy. |
| Chat.Conversation.EditPrompt | pages/index.js:160 | Typing replaces the prompt and nothing else. |
| Chat.PairedExchange | pages/index.js:84-112 | One more outgoing message followed by its incoming answer keeps a conversation paired. |
| Chat.Conversation.Send | pages/index.js:80-117 | A blank prompt changes nothing. Otherwise the messages become `old + [outgoing(prompt), incoming(text or "Error: Failed to fetch response.")]`, `loading` is false and the prompt is empty. Earlier messages are kept, and pairing is preserved. |
| Chat.Conversation.Exchange | pages/index.js:82-116 | The steps after the blank check: the outgoing and the incoming message are appended in that order, then `loading` is cleared and the prompt emptied, and pairing is preserved. |
| Chat.SendThroughRoute | pages/index.js:91-112 | The route never answers 400 or 405 to a prompt the page sends. The page shows the service's text on success and the fixed error text otherwise. |
| Chat.BlankPromptAccepted | pages/api/generate.js:10-22 | Every non-empty prompt of white space alone, which the page would not send, passes the route's check and reaches the service, like any other text. |
| Chat.SpacesAreBlank | pages/index.js:81 | Example: three spaces are blank to the page, so such prompts exist. |

## Left out

- Code execution is not modelled, only the branch choice. This covers `eval`, `new Function`, `JSON.stringify` of the result, and mounting a component into a sandbox `div` (`pages/index.js:46-69`). These are host evaluation with no statable meaning. In the source, `createRoot` is never imported, so the component branch always ends in the caught error view.
- `pages/Codeoutput.js` is not part of this model. It is an `eval` wrapper with a syntax highlighter.
- The network and the SDK are parameters, not code. `fetch` and `res.json()` become `Chat.Reply`. The `GoogleGenerativeAI` client, the `GEMINI_API_KEY` credential, the model name and `generateContent` become `Api.Generator`.
- Concurrency is not modelled. One send runs to completion as a single step, so `loading` is true only inside `Send`. A second send started by Enter while a request is pending (`handleKeyDown`, `pages/index.js:119-123`, which has no busy guard) is not modelled, and no no-duplicate property is claimed.
- Chat.ReplyOf: for a 2xx body without a `response` field, the source would append a message whose text is `undefined`. The model treats that case as a failure. The route never produces such a body (`Api.StatusMeaning`).
- A request whose body is null or undefined is not modelled. The destructuring `const { prompt } = req.body` would throw outside the `try`. `Api.Handle` takes the body's `prompt` property as already read.
- JavaScript strings are UTF-16 code units. The model works on Unicode scalar values, so a surrogate pair counts as one character here.
- Presentation is not modelled: syntax highlighting, styles, smooth scrolling, the "Generating response..." indicator, the button's disabled state, and `console.error` logging.
