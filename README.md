# Word-aligned SSE relay of the `/chat` handler

This project models the streaming half of the `POST /chat` handler in
`server.js` and proves properties about it. That half starts once the
assistant run is open. It reads the run's events in order. From each
`thread.message.delta` event it takes the text of every content part. It
appends that text to a buffer and splits the buffer after every space with
`buffer.split(/(?<= )/)`. Every piece but the last is written at once as a
server-sent event frame `data: <word>\n\n`, and the last piece stays in the
buffer. When the run ends, the buffer is written as it is if `trim()` leaves
something of it. A `data: [DONE]\n\n` frame always comes last.

Modules:

- `WordSplit` (`word_split.dfy`) models the split itself. `SplitFrom` is
  the ECMAScript split loop for the zero-width look-behind `(?<= )`: it tries
  positions below the string's length only, and an empty match where the
  current piece starts is not a cut. So the cuts fall at every index `i` with
  `0 < i < |s|` and `s[i-1] == ' '`, and a space that ends the buffer is not
  a cut. The predicate `IsSplitOf` states which pieces such a cut must
  produce, and `SplitUnique` proves that those pieces are unique.
- `ServerSentEvents` (`server_sent_events.dfy`) holds the frame written by
  `res.write`. It follows the `data:` field of section 9.2 of the HTML Living
  Standard (server-sent events).
- `JsText` (`js_text.dfy`) holds ECMAScript's `String.prototype.trim`, with
  its whitespace set written out.
- `ChatStream` (`chat_stream.dfy`) holds the upstream event and the
  `Reassembler` class. The class has the handler's `buffer` and the frames
  written so far (`out`), plus two ghost fields: the text received and the
  words written. Its methods are `Push` (one part's text), `WriteWords` (the
  `while (words.length > 1)` shift loop), `Feed` (one event) and `Close`
  (end of stream). `HandleChat` runs a whole stream. The methods are
  proved against the functions `Emitted`, `Residual`, `Payloads` and
  `StreamFrames`, which give the whole response as a function of the
  concatenated text alone. So how the
  upstream chunks the text never changes what is written.

Three consequences of the code as written are worth spelling out:

- A space that ends the buffer is not a cut. So the single fragment `"a b c "`
  writes `"a "` and `"b "` during its push, and `"c "` is written at the
  close, just before the sentinel.
- A push writes one word per space of the old buffer plus the fragment,
  except a final space. So a fragment with no space still writes the held
  word when the buffer ended in a space.
- The handler keeps no session state. Each request creates a new thread
  (`server.js:35`).

The sentinel frame `data: [DONE]\n\n` is written once at the end. It is
also written as an earlier whole frame exactly when the text after the last
cut is exactly `[DONE]`: then the residual frame written just before the
sentinel equals the sentinel, and the client sees the end of the stream twice
(`DoneCollision`). In every other case no frame before the last is the
sentinel (`DoneOnlyAtEnd`). These statements are about whole frames: a
payload holding a blank line, such as the residual of `"[DONE]\n\nzzz"`, can
still make a client see `[DONE]` early (see "## Left out").

## Model

| member | source | states |
|---|---|---|
| `WordSplit.SplitFrom` | server.js:75 | the split loop always yields at least one piece |
| `WordSplit.SplitAfterSpaces` | server.js:75 | `split` on the buffer yields at least one piece, so `words[0]` always exists |
| `WordSplit.SplitFromIsSplit` | server.js:75 | the loop cuts after each space it passes and nowhere else; the pieces concatenate back to the input |
| `WordSplit.SplitIsSplit` | server.js:75 | the split's pieces concatenate to the buffer; every piece but the last is non-empty and ends with its only space; the last has no space before its final character and is empty only when it is the only piece |
| `WordSplit.SplitUnique` | server.js:75 | those conditions determine the pieces: any two sequences that meet them for the same string are equal |
| `WordSplit.SplitCount` | server.js:75-82 | the number of pieces minus one equals the number of spaces at positions other than the last |
| `WordSplit.SplitSingle` | server.js:75-82 | the split writes no word exactly when the buffer has no space before its final character |
| `WordSplit.SplitExtend` | server.js:72-85 | splitting the received text plus more text keeps the words already cut and re-cuts only the held piece plus the new text |
| `WordSplit.HeldWordReleased` | server.js:72-82 | a held word that ends in a space is written when a non-empty fragment with no space arrives |
| `WordSplit.HelloWorldExample` | server.js:72-85 | for fragments "Hel", "lo ", "wor", "ld", "Hello " is cut during the third push and not the second, and "world" is held |
| `WordSplit.TrailingSpaceExample` | server.js:75-85 | "a b c " is cut into "a ", "b " and the held "c " |
| `JsText.TrimStart` | server.js:91 | removing leading whitespace leaves a suffix of the string |
| `JsText.TrimEnd` | server.js:91 | removing trailing whitespace leaves a prefix of the string |
| `JsText.TrimStartRemovesWhitespace` | server.js:91 | every character `TrimStart` removes is whitespace |
| `JsText.TrimEndRemovesWhitespace` | server.js:91 | every character `TrimEnd` removes is whitespace, and a non-empty result ends with a character that is not |
| `JsText.Trim` | server.js:91 | `trim()` is never longer than its input, and is empty (falsy) exactly when every character is ECMAScript whitespace: tab, vertical tab, form feed, zero-width no-break space, the Zs space separators, line feed, carriage return and the line and paragraph separators (`IsWhitespace`) |
| `ServerSentEvents.Frame` | server.js:80 | the written frame is eight characters longer than its payload, and reading the payload back from it gives the word written; the residual frame and the sentinel `DoneFrame` (`server.js:92`, `97`) have the same form |
| `ServerSentEvents.FrameInjective` | server.js:80 | two frames are equal exactly when their payloads are equal |
| `ServerSentEvents.Frames` | server.js:78-82 | successive writes give one frame per payload |
| `ServerSentEvents.FramesAt` | server.js:78-82 | the k-th frame written carries the k-th payload |
| `ServerSentEvents.FramesAppend` | server.js:78-82 | writing two runs of payloads one after the other writes the frames of the first, then those of the second |
| `ChatStream.PartTexts` | server.js:64-68 | an event that is not a `thread.message.delta`, or a delta without content, contributes no part text |
| `ChatStream.ReceivedAppend` | server.js:60-72 | the text a run delivers is the text of its first events followed by that of the rest, so the events can be read one at a time |
| `ChatStream.TextlessRun` | server.js:60-72 | a run none of whose events carries parts delivers no text |
| `ChatStream.Reassembly` | server.js:75-85 | the words one push writes are non-empty and end with their only space; it writes one word per space before the last position; the new buffer has no space before its final character and is non-empty after a non-empty push |
| `ChatStream.StreamContent` | server.js:57-97 | the written words followed by the buffer equal the received text; the frame payloads before the sentinel equal the received text, or equal it minus the residual when that residual is whitespace only |
| `ChatStream.StreamShape` | server.js:78-97 | one frame per payload in order, every one `data: <payload>\n\n` with a non-empty payload, then exactly one trailing `data: [DONE]\n\n` frame; the residual keeps the buffer's shape |
| `ChatStream.DoneOnlyAtEnd` | server.js:91-97 | no frame before the last equals the sentinel, unless the residual is `[DONE]` |
| `ChatStream.DoneCollision` | server.js:91-97 | when the residual text is `[DONE]`, the frame just before the sentinel equals the sentinel; with `DoneOnlyAtEnd` this is an if and only if |
| `ChatStream.CloseWrites` | server.js:90-97 | closing a state whose words and buffer are the split of the received text writes exactly the response for that text |
| `ChatStream.HelloWorldText` | server.js:60-72 | the deltas "Hel", "lo " and "wor", "ld", around an unrelated event, deliver "Hello world" |
| `ChatStream.HelloWorldPayloads` | server.js:75-92 | "Hello world" gives the payloads "Hello " and the residual "world" |
| `ChatStream.HelloWorldResponse` | server.js:57-97 | that run is written as `data: Hello `, `data: world` and `data: [DONE]` frames, in that order |
| `ChatStream.Reassembler.constructor` | server.js:57 | the buffer starts empty, with nothing written or received |
| `ChatStream.Reassembler.Push` | server.js:68-86 | empty text changes nothing; otherwise the new words are the split of old buffer plus text minus its last piece, the buffer is that last piece, one frame is appended per new word, and the invariant (words plus buffer are the split of all text received) is kept |
| `ChatStream.Reassembler.WriteWords` | server.js:78-85 | shifts off and writes every piece but the last, in order, and returns the last |
| `ChatStream.Reassembler.Feed` | server.js:64-87 | a message delta with content pushes its part texts in order; any other event, a delta without content, or parts whose texts are all empty leave buffer and output unchanged; output only grows |
| `ChatStream.Reassembler.Close` | server.js:90-97 | appends the untrimmed buffer when `trim()` leaves something of it, then the sentinel |
| `ChatStream.HandleChat` | server.js:57-98 | the frames written for a run's events are `StreamFrames` of the concatenated text of their parts, whatever the chunking |

## Left out

- Loading and checking the API key and assistant id, and `process.exit` (`server.js:13-21`): process start-up, not logic.
- Express, CORS, the response headers, `res.end()` and `app.listen` (`server.js:8-10`, `53-55`, `98`, `106-109`): HTTP plumbing.
- Creating the thread, the message and the streamed run (`server.js:35-48`): network calls. Their result is the input sequence of events.
- `for await` over the run (`server.js:60`): modelled as a loop over a finite sequence. There is no concurrency to capture.
- `console.log` and `console.error` calls: logging only.
- The 500 JSON response of the `catch` block (`server.js:99-102`): error plumbing that depends on whether headers were already sent. An exception thrown by the upstream run part-way is not modelled, so the properties about the sentinel and about the content written hold for runs that finish without an exception.
- The coercions in `part?.text?.value || part?.text` (`server.js:68`), such as a text object that stringifies to `[object Object]`: a part is modelled by its text string, and the empty string stands for missing or falsy text.
- JavaScript strings are UTF-16 code units, and the model's strings are sequences of Unicode scalar values. The split and `trim` only look at characters from the Basic Multilingual Plane, so they behave the same in both on well-formed UTF-16; text with unpaired surrogates has no counterpart in the model. The Zs category that `trim` uses is listed as of Unicode 15.
- How a client parses the frames: a payload that contains a line break does not reach a server-sent events client as one `data` field. The model stops at the frames written.
- Conversation sessions and idempotency tokens: this code has none (each request creates a new thread at `server.js:35`).
