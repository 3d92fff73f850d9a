# Analyst AI chat client — a verified model

This project models the core of `index.js`, the browser client of "Analyst AI".
The user types a question, may attach PDF, DOCX or TXT files, and gets an
answer streamed back from a remote Gemini chat session. The core is:

- the module-level state: the message log, the loading flag, the pending
  files, the chat session and the API key;
- the event handlers that change that state:
  - `initializeChat`;
  - `saveApiKey`;
  - `handleFileSelection` and `handleRemoveFile`;
  - `handleSendMessage`, with its file preparation, lazy session creation,
    reply placeholder, streaming loop and error handler;
- the pure rules inside them:
  - the file-type whitelist;
  - the user echo and the request parts;
  - the error-text classifier;
  - the pipe-table fix-up that `render` applies to every `model` message.

The project has four modules:

- `Strings` (`strings.dfy`): the JavaScript string operations the code uses.
  These are `trim` with the ECMAScript white-space set, `split` on one
  character, `join` and `includes`, written over `string`.
- `Tables` (`tables.dfy`): the table fix-up of `render`. It proves that the
  fix-up turns every line into a table row. When there is more than one
  line it inserts one header separator row. When the header has at least two
  pipes, the separator has as many columns as the header. A header that is
  a lone pipe gets the one-cell separator `|  |`.
- `Chat` (`chat.dfy`):
  - the values: `Message`, `Attachment`, `Part`, `Session` and `Store` (the
    module state as a value);
  - the pure rules;
  - `Turn`, a function that says what one submitted turn does. It gives the
    new store, every state handed to `render()` in order, and the parts
    sent to the session.

  The lemmas about `Turn` state what the client promises: the guards, the
  echo, the session life cycle, the typewriter frames, the error message,
  the loading flag, and the store invariant.
- `Client` (`client.dfy`): class `ChatClient`, holding the state fields that
  the handlers update in place. It also holds `savedKey`, the stored
  `gemini_api_key` entry, and `rendered`, every state passed to `render()`.

  Each handler is a method proved against the `Chat` functions.
  `HandleSendMessage` ends in the state `Turn` gives, shows the states
  `Turn` lists, and returns the parts `Turn` says are sent. The loops of the
  source are loops here:
  - the batch loop of `HandleFileSelection`;
  - the file-reading loop of `ReadFiles`;
  - the `for await` chunk loop of `StreamReply`.

The outside world enters as parameters:

- `Clock` holds the three `Date.now()` readings of a turn.
- `encode` is the `FileReader` conversion of a file to base64, which may
  throw.
- `Reply` is what the remote stream delivers: the chunk texts, then either a
  normal end or a thrown error.

A thrown error is `Err(message)`, with `""` standing for an error without a
`message`.

### Behaviour worth noting

- Submitting without a key appends only the user's message. It adds no
  guidance message (index.js:380-395). See `TurnWithoutKey`.
- The error handler never resets `chatSession` or `API_KEY`, not even when
  the remote end rejects the key (index.js:512-535). Only `saveApiKey` drops
  the session (index.js:117). See `TurnEncodingFails` and `FinishKeeps`.
- A stream that fails after some chunks keeps the partly filled placeholder.
  The error message is appended after it (index.js:496-530). See
  `TurnStreams`.

## Model

| member | source | states |
|---|---|---|
| Strings.TrimStartSpaces | index.js:374 | what `trim` removes at the front is white space |
| Strings.TrimStartStops | index.js:374 | what `trim` keeps does not start with white space |
| Strings.TrimEndSpaces | index.js:374 | what `trim` removes at the back is white space |
| Strings.TrimEndStops | index.js:374 | what `trim` keeps does not end with white space |
| Strings.Split | index.js:242 | `split` on one character gives one more piece than there are separators, and no piece holds the separator |
| Strings.JoinSplit | index.js:242-244 | splitting on a character and joining with it gives the text back |
| Strings.SplitJoin | index.js:245 | joining separator-free pieces and splitting again gives the pieces back |
| Strings.JoinContainsParts | index.js:404-405 | every joined part occurs in the join |
| Tables.ReplacePipesCount | index.js:243 | the global `\s*\|\s*` to `" \| "` replacement keeps the number of pipes |
| Tables.ReplacePipesNoNewline | index.js:243 | the replacement brings in no newline |
| Tables.WrapLineIsRow | index.js:242-244 | every rewritten line trims to a row that starts and ends with a pipe; a framed line gains exactly the two frame pipes; no newline is added |
| Tables.SeparatorMatchesHeader | index.js:247-248 | the inserted separator is a newline-free table row; under a header with at least two pipes it has exactly as many pipes (columns) as the header |
| Tables.NormalizeTablesUnchanged | index.js:241 | a text without a pipe, or with `---`, is left as it is |
| Tables.NormalizeTablesSplits | index.js:241-251 | when the fix-up applies, its output splits into exactly the expected rows: each input line made a row, with the separator at index 1 when there is more than one line |
| Tables.WithSeparatorShape | index.js:245-249 | the separator is inserted after the first row only when there is more than one line; every other row keeps its place |
| Tables.NormalizeTablesRows | index.js:241-251 | when the fix-up applies, the output lines are the input lines made rows, with one separator line (as wide as the header when the header has at least two pipes) inserted at index 1 when there is more than one line |
| Tables.NormalizeTablesAllRows | index.js:241-251 | when the fix-up applies, every output line is a table row |
| Chat.LastIndexOf | index.js:324 | `lastIndexOf` gives the last position holding the character, or -1 when there is none |
| Chat.ToLowerChars | index.js:326 | lower-casing works character by character |
| Chat.SupportedIff | index.js:323-326 | a name with a dot is accepted exactly when the part from its last dot, lower-cased, is `.pdf`, `.docx` or `.txt` |
| Chat.NoDotRejected | index.js:324-326 | a name without a dot is never accepted (`substring(-1)` compares the whole name) |
| Chat.Select | index.js:322-333 | offering a batch keeps every pending file in place and adds at most one file per offered file |
| Chat.SelectNames | index.js:322-333 | after a selection a name is pending exactly when it was pending before, or it is supported and some file of the batch has it |
| Chat.SelectKeepsInvariant | index.js:322-333 | selection keeps the pending list free of duplicate names and of unsupported files |
| Chat.SelectKeepsOrder | index.js:322-333 | the added files come from the batch in arrival order |
| Chat.SelectIsAccepted | index.js:322-333 | a selection appends exactly the batch files that are supported and whose name is neither pending nor carried by an earlier file of the batch, in batch order; so of two same-named files the first is kept |
| Chat.SelectKeepsFirstOfName | index.js:327-329 | for any pending list and any batch, a file whose name an earlier file of the same batch already carries adds nothing, so of two same-named files only the first can be added |
| Chat.RemoveAtIndex | index.js:345 | `splice(index, 1)` with an in-range index drops exactly that file and keeps the others in order (same multiset less one file); an index past the end changes nothing |
| Chat.RemoveAtKeepsInvariant | index.js:345 | removing a file keeps the pending list duplicate-free and supported |
| Chat.FilesKeepValid | index.js:319-347 | selecting and removing files keep the store invariant |
| Chat.EchoTextMentions | index.js:402-407 | without files the echo is the trimmed input; with files it starts with the input, is never empty and names every pending file |
| Chat.EncodeAllOk | index.js:421-435 | preparation succeeds exactly when every file reads, and then gives one inline part per file in list order with the file's MIME type |
| Chat.EncodeAllStops | index.js:424-432 | once a file fails to read, later files change nothing |
| Chat.EncodeAllSucceeds | index.js:421-435 | when every file reads, preparation succeeds |
| Chat.EncodeAllFirstError | index.js:424-432 | the first file that fails to read decides the error |
| Chat.ErrorTextCases | index.js:516-523 | the key-rejection text appears exactly when the message holds "API key not valid"; the apology exactly when there is no message; otherwise "Error: " followed by the message, which can be read back |
| Chat.FindIndex | index.js:501 | `findIndex` gives the first message with the id, or -1 exactly when there is none |
| Chat.SetTextKeepsIds | index.js:501-503 | writing the reply text changes no id, so the same message is found again |
| Chat.DeliverAccumulates | index.js:495-506 | after one or more chunks only the first message with the reply id has changed, and its text is the concatenation of all chunks so far |
| Chat.DeliverIntoPlaceholder | index.js:470-506 | with the placeholder as the only message with its id, the chunks fill it and nothing else |
| Chat.FindIndexLast | index.js:471-476 | a placeholder appended after messages with other ids is the one found |
| Chat.StreamFramesStep | index.js:496-506 | with the placeholder in the log, each chunk adds one rendered frame |
| Chat.StreamFramesCount | index.js:496-506 | with the placeholder in the log, there is one rendered frame per chunk |
| Chat.StreamFramesEachChunk | index.js:496-506 | the k-th frame holds the log after the first k + 1 chunks |
| Chat.WelcomeText | index.js:172-188 | the welcome starts with the greeting and is exactly the greeting when a key is set |
| Chat.TurnIgnoresEmpty | index.js:374-377 | with no text and no files, nothing changes and nothing is shown |
| Chat.TurnWithoutKey | index.js:380-395 | without a key, exactly one `user` message (the text, or the attached-files prompt) is appended and shown; nothing else changes and nothing is sent |
| Chat.FinishKeeps | index.js:508-534 | the end of a stream keeps the session, the key and the pending files, and turns loading off |
| Chat.ContentPartsLayout | index.js:478-489 | the request is the text part when there is text, then every file part in order |
| Chat.TurnSends | index.js:421-492 | a turn that reaches the model sends something exactly when every file reads; it sends a text part exactly when the trimmed input is not empty, then one inline part per pending file in list order |
| Chat.TurnSession | index.js:433-468 | when every file reads, the session is created if absent (bound to the key, `gemini-2.5-flash`, temperature 0.4) and reused otherwise; the key is kept and the pending files are cleared, even when the stream then fails |
| Chat.TurnEncodingFails | index.js:421-535 | when the file at i is the first that fails to read, the log gains the echo and one `model` error message classified from that file's error; the pending files, the session and the key are unchanged, loading is off, and nothing is sent |
| Chat.TurnStreams | index.js:397-536 | for a whole turn with readable files and a fresh reply id: earlier messages are untouched, then the echo, then the placeholder with all chunks concatenated, then an error message exactly when the stream failed |
| Chat.PlaceholderFrames | index.js:496-506 | the k-th frame holds the placeholder filled with the first k chunks, and the rest of the log as it was |
| Chat.FramedShowEachChunk | index.js:496-506 | frames that hold the placeholder filled so far, shown between two states, show each chunk |
| Chat.FramesShowEachChunk | index.js:496-510 | the echo, the stream's frames and the end state show each chunk in order |
| Chat.TurnShowsEachChunk | index.js:419-510 | the typewriter effect: a streaming turn shows the echo (loading on), then after the k-th chunk the placeholder holding the first k chunks (loading still on), then the final state |
| Chat.StreamFramesLoading | index.js:496-506 | every frame of the stream has loading on |
| Chat.TurnEndsIdle | index.js:371-536 | every turn from an idle store ends with loading off and shows that state last, whatever fails |
| Chat.TurnKeepsValid | index.js:371-536 | a turn keeps the store invariant: pending files supported and distinctly named, any live session bound to the current key, not loading |
| Chat.SaveKeyKeepsValid | index.js:100-130 | saving a key keeps the store invariant |
| Chat.SaveKeyRebinds | index.js:100-130 | after a key is saved, the next turn that reaches the model runs on a new session bound to that key, whatever session was live before |
| Client.ChatClient.constructor | index.js:8-28 | the key comes from storage or is empty; the log, the files and the session start empty and idle |
| Client.ChatClient.Render | index.js:193-313 | `render()` shows the current state and changes nothing |
| Client.ChatClient.InitializeChat | index.js:172-188 | the log becomes the single welcome message, which is then shown |
| Client.ChatClient.SaveApiKey | index.js:100-130 | an empty trimmed key changes nothing; otherwise the key is stored and made current, the session is dropped and a confirmation is appended and shown |
| Client.ChatClient.HandleFileSelection | index.js:319-338 | the pending files become the selection of the batch; the state is shown once when the batch is not empty; the invariant is kept |
| Client.ChatClient.HandleRemoveFile | index.js:344-347 | the pending files lose the file at the index as `splice` does; the state is shown; the invariant is kept |
| Client.ChatClient.Catch | index.js:512-535 | the error handler appends the classified error text, turns loading off and shows the state |
| Client.ChatClient.StreamReply | index.js:494-506 | the chunk loop builds the concatenation of the chunks, folds each into the placeholder and shows one frame per found placeholder |
| Client.ChatClient.Echo | index.js:397-419 | loading on, the echo appended and shown |
| Client.ChatClient.OpenReply | index.js:433-476 | pending files cleared, a session made if there is none, the empty placeholder appended with id `Date.now() + 1` |
| Client.ChatClient.Respond | index.js:470-534 | after the files are read: the placeholder, the parts sent, the stream, then loading off or the error handler |
| Client.ChatClient.Prepare | index.js:397-435 | the echo, then every file read; a failing read ends in the error handler |
| Client.ChatClient.Send | index.js:397-536 | the `try` block and its `catch` do what the submission function says |
| Client.ChatClient.HandleSendMessage | index.js:371-536 | a whole turn ends in the state `Turn` gives, shows the states it lists, sends the parts it names, and keeps the invariant |
| Client.ReadFiles | index.js:421-435 | the file-reading loop gives the prepared parts, or the error of the first file that fails |

## Left out

- Rendering to the DOM: `render()` is a snapshot of the state. The
  markdown renderer `marked`, the typing indicator, the disabled inputs, the
  file previews and scrolling are not modelled. The table fix-up that
  `render` applies to `model` messages is modelled, as `Tables`.
- Modal, drag-and-drop, `alert`, `console.error` and clearing the input
  fields are UI effects with no state in the core.
- `localStorage` is modelled only as the `gemini_api_key` entry (`savedKey`).
- The genAI client object is not modelled: a session is `NewSession(key)`.
  The SDK, the system instruction and the safety settings are fixed
  arguments to the remote service and are left out. The session records the
  key, the model name and the temperature.
- `FileReader` is the `encode` parameter. The base64 conversion itself is
  not modelled.
- Asynchrony: each `await` is a point where the given parameters are read.
  Interleaving with other events while a turn is awaiting (for example a
  file removed mid-turn) is not modelled.
- An error thrown as `null` or `undefined` makes the handler itself throw
  when it reads `error.message`. This is not modelled: every error here has
  a message, possibly empty.
- Chat.ToLower: lower-cases ASCII letters only. No other code point
  lower-cases to a character of `.pdf`, `.docx` or `.txt`, so the whitelist
  decision is the same.
- Client.ChatClient.HandleRemoveFile: takes an integer index. The source
  passes the `data-index` string, which `splice` converts to an integer.
- The `Date.now()` readings are free parameters. `TurnStreams` and
  `TurnShowsEachChunk` assume that the reply id `Date.now() + 1` is fresh:
  no earlier message carries it. A clock that merely never runs backwards
  does not give this. An earlier turn's placeholder or error message also
  has an id of the form `Date.now() + 1`, and it can equal this turn's when
  the readings coincide. `findIndex` then finds the older message, and the
  chunks overwrite it. The assumption holds when the placeholder's reading
  is strictly later than every reading of earlier turns, that is, when the
  clock advances between turns.
- `encode` fails with an arbitrary message, which is an over-approximation.
  In the source a failed read rejects with the reader's error event, which
  has no `message`, so the user always sees the apology text.
  `TurnEncodingFails` covers that case as `Err("")`. Its
  `ErrorText(encode(...).message)` is not a promise that an "Error: ..."
  reason is shown.
