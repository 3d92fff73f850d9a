/** The chat client's module-level state and its event handlers, as one
    object whose methods update the state in place. Each handler is proved
    against the pure rules of the `Chat` module; `rendered` records every
    state handed to `render()`, so the states the user sees are part of what
    is proved. */
module Client {
  import opened Strings
  import opened Chat

  class ChatClient {
    var messages: seq<Message>
    var isLoading: bool
    var uploadedFiles: seq<Attachment>
    var chatSession: Option<Session>
    var apiKey: string
    /** The stored `gemini_api_key` entry. */
    var savedKey: Option<string>
    /** Every state passed to `render()`, oldest first. */
    var rendered: seq<Store>

    function State(): Store
      reads this
    {
      Store(messages, isLoading, uploadedFiles, chatSession, apiKey)
    }

    ghost predicate Valid()
      reads this
    {
      ValidStore(State())
    }

    /** Start-up: the key comes from storage (or is empty), everything else
        starts empty and idle. */
    constructor(saved: Option<string>)
      ensures State() == Store([], false, [], None, LoadKey(saved))
      ensures savedKey == saved && rendered == []
      ensures Valid()
    {
      messages := [];
      isLoading := false;
      uploadedFiles := [];
      chatSession := None;
      apiKey := LoadKey(saved);
      savedKey := saved;
      rendered := [];
    }

    /** `render()`: shows the current state and changes nothing. */
    method Render()
      modifies this
      ensures State() == old(State()) && savedKey == old(savedKey)
      ensures rendered == old(rendered) + [old(State())]
    {
      rendered := rendered + [State()];
    }

    /** `initializeChat()`: the log becomes the single welcome message, with
        the setup note when no key is set. */
    method InitializeChat(now: int)
      modifies this
      ensures State() == old(State()).(messages := [Message(now, Model, WelcomeText(apiKey))])
      ensures savedKey == old(savedKey)
      ensures rendered == old(rendered) + [State()]
      ensures old(Valid()) ==> Valid()
    {
      var welcome := Greeting;
      if apiKey == [] {
        welcome := welcome + SetupNote;
      }
      messages := [Message(now, Model, welcome)];
      Render();
    }

    /** `saveApiKey()`: an input that trims to nothing is refused and changes
        nothing; otherwise the trimmed key is stored and made current, the
        session is dropped and a confirmation is shown. */
    method SaveApiKey(input: string, now: int)
      modifies this
      ensures State() == SaveKey(old(State()), input, now)
      ensures Trim(input) == [] ==> savedKey == old(savedKey) && rendered == old(rendered)
      ensures Trim(input) != [] ==> savedKey == Some(Trim(input)) && rendered == old(rendered) + [State()]
      ensures old(Valid()) ==> Valid()
    {
      ghost var s := State();
      if Valid() {
        SaveKeyKeepsValid(s, input, now);
      }
      var newKey := Trim(input);
      if newKey == [] {
        return;
      }
      assert SaveKey(s, input, now) == s.(apiKey := newKey, chatSession := None, messages := s.messages + [Message(now, Model, KeyUpdated)]);
      savedKey := Some(newKey);
      apiKey := newKey;
      chatSession := None;
      messages := messages + [Message(now, Model, KeyUpdated)];
      Render();
    }

    /** `handleFileSelection()`: each file of a non-empty batch is offered in
        turn; the state is shown once afterwards. */
    method HandleFileSelection(batch: seq<Attachment>)
      modifies this
      ensures State() == old(State()).(uploadedFiles := Select(old(uploadedFiles), batch))
      ensures savedKey == old(savedKey)
      ensures rendered == old(rendered) + (if batch != [] then [State()] else [])
      ensures old(Valid()) ==> Valid()
    {
      if |batch| > 0 {
        var i := 0;
        while i < |batch|
          invariant 0 <= i <= |batch|
          invariant State() == old(State()).(uploadedFiles := Select(old(uploadedFiles), batch[..i]))
          invariant savedKey == old(savedKey) && rendered == old(rendered)
        {
          var file := batch[i];
          SelectStep(old(uploadedFiles), batch, i);
          if Supported(file.name) {
            if !HasName(uploadedFiles, file.name) {
              uploadedFiles := uploadedFiles + [file];
            }
          }
          i := i + 1;
        }
        assert batch[..i] == batch;
        Render();
      }
      if old(Valid()) {
        FilesKeepValid(old(State()), batch, 0);
      }
    }

    /** `handleRemoveFile()`: `uploadedFiles.splice(index, 1)`, then shown. */
    method HandleRemoveFile(index: int)
      modifies this
      ensures State() == old(State()).(uploadedFiles := RemoveAt(old(uploadedFiles), index))
      ensures savedKey == old(savedKey)
      ensures rendered == old(rendered) + [State()]
      ensures old(Valid()) ==> Valid()
    {
      if Valid() {
        FilesKeepValid(State(), [], index);
      }
      uploadedFiles := RemoveAt(uploadedFiles, index);
      Render();
    }

    /** The error handler of `handleSendMessage()`. */
    method Catch(clock: Clock, message: string)
      modifies this
      ensures State() == Fail(old(State()), clock, message)
      ensures savedKey == old(savedKey)
      ensures rendered == old(rendered) + [State()]
    {
      messages := messages + [Message(clock.failure + 1, Model, ErrorText(message))];
      isLoading := false;
      Render();
    }

    /** The `for await` loop over the stream: each chunk is added to the
        running text, which is written into the first message with the
        reply id; the state is shown after each such write. */
    method StreamReply(responseId: int, chunks: seq<string>) returns (responseText: string)
      modifies this
      ensures responseText == Concat(chunks)
      ensures State() == old(State()).(messages := Deliver(old(messages), responseId, chunks))
      ensures savedKey == old(savedKey)
      ensures rendered == old(rendered) + StreamFrames(old(State()), responseId, chunks)
    {
      ghost var ready := State();
      responseText := "";
      var k := 0;
      while k < |chunks|
        invariant 0 <= k <= |chunks|
        invariant responseText == Concat(chunks[..k])
        invariant State() == ready.(messages := Deliver(ready.messages, responseId, chunks[..k]))
        invariant savedKey == old(savedKey)
        invariant rendered == old(rendered) + StreamFrames(ready, responseId, chunks[..k])
      {
        assert chunks[..k + 1][..k] == chunks[..k];
        responseText := responseText + chunks[k];
        var index := FindIndex(messages, responseId);
        if index != -1 {
          messages := messages[index := messages[index].(text := responseText)];
          Render();
        }
        k := k + 1;
      }
      assert chunks[..k] == chunks;
    }

    /** The start of the `try` block: loading on, the user's message echoed
        (naming the pending files) and shown. */
    method Echo(userMessage: string, clock: Clock)
      modifies this
      ensures State() == Echoed(old(State()), userMessage, clock)
      ensures savedKey == old(savedKey)
      ensures rendered == old(rendered) + [State()]
    {
      isLoading := true;
      messages := messages + [Message(clock.echo, User, EchoText(userMessage, Names(uploadedFiles)))];
      Render();
    }

    /** After the files are read: the pending files cleared, a session
        started if there is none, and the empty reply placeholder appended. */
    method OpenReply(clock: Clock) returns (responseId: int)
      modifies this
      ensures responseId == clock.reply + 1
      ensures State() == Ready(old(State()), clock)
      ensures savedKey == old(savedKey) && rendered == old(rendered)
    {
      uploadedFiles := [];
      if chatSession.None? {
        chatSession := Some(NewSession(apiKey));
      }
      responseId := clock.reply + 1;
      messages := messages + [Message(responseId, Model, [])];
    }

    /** The rest of the `try` block once the files are read: the request
        parts, the placeholder, the stream, and then either loading off or
        the `catch` block. */
    method Respond(userMessage: string, fileParts: seq<Part>, clock: Clock, reply: Reply)
      returns (sent: Option<seq<Part>>)
      modifies this
      ensures State() == Finish(Ready(old(State()), clock), clock, reply)
      ensures rendered == old(rendered) + StreamFrames(Ready(old(State()), clock), clock.reply + 1, reply.chunks) + [State()]
      ensures sent == Some(ContentParts(userMessage, fileParts))
      ensures savedKey == old(savedKey)
    {
      var responseId := OpenReply(clock);

      var contentParts: seq<Part> := [];
      if userMessage != [] {
        contentParts := contentParts + [TextPart(userMessage)];
      }
      if |fileParts| > 0 {
        contentParts := contentParts + fileParts;
      }
      assert contentParts == ContentParts(userMessage, fileParts);
      sent := Some(contentParts);

      var _ := StreamReply(responseId, reply.chunks);
      if reply.failure.Some? {
        Catch(clock, reply.failure.value);
      } else {
        isLoading := false;
        Render();
      }
    }

    /** The first part of the `try` block: the echo, then every pending
        file read in order; a file that fails to read sends the turn to the
        `catch` block. */
    method Prepare(userMessage: string, clock: Clock, encode: Attachment -> Result<string>)
      returns (read: Result<seq<Part>>)
      modifies this
      ensures read == EncodeAll(old(uploadedFiles), encode)
      ensures read.Ok? ==> State() == Echoed(old(State()), userMessage, clock) && rendered == old(rendered) + [State()]
      ensures read.Err? ==>
                && State() == Fail(Echoed(old(State()), userMessage, clock), clock, read.message)
                && rendered == old(rendered) + [Echoed(old(State()), userMessage, clock), State()]
      ensures savedKey == old(savedKey)
    {
      Echo(userMessage, clock);
      read := Ok([]);
      if |uploadedFiles| > 0 {
        read := ReadFiles(uploadedFiles, encode);
        if read.Err? {
          Catch(clock, read.message);
        }
      }
    }

    /** The `try` block of `handleSendMessage()` and its `catch`, entered
        with the trimmed text once the guards have passed. */
    method Send(userMessage: string, clock: Clock, encode: Attachment -> Result<string>, reply: Reply)
      returns (sent: Option<seq<Part>>)
      modifies this
      ensures State() == Submit(old(State()), userMessage, clock, EncodeAll(old(uploadedFiles), encode), reply).store
      ensures rendered == old(rendered) + Submit(old(State()), userMessage, clock, EncodeAll(old(uploadedFiles), encode), reply).rendered
      ensures sent == Submit(old(State()), userMessage, clock, EncodeAll(old(uploadedFiles), encode), reply).sent
      ensures savedKey == old(savedKey)
    {
      ghost var s := State();
      var read := Prepare(userMessage, clock, encode);
      if read.Err? {
        SubmitFailBranch(s, userMessage, clock, read, reply);
        return None;
      }
      sent := Respond(userMessage, read.value, clock, reply);
      SubmitStreamSteps(s, userMessage, clock, read, reply, old(rendered), rendered, State());
    }

    /** `handleSendMessage()`: one whole turn, with the clock readings, the
        file reader and the remote stream given as parameters. Returns the
        parts handed to the session, if the request was made. */
    method HandleSendMessage(input: string, clock: Clock, encode: Attachment -> Result<string>, reply: Reply)
      returns (sent: Option<seq<Part>>)
      modifies this
      ensures State() == Turn(old(State()), input, clock, encode, reply).store
      ensures rendered == old(rendered) + Turn(old(State()), input, clock, encode, reply).rendered
      ensures sent == Turn(old(State()), input, clock, encode, reply).sent
      ensures savedKey == old(savedKey)
      ensures old(Valid()) ==> Valid()
    {
      ghost var s := State();
      if Valid() {
        TurnKeepsValid(s, input, clock, encode, reply);
      }
      var userMessage := Trim(input);
      if userMessage == [] && |uploadedFiles| == 0 {
        return None;
      }
      if apiKey == [] {
        var text := if userMessage != [] then userMessage else AttachedFilesPrompt;
        messages := messages + [Message(clock.echo, User, text)];
        Render();
        return None;
      }
      sent := Send(userMessage, clock, encode, reply);
    }
  }

  /** The file-preparation loop of `handleSendMessage()`: each file is read
      in list order into an inline part; the first read that throws ends the
      loop with its error. */
  method ReadFiles(files: seq<Attachment>, encode: Attachment -> Result<string>) returns (r: Result<seq<Part>>)
    ensures r == EncodeAll(files, encode)
  {
    var fileParts: seq<Part> := [];
    var i := 0;
    while i < |files|
      invariant 0 <= i <= |files|
      invariant EncodeAll(files[..i], encode) == Ok(fileParts)
    {
      var file := files[i];
      assert files[..i + 1][..i] == files[..i];
      match encode(file) {
        case Err(m) =>
          EncodeAllStops(files, encode, i + 1);
          return Err(m);
        case Ok(data) =>
          fileParts := fileParts + [InlineData(file.mimeType, data)];
      }
      i := i + 1;
    }
    assert files[..i] == files;
    return Ok(fileParts);
  }
}
