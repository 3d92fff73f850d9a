/** The values of the chat client and the pure rules of its handlers: which
    files are accepted, how a pending file is removed, how the user echo and
    the request parts are composed, how an error becomes a chat message, how
    streamed chunks are folded into the reply placeholder, and, as one
    function, what a whole submitted turn does to the store. */
module Chat {
  import opened Strings

  datatype Option<T> = None | Some(value: T)

  /** The outcome of an outside call that may throw; `Err` carries the
      thrown error's `message`, with `""` standing for a missing message. */
  datatype Result<T> = Ok(value: T) | Err(message: string)

  datatype Role = User | Model

  /** One entry of the message log; `id` is a `Date.now()` reading. */
  datatype Message = Message(id: int, role: Role, text: string)

  /** A file the user picked or dropped. */
  datatype Attachment = Attachment(name: string, mimeType: string, bytes: seq<bv8>)

  /** One part of a request to the remote model. */
  datatype Part = TextPart(text: string) | InlineData(mimeType: string, data: string)

  /** A remote chat session, bound at creation to the key and the sampling
      temperature it was started with. */
  datatype Session = Session(apiKey: string, model: string, temperature: real)

  /** The module-level state of the client: the message log, the loading
      flag, the pending files, the chat session and the API key. */
  datatype Store = Store(
    messages: seq<Message>,
    isLoading: bool,
    uploadedFiles: seq<Attachment>,
    chatSession: Option<Session>,
    apiKey: string)

  /** The `Date.now()` readings of one turn: at the user echo, at the reply
      placeholder (whose id is this plus one) and in the error handler (whose
      message id is this plus one). */
  datatype Clock = Clock(echo: int, reply: int, failure: int)

  /** What the remote stream delivers: the chunk texts in delivery order, then
      either normal end or an error (thrown by the request itself when no
      chunk came before it). */
  datatype Reply = Reply(chunks: seq<string>, failure: Option<string>)

  /** The effect of one submitted turn: the store afterwards, the states shown
      by each `render()` call in order, and the parts sent to the session. */
  datatype TurnResult = TurnResult(store: Store, rendered: seq<Store>, sent: Option<seq<Part>>)

  const ModelName := "gemini-2.5-flash"
  const Temperature := 0.4
  const ValidTypes := [".pdf", ".docx", ".txt"]
  const AttachedFilesPrompt := "Please analyze the attached file(s)."
  const FilesIntro := "Please analyze the following file(s): "
  const KeyUpdated := "API key has been updated successfully! You can now use the chat."
  const Greeting := "Hello! I'm Analyst AI. I can help you analyze documents and answer questions. Upload a document or ask me anything!"
  const SetupNote := "\n\n**Important Setup Required**: You need to set up your Gemini API key before using this application. Click the \"Set API Key\" button in the top right corner to get started."
  const InvalidKeyPhrase := "API key not valid"
  const KeyHelp := "Please use the \"Set API Key\" button to enter a valid key. "
    + "You can get one from [Google AI Studio](https://makersuite.google.com/app/apikey)."
  const InvalidKeyReply := "Your Gemini API key is invalid or not set. " + KeyHelp
  const Apology := "Sorry, an error occurred. " + "Please try again."
  const ErrorPrefix := "Error: "

  // ---------------------------------------------------------------------
  // File selection
  // ---------------------------------------------------------------------

  /** `s.lastIndexOf(c)`: the last position of `c`, or -1. */
  function LastIndexOf(s: string, c: char): (r: int)
    ensures -1 <= r < |s|
    ensures r >= 0 ==> s[r] == c
    ensures forall i :: r < i < |s| ==> s[i] != c
  {
    if s == [] then -1
    else if s[|s| - 1] == c then |s| - 1
    else LastIndexOf(s[..|s| - 1], c)
  }

  /** `name.substring(name.lastIndexOf('.'))`: from the last dot on, or the
      whole name when there is no dot (`substring(-1)` starts at 0). */
  function Extension(name: string): string {
    var dot := LastIndexOf(name, '.');
    if dot == -1 then name else name[dot..]
  }

  function LowerChar(c: char): char {
    if 'A' <= c <= 'Z' then (c as int + 32) as char else c
  }

  /** `s.toLowerCase()` on the ASCII letters. */
  function ToLower(s: string): (r: string)
    ensures |r| == |s|
  {
    if s == [] then [] else [LowerChar(s[0])] + ToLower(s[1..])
  }

  /** Lower-casing works character by character. */
  lemma {:induction false} ToLowerChars(s: string)
    ensures forall i :: 0 <= i < |s| ==> ToLower(s)[i] == LowerChar(s[i])
  {
    if s != [] {
      ToLowerChars(s[1..]);
      assert forall i :: 1 <= i < |s| ==> ToLower(s)[i] == ToLower(s[1..])[i - 1];
    }
  }

  /** The whitelist check of `handleFileSelection`. */
  predicate Supported(name: string) {
    ToLower(Extension(name)) in ValidTypes
  }

  /** A name is accepted exactly when the part after its last dot, with the
      dot and lower-cased, is `.pdf`, `.docx` or `.txt`; a name without a dot
      is compared whole and never accepted. */
  lemma {:induction false} SupportedIff(stem: string, ext: string)
    requires '.' !in ext
    ensures Supported(stem + "." + ext) <==> ToLower("." + ext) in ValidTypes
  {
    var name := stem + "." + ext;
    assert name[|stem|] == '.';
    assert forall i :: |stem| < i < |name| ==> name[i] == ext[i - |stem| - 1];
    assert LastIndexOf(name, '.') == |stem|;
    assert name[|stem|..] == "." + ext;
  }

  lemma {:induction false} NoDotRejected(name: string)
    requires '.' !in name
    ensures !Supported(name)
  {
    var lower := ToLower(name);
    ToLowerChars(name);
    assert Extension(name) == name;
    assert forall i :: 0 <= i < |lower| ==> lower[i] != '.';
    assert ".pdf"[0] == ".docx"[0] == ".txt"[0] == '.';
  }

  function Names(files: seq<Attachment>): (r: seq<string>)
    ensures |r| == |files|
  {
    seq(|files|, i requires 0 <= i < |files| => files[i].name)
  }

  /** `files.some(f => f.name === name)`. */
  predicate HasName(files: seq<Attachment>, name: string) {
    exists i :: 0 <= i < |files| && files[i].name == name
  }

  predicate DistinctNames(files: seq<Attachment>) {
    forall i, j :: 0 <= i < j < |files| ==> files[i].name != files[j].name
  }

  predicate AllSupported(files: seq<Attachment>) {
    forall i :: 0 <= i < |files| ==> Supported(files[i].name)
  }

  /** The pending list after the files of `batch` have been offered in
      order: a supported file is appended unless a pending file (including
      one accepted earlier in the batch) already has its name. */
  function Select(pending: seq<Attachment>, batch: seq<Attachment>): (r: seq<Attachment>)
    ensures |pending| <= |r| <= |pending| + |batch|
    ensures r[..|pending|] == pending
  {
    if batch == [] then pending
    else
      var before := Select(pending, batch[..|batch| - 1]);
      var file := batch[|batch| - 1];
      if Supported(file.name) && !HasName(before, file.name) then before + [file] else before
  }

  lemma {:induction false} HasNameAppend(files: seq<Attachment>, file: Attachment, name: string)
    ensures HasName(files + [file], name) <==> HasName(files, name) || file.name == name
  {
    if HasName(files, name) {
      var k :| 0 <= k < |files| && files[k].name == name;
      assert (files + [file])[k] == files[k];
    }
    if file.name == name {
      assert (files + [file])[|files|] == file;
    }
  }

  /** A name is pending after the selection exactly when it was pending
      before or some supported file of the batch carries it: a rejected
      file blocks nothing. */
  lemma {:induction false} SelectNames(pending: seq<Attachment>, batch: seq<Attachment>, name: string)
    ensures HasName(Select(pending, batch), name) <==>
            HasName(pending, name) || (Supported(name) && HasName(batch, name))
  {
    if batch != [] {
      var prefix := batch[..|batch| - 1];
      var file := batch[|batch| - 1];
      SelectNames(pending, prefix, name);
      assert batch == prefix + [file];
      HasNameAppend(prefix, file, name);
      HasNameAppend(Select(pending, prefix), file, name);
    }
  }

  /** Selection keeps the pending list free of duplicate names and of
      unsupported files. */
  lemma {:induction false} SelectKeepsInvariant(pending: seq<Attachment>, batch: seq<Attachment>)
    requires DistinctNames(pending) && AllSupported(pending)
    ensures DistinctNames(Select(pending, batch)) && AllSupported(Select(pending, batch))
  {
    if batch != [] {
      var before := Select(pending, batch[..|batch| - 1]);
      var file := batch[|batch| - 1];
      SelectKeepsInvariant(pending, batch[..|batch| - 1]);
      if Supported(file.name) && !HasName(before, file.name) {
        AppendKeepsInvariant(before, file);
      }
    }
  }

  /** Appending a supported file under a new name keeps the pending list
      free of duplicates and of unsupported files. */
  lemma {:induction false} AppendKeepsInvariant(files: seq<Attachment>, file: Attachment)
    requires DistinctNames(files) && AllSupported(files)
    requires Supported(file.name) && !HasName(files, file.name)
    ensures DistinctNames(files + [file]) && AllSupported(files + [file])
  {
    var r := files + [file];
    forall i, j | 0 <= i < j < |r| ensures r[i].name != r[j].name {
      assert r[i] == files[i];
      if j < |files| {
        assert r[j] == files[j];
      }
    }
    forall i | 0 <= i < |r| ensures Supported(r[i].name) {
      if i < |files| {
        assert r[i] == files[i];
      }
    }
  }

  /** Offering one more file of the batch: it is appended exactly when it is
      supported and no pending file has its name. */
  lemma {:induction false} SelectStep(pending: seq<Attachment>, batch: seq<Attachment>, i: nat)
    requires i < |batch|
    ensures var before := Select(pending, batch[..i]);
            Select(pending, batch[..i + 1]) ==
              if Supported(batch[i].name) && !HasName(before, batch[i].name) then before + [batch[i]] else before
  {
    assert batch[..i + 1][..i] == batch[..i];
  }

  /** The files a selection adds come from the batch in arrival order:
      `idx` gives, for each added file, its strictly increasing position in
      the batch. */
  lemma {:induction false} SelectKeepsOrder(pending: seq<Attachment>, batch: seq<Attachment>)
    returns (idx: seq<nat>)
    ensures |idx| == |Select(pending, batch)| - |pending|
    ensures forall k :: 0 <= k < |idx| ==>
              idx[k] < |batch| && Select(pending, batch)[|pending| + k] == batch[idx[k]]
    ensures forall k, l :: 0 <= k < l < |idx| ==> idx[k] < idx[l]
  {
    if batch == [] {
      idx := [];
    } else {
      var prefix := batch[..|batch| - 1];
      var prior := SelectKeepsOrder(pending, prefix);
      var before := Select(pending, prefix);
      var file := batch[|batch| - 1];
      var r := Select(pending, batch);
      forall k | 0 <= k < |prior| ensures prior[k] < |batch| && before[|pending| + k] == batch[prior[k]] {
        assert prefix[prior[k]] == batch[prior[k]];
      }
      if Supported(file.name) && !HasName(before, file.name) {
        idx := prior + [|batch| - 1];
        assert r == before + [file];
        forall k | 0 <= k < |idx| ensures idx[k] < |batch| && r[|pending| + k] == batch[idx[k]] {
          if k < |prior| {
            assert r[|pending| + k] == before[|pending| + k];
          }
        }
      } else {
        idx := prior;
        assert r == before;
      }
    }
  }

  /** The file at `j` of the batch is accepted: it is supported, and neither
      a pending file nor an earlier file of the batch has its name. */
  predicate FirstNew(pending: seq<Attachment>, batch: seq<Attachment>, j: nat)
    requires j < |batch|
  {
    Supported(batch[j].name) && !HasName(pending, batch[j].name) && !HasName(batch[..j], batch[j].name)
  }

  /** The accepted files of the batch, in batch order. */
  function Accepted(pending: seq<Attachment>, batch: seq<Attachment>): seq<Attachment> {
    if batch == [] then []
    else
      var j := |batch| - 1;
      Accepted(pending, batch[..j]) + (if FirstNew(pending, batch, j) then [batch[j]] else [])
  }

  /** Offering one more file appends it exactly when it is accepted. */
  lemma {:induction false} SelectAcceptsStep(pending: seq<Attachment>, batch: seq<Attachment>)
    requires batch != []
    ensures var j := |batch| - 1;
            Select(pending, batch) ==
              Select(pending, batch[..j]) + (if FirstNew(pending, batch, j) then [batch[j]] else [])
  {
    var j := |batch| - 1;
    SelectNames(pending, batch[..j], batch[j].name);
  }

  /** A selection appends to the pending files exactly the accepted files of
      the batch, in batch order: of two supported files with the same name
      the first is kept, and a file whose name is already pending is not
      added again. */
  lemma {:induction false} SelectIsAccepted(pending: seq<Attachment>, batch: seq<Attachment>)
    ensures Select(pending, batch) == pending + Accepted(pending, batch)
  {
    if batch != [] {
      var j := |batch| - 1;
      SelectIsAccepted(pending, batch[..j]);
      SelectAcceptsStep(pending, batch);
      var tail := if FirstNew(pending, batch, j) then [batch[j]] else [];
      assert pending + Accepted(pending, batch[..j]) + tail == pending + (Accepted(pending, batch[..j]) + tail);
    }
  }

  /** Two files with the same name in one batch: the later one adds nothing,
      whatever is pending and whatever comes before or between them. */
  lemma {:induction false} SelectKeepsFirstOfName(pending: seq<Attachment>, pre: seq<Attachment>, a: Attachment,
                                                   mid: seq<Attachment>, b: Attachment)
    requires a.name == b.name
    ensures Select(pending, pre + [a] + mid + [b]) == Select(pending, pre + [a] + mid)
  {
    var batch := pre + [a] + mid + [b];
    var j := |batch| - 1;
    SelectAcceptsStep(pending, batch);
    assert batch[..j] == pre + [a] + mid;
    assert batch[..j][|pre|] == a;
    assert HasName(batch[..j], batch[j].name);
  }

  /** `files.splice(index, 1)`: a negative index counts from the end (and is
      clamped at 0); an index at or past the end removes nothing. */
  function RemoveAt(files: seq<Attachment>, index: int): seq<Attachment> {
    var start := if index < 0 then (if |files| + index < 0 then 0 else |files| + index) else index;
    if start < |files| then files[..start] + files[start + 1..] else files
  }

  /** Removing by an in-range index drops exactly that file and keeps the
      others in order; an index past the end changes nothing. */
  lemma {:induction false} RemoveAtIndex(files: seq<Attachment>, index: int)
    ensures 0 <= index < |files| ==>
              && |RemoveAt(files, index)| == |files| - 1
              && (forall k :: 0 <= k < index ==> RemoveAt(files, index)[k] == files[k])
              && (forall k :: index <= k < |files| - 1 ==> RemoveAt(files, index)[k] == files[k + 1])
              && multiset(RemoveAt(files, index)) + multiset{files[index]} == multiset(files)
    ensures index >= |files| ==> RemoveAt(files, index) == files
  {
    if 0 <= index < |files| {
      assert files == files[..index] + [files[index]] + files[index + 1..];
    }
  }

  /** The file at position `k` after dropping the one at `start`. */
  lemma {:induction false} DroppedAt(files: seq<Attachment>, start: nat, k: nat)
    requires start < |files| && k < |files| - 1
    ensures (files[..start] + files[start + 1..])[k] == files[if k < start then k else k + 1]
  {
  }

  /** Removing a file keeps the pending list free of duplicates and of
      unsupported files. */
  lemma {:induction false} RemoveAtKeepsInvariant(files: seq<Attachment>, index: int)
    requires DistinctNames(files) && AllSupported(files)
    ensures DistinctNames(RemoveAt(files, index)) && AllSupported(RemoveAt(files, index))
  {
    var start := if index < 0 then (if |files| + index < 0 then 0 else |files| + index) else index;
    if start < |files| {
      var r := files[..start] + files[start + 1..];
      assert RemoveAt(files, index) == r;
      forall i, j | 0 <= i < j < |r| ensures r[i].name != r[j].name {
        DroppedAt(files, start, i);
        DroppedAt(files, start, j);
      }
      forall i | 0 <= i < |r| ensures Supported(r[i].name) {
        DroppedAt(files, start, i);
      }
    }
  }

  /** Selecting and removing files keep the store's invariant. */
  lemma {:induction false} FilesKeepValid(s: Store, batch: seq<Attachment>, index: int)
    requires ValidStore(s)
    ensures ValidStore(s.(uploadedFiles := Select(s.uploadedFiles, batch)))
    ensures ValidStore(s.(uploadedFiles := RemoveAt(s.uploadedFiles, index)))
  {
    SelectKeepsInvariant(s.uploadedFiles, batch);
    RemoveAtKeepsInvariant(s.uploadedFiles, index);
  }

  // ---------------------------------------------------------------------
  // Composition of the user echo and of the request
  // ---------------------------------------------------------------------

  function FileNote(names: seq<string>): string {
    FilesIntro + Join(names, ", ") + "."
  }

  /** The text of the user message echoed in a turn that reaches the model. */
  function EchoText(text: string, names: seq<string>): string {
    if |names| == 0 then text
    else if text != [] then text + "\n\n" + FileNote(names)
    else FileNote(names)
  }

  /** The echo is the input itself without files; with files it starts with
      the input, names every file and is never empty. */
  lemma {:induction false} EchoTextMentions(text: string, names: seq<string>)
    ensures |names| == 0 ==> EchoText(text, names) == text
    ensures StartsWith(EchoText(text, names), text)
    ensures |names| > 0 ==> EchoText(text, names) != []
    ensures forall i :: 0 <= i < |names| ==> Contains(EchoText(text, names), names[i])
  {
    var echo := EchoText(text, names);
    if |names| > 0 {
      if text != [] {
        assert echo == text + ("\n\n" + FileNote(names));
        assert echo[..|text|] == text;
      }
      forall i | 0 <= i < |names| ensures Contains(echo, names[i]) {
        JoinContainsParts(names, ", ", i);
        ContainsAfter(FilesIntro, Join(names, ", "), names[i]);
        ContainsBefore(FilesIntro + Join(names, ", "), ".", names[i]);
        if text != [] {
          ContainsAfter(text + "\n\n", FileNote(names), names[i]);
        }
      }
    }
  }

  /** The request parts: the text when there is any, then the file parts. */
  function ContentParts(text: string, fileParts: seq<Part>): seq<Part> {
    (if text != [] then [TextPart(text)] else []) + fileParts
  }

  /** Each pending file read in order; the first read that throws ends the
      preparation with its error. */
  function EncodeAll(files: seq<Attachment>, encode: Attachment -> Result<string>): Result<seq<Part>> {
    if files == [] then Ok([])
    else
      match EncodeAll(files[..|files| - 1], encode)
      case Err(m) => Err(m)
      case Ok(parts) =>
        var file := files[|files| - 1];
        match encode(file)
        case Err(m) => Err(m)
        case Ok(data) => Ok(parts + [InlineData(file.mimeType, data)])
  }

  /** Preparation succeeds exactly when every file reads, and then yields one
      inline part per file, in list order, carrying the file's MIME type. */
  lemma {:induction false} EncodeAllOk(files: seq<Attachment>, encode: Attachment -> Result<string>)
    ensures EncodeAll(files, encode).Ok? <==> forall i :: 0 <= i < |files| ==> encode(files[i]).Ok?
    ensures EncodeAll(files, encode).Ok? ==>
              && |EncodeAll(files, encode).value| == |files|
              && forall i :: 0 <= i < |files| ==>
                   EncodeAll(files, encode).value[i] == InlineData(files[i].mimeType, encode(files[i]).value)
  {
    if files != [] {
      var prefix := files[..|files| - 1];
      EncodeAllOk(prefix, encode);
      assert forall i :: 0 <= i < |prefix| ==> prefix[i] == files[i];
      if !EncodeAll(prefix, encode).Ok? {
        var i :| 0 <= i < |prefix| && !encode(prefix[i]).Ok?;
        assert !encode(files[i]).Ok?;
      }
    }
  }

  /** Once a file has failed to read, the later files change nothing. */
  lemma {:induction false} EncodeAllStops(files: seq<Attachment>, encode: Attachment -> Result<string>, i: nat)
    requires i <= |files|
    requires EncodeAll(files[..i], encode).Err?
    ensures EncodeAll(files, encode) == EncodeAll(files[..i], encode)
  {
    if i < |files| {
      var prefix := files[..|files| - 1];
      assert prefix[..i] == files[..i];
      EncodeAllStops(prefix, encode, i);
    } else {
      assert files[..i] == files;
    }
  }

  /** When every file reads, preparation succeeds. */
  lemma {:induction false} EncodeAllSucceeds(files: seq<Attachment>, encode: Attachment -> Result<string>)
    requires forall i :: 0 <= i < |files| ==> encode(files[i]).Ok?
    ensures EncodeAll(files, encode).Ok?
  {
    EncodeAllOk(files, encode);
  }

  /** When the file at `i` is the first that fails to read, preparation ends
      with its error. */
  lemma {:induction false} EncodeAllFirstError(files: seq<Attachment>, encode: Attachment -> Result<string>, i: nat)
    requires i < |files| && encode(files[i]).Err?
    requires forall j :: 0 <= j < i ==> encode(files[j]).Ok?
    ensures EncodeAll(files, encode) == Err(encode(files[i]).message)
  {
    var prefix := files[..|files| - 1];
    if i == |files| - 1 {
      EncodeAllOk(prefix, encode);
    } else {
      EncodeAllFirstError(prefix, encode, i);
    }
  }

  // ---------------------------------------------------------------------
  // Errors
  // ---------------------------------------------------------------------

  /** The chat text for an error whose message is `message` (`""` when the
      error has none). */
  function ErrorText(message: string): string {
    if message != [] && Contains(message, InvalidKeyPhrase) then InvalidKeyReply
    else if message != [] then ErrorPrefix + message
    else Apology
  }

  /** The three kinds of error text are told apart by the message alone: the
      key-rejection text exactly when the message holds "API key not valid",
      the apology exactly when there is no message, and otherwise "Error: "
      followed by the message, from which the message can be read back. */
  lemma {:induction false} ErrorTextCases(message: string)
    ensures ErrorText(message) == InvalidKeyReply <==> Contains(message, InvalidKeyPhrase)
    ensures ErrorText(message) == Apology <==> message == []
    ensures !Contains(message, InvalidKeyPhrase) && message != [] ==>
              StartsWith(ErrorText(message), ErrorPrefix) && ErrorText(message)[|ErrorPrefix|..] == message
  {
    if message == [] {
      assert !StartsWith(message, InvalidKeyPhrase);
      assert !Contains(message, InvalidKeyPhrase);
    }
    var t := ErrorText(message);
    if message != [] && !Contains(message, InvalidKeyPhrase) {
      assert t[0] == 'E';
      assert InvalidKeyReply[0] == 'Y' && Apology[0] == 'S';
      assert t[|ErrorPrefix|..] == message;
    }
    if message != [] && Contains(message, InvalidKeyPhrase) {
      assert InvalidKeyReply[0] != Apology[0];
    }
  }

  // ---------------------------------------------------------------------
  // The reply placeholder and the streamed chunks
  // ---------------------------------------------------------------------

  /** `messages.findIndex(msg => msg.id === id)`: the first message with the
      id, or -1. */
  function FindIndex(messages: seq<Message>, id: int): (r: int)
    ensures -1 <= r < |messages|
    ensures r == -1 <==> forall i :: 0 <= i < |messages| ==> messages[i].id != id
    ensures r >= 0 ==> messages[r].id == id && forall i :: 0 <= i < r ==> messages[i].id != id
  {
    if messages == [] then -1
    else if messages[0].id == id then 0
    else
      var r := FindIndex(messages[1..], id);
      if r == -1 then -1 else r + 1
  }

  /** Looks up the first message with the id and replaces its text; no
      message with the id means no change. */
  function SetText(messages: seq<Message>, id: int, text: string): seq<Message> {
    var j := FindIndex(messages, id);
    if j == -1 then messages else messages[j := messages[j].(text := text)]
  }

  /** Replacing a text changes no id, so the same message is found again. */
  lemma {:induction false} SetTextKeepsIds(messages: seq<Message>, id: int, text: string)
    ensures |SetText(messages, id, text)| == |messages|
    ensures forall i :: 0 <= i < |messages| ==> SetText(messages, id, text)[i].id == messages[i].id
    ensures FindIndex(SetText(messages, id, text), id) == FindIndex(messages, id)
  {
    var r := SetText(messages, id, text);
    var j := FindIndex(messages, id);
    var k := FindIndex(r, id);
    if j != -1 {
      assert r[j].id == id;
      assert k <= j;
      assert messages[k].id == id;
    }
  }

  /** The concatenation of the chunks in delivery order. */
  function Concat(chunks: seq<string>): string {
    if chunks == [] then [] else Concat(chunks[..|chunks| - 1]) + chunks[|chunks| - 1]
  }

  /** The message log after each chunk in turn has been added to the running
      response text and that text written into the message with the id. */
  function Deliver(messages: seq<Message>, id: int, chunks: seq<string>): seq<Message> {
    if chunks == [] then messages
    else SetText(Deliver(messages, id, chunks[..|chunks| - 1]), id, Concat(chunks))
  }

  /** After one or more chunks, only the first message with the id changes,
      and its text is the concatenation of all chunks so far. */
  lemma {:induction false} DeliverAccumulates(messages: seq<Message>, id: int, chunks: seq<string>)
    requires chunks != []
    ensures Deliver(messages, id, chunks) == SetText(messages, id, Concat(chunks))
  {
    var prefix := chunks[..|chunks| - 1];
    if prefix != [] {
      DeliverAccumulates(messages, id, prefix);
      var once := SetText(messages, id, Concat(prefix));
      SetTextKeepsIds(messages, id, Concat(prefix));
    }
  }

  /** The log with the placeholder as the only message carrying its id: after
      the chunks, the placeholder holds their concatenation. */
  lemma {:induction false} DeliverIntoPlaceholder(before: seq<Message>, id: int, chunks: seq<string>)
    requires forall i :: 0 <= i < |before| ==> before[i].id != id
    ensures Deliver(before + [Message(id, Model, [])], id, chunks) == before + [Message(id, Model, Concat(chunks))]
  {
    var log := before + [Message(id, Model, [])];
    if chunks != [] {
      DeliverAccumulates(log, id, chunks);
      FindIndexLast(before, Message(id, Model, []));
      assert SetText(log, id, Concat(chunks)) == log[|before| := Message(id, Model, Concat(chunks))];
    }
  }

  /** A message appended after messages with other ids is the one found. */
  lemma {:induction false} FindIndexLast(before: seq<Message>, last: Message)
    requires forall i :: 0 <= i < |before| ==> before[i].id != last.id
    ensures FindIndex(before + [last], last.id) == |before|
  {
    var log := before + [last];
    var r := FindIndex(log, last.id);
    assert log[|before|].id == last.id;
  }

  /** The states shown by the `render()` after each chunk: one per chunk for
      which the placeholder was found. */
  function StreamFrames(ready: Store, id: int, chunks: seq<string>): seq<Store> {
    if chunks == [] then []
    else
      var prefix := chunks[..|chunks| - 1];
      StreamFrames(ready, id, prefix)
      + (if FindIndex(Deliver(ready.messages, id, prefix), id) != -1
         then [ready.(messages := Deliver(ready.messages, id, chunks))]
         else [])
  }

  /** With the placeholder in the log, each chunk adds one frame: the log
      with every chunk so far delivered. */
  lemma {:induction false} StreamFramesStep(ready: Store, id: int, chunks: seq<string>)
    requires FindIndex(ready.messages, id) != -1
    requires chunks != []
    ensures StreamFrames(ready, id, chunks) ==
            StreamFrames(ready, id, chunks[..|chunks| - 1]) + [ready.(messages := Deliver(ready.messages, id, chunks))]
  {
    var prefix := chunks[..|chunks| - 1];
    if prefix != [] {
      DeliverAccumulates(ready.messages, id, prefix);
      SetTextKeepsIds(ready.messages, id, Concat(prefix));
    }
  }

  /** With the placeholder in the log, there is one frame per chunk. */
  lemma {:induction false} StreamFramesCount(ready: Store, id: int, chunks: seq<string>)
    requires FindIndex(ready.messages, id) != -1
    ensures |StreamFrames(ready, id, chunks)| == |chunks|
  {
    if chunks != [] {
      StreamFramesCount(ready, id, chunks[..|chunks| - 1]);
      StreamFramesStep(ready, id, chunks);
    }
  }

  /** With the placeholder in the log, every chunk is shown: the k-th frame
      holds the log after the first k + 1 chunks. */
  lemma {:induction false} StreamFramesEachChunk(ready: Store, id: int, chunks: seq<string>)
    requires FindIndex(ready.messages, id) != -1
    ensures |StreamFrames(ready, id, chunks)| == |chunks|
    ensures forall k :: 0 <= k < |chunks| ==>
              StreamFrames(ready, id, chunks)[k] == ready.(messages := Deliver(ready.messages, id, chunks[..k + 1]))
  {
    if chunks != [] {
      var prefix := chunks[..|chunks| - 1];
      StreamFramesEachChunk(ready, id, prefix);
      StreamFramesStep(ready, id, chunks);
      StreamFramesCount(ready, id, prefix);
      var earlier := StreamFrames(ready, id, prefix);
      var frames := earlier + [ready.(messages := Deliver(ready.messages, id, chunks))];
      forall k | 0 <= k < |chunks|
        ensures frames[k] == ready.(messages := Deliver(ready.messages, id, chunks[..k + 1]))
      {
        if k < |prefix| {
          assert frames[k] == earlier[k];
          assert prefix[..k + 1] == chunks[..k + 1];
        } else {
          assert chunks[..k + 1] == chunks;
        }
      }
    }
  }

  // ---------------------------------------------------------------------
  // Start-up and the API key
  // ---------------------------------------------------------------------

  /** The key read at start-up from the stored `gemini_api_key` entry: the
      stored text, or `""` when there is none. */
  function LoadKey(saved: Option<string>): string {
    if saved.Some? then saved.value else []
  }

  /** The text of the welcome message: the greeting, followed by the setup
      note exactly when no key is set. */
  function WelcomeText(apiKey: string): (r: string)
    ensures StartsWith(r, Greeting)
    ensures r == Greeting <==> apiKey != []
  {
    if apiKey == [] then
      var r := Greeting + SetupNote;
      assert |r| > |Greeting|;
      r
    else Greeting
  }

  /** `saveApiKey` on the store: an input that trims to nothing changes
      nothing; otherwise the trimmed key replaces the old one, the session is
      dropped and the confirmation message is appended. */
  function SaveKey(s: Store, input: string, now: int): Store {
    var key := Trim(input);
    if key == [] then s
    else s.(apiKey := key, chatSession := None, messages := s.messages + [Message(now, Model, KeyUpdated)])
  }

  // ---------------------------------------------------------------------
  // One turn
  // ---------------------------------------------------------------------

  function NewSession(apiKey: string): Session {
    Session(apiKey, ModelName, Temperature)
  }

  /** The session used for a turn: a new one when there is none, else the
      live one. */
  function EnsureSession(s: Store): Option<Session> {
    if s.chatSession.None? then Some(NewSession(s.apiKey)) else s.chatSession
  }

  /** The error handler: one `model` message with the error text, loading off. */
  function Fail(s: Store, clock: Clock, message: string): Store {
    s.(messages := s.messages + [Message(clock.failure + 1, Model, ErrorText(message))], isLoading := false)
  }

  /** What the store holds between turns: pending files are supported and
      distinctly named, a live session belongs to the current non-empty key,
      and no turn is loading. */
  predicate ValidStore(s: Store) {
    && DistinctNames(s.uploadedFiles)
    && AllSupported(s.uploadedFiles)
    && (s.chatSession.Some? ==> s.apiKey != [] && s.chatSession.value == NewSession(s.apiKey))
    && !s.isLoading
  }

  /** The store once a turn has reached the model: loading on and the user
      echo appended. */
  function Echoed(s: Store, text: string, clock: Clock): Store {
    s.(isLoading := true,
       messages := s.messages + [Message(clock.echo, User, EchoText(text, Names(s.uploadedFiles)))])
  }

  /** The store once every file has been read: no pending files, a session,
      and the empty reply placeholder appended. */
  function Ready(echoed: Store, clock: Clock): Store {
    echoed.(uploadedFiles := [], chatSession := EnsureSession(echoed),
            messages := echoed.messages + [Message(clock.reply + 1, Model, [])])
  }

  /** The store once the stream has ended: every chunk folded into the
      placeholder, then either loading off or the error handler. */
  function Finish(ready: Store, clock: Clock, reply: Reply): Store {
    var streamed := ready.(messages := Deliver(ready.messages, clock.reply + 1, reply.chunks));
    if reply.failure.Some? then Fail(streamed, clock, reply.failure.value) else streamed.(isLoading := false)
  }

  /** The part of a turn that runs once the guards have passed: the echo,
      the file preparation (whose outcome is `read`), the session, the
      placeholder, the stream and the error handler. */
  function Submit(s: Store, text: string, clock: Clock, read: Result<seq<Part>>, reply: Reply): TurnResult {
    var echoed := Echoed(s, text, clock);
    match read
    case Err(m) =>
      var failed := Fail(echoed, clock, m);
      TurnResult(failed, [echoed, failed], None)
    case Ok(fileParts) =>
      var ready := Ready(echoed, clock);
      var final := Finish(ready, clock, reply);
      TurnResult(final, [echoed] + StreamFrames(ready, clock.reply + 1, reply.chunks) + [final],
                 Some(ContentParts(text, fileParts)))
  }

  /** A turn submitted with `input` in the message box: nothing happens
      without text or files; without a key only the user's message is
      echoed; otherwise the turn is submitted to the model. */
  function Turn(s: Store, input: string, clock: Clock, encode: Attachment -> Result<string>, reply: Reply): TurnResult {
    var text := Trim(input);
    if text == [] && s.uploadedFiles == [] then
      TurnResult(s, [], None)
    else if s.apiKey == [] then
      var echoed := s.(messages := s.messages + [Message(clock.echo, User, if text != [] then text else AttachedFilesPrompt)]);
      TurnResult(echoed, [echoed], None)
    else
      Submit(s, text, clock, EncodeAll(s.uploadedFiles, encode), reply)
  }

  /** A run that shows `before`, then the echo, the frames of the stream and
      the end of the stream, has shown what a submission whose files all read
      shows, ends where it ends and sends what it sends. */
  lemma {:induction false} SubmitStreamSteps(s: Store, text: string, clock: Clock, read: Result<seq<Part>>, reply: Reply,
                                             before: seq<Store>, after: seq<Store>, final: Store)
    requires read.Ok?
    requires final == Finish(Ready(Echoed(s, text, clock), clock), clock, reply)
    requires after == before + [Echoed(s, text, clock)] + StreamFrames(Ready(Echoed(s, text, clock), clock), clock.reply + 1, reply.chunks) + [final]
    ensures final == Submit(s, text, clock, read, reply).store
    ensures after == before + Submit(s, text, clock, read, reply).rendered
    ensures Some(ContentParts(text, read.value)) == Submit(s, text, clock, read, reply).sent
  {
    var echoed := Echoed(s, text, clock);
    var frames := StreamFrames(Ready(echoed, clock), clock.reply + 1, reply.chunks);
    ShownAfter(before, [echoed], frames, [final]);
    SubmitStreamBranch(s, text, clock, read, reply);
    SubmitStreamShown(s, text, clock, read, reply);
  }

  /** Appending the states shown in stages appends them all at once. */
  lemma {:induction false} ShownAfter(before: seq<Store>, a: seq<Store>, b: seq<Store>, c: seq<Store>)
    ensures before + a + b + c == before + (a + b + c)
  {
  }

  /** A turn that passes the guards is a submission of the trimmed input. */
  lemma {:induction false} TurnSubmits(s: Store, input: string, clock: Clock, encode: Attachment -> Result<string>, reply: Reply)
    requires Trim(input) != [] || s.uploadedFiles != []
    requires s.apiKey != []
    ensures Turn(s, input, clock, encode, reply) == Submit(s, Trim(input), clock, EncodeAll(s.uploadedFiles, encode), reply)
  {
  }

  /** The branch of a submission in which a file fails to read. */
  lemma {:induction false} SubmitFailBranch(s: Store, text: string, clock: Clock, read: Result<seq<Part>>, reply: Reply)
    requires read.Err?
    ensures Submit(s, text, clock, read, reply).store == Fail(Echoed(s, text, clock), clock, read.message)
    ensures Submit(s, text, clock, read, reply).rendered == [Echoed(s, text, clock), Submit(s, text, clock, read, reply).store]
    ensures Submit(s, text, clock, read, reply).sent == None
  {
  }

  /** The streaming branch of a submission: where it ends and what it sends. */
  lemma {:induction false} SubmitStreamBranch(s: Store, text: string, clock: Clock, read: Result<seq<Part>>, reply: Reply)
    requires read.Ok?
    ensures Submit(s, text, clock, read, reply).store == Finish(Ready(Echoed(s, text, clock), clock), clock, reply)
    ensures Submit(s, text, clock, read, reply).sent == Some(ContentParts(text, read.value))
  {
  }

  /** The streaming branch of a submission: what it shows. */
  lemma {:induction false} SubmitStreamShown(s: Store, text: string, clock: Clock, read: Result<seq<Part>>, reply: Reply)
    requires read.Ok?
    ensures var ready := Ready(Echoed(s, text, clock), clock);
            Submit(s, text, clock, read, reply).rendered ==
              [Echoed(s, text, clock)] + StreamFrames(ready, clock.reply + 1, reply.chunks) + [Finish(ready, clock, reply)]
  {
  }

  /** A turn with neither text nor files changes nothing and shows nothing. */
  lemma {:induction false} TurnIgnoresEmpty(s: Store, input: string, clock: Clock, encode: Attachment -> Result<string>, reply: Reply)
    requires Trim(input) == [] && s.uploadedFiles == []
    ensures Turn(s, input, clock, encode, reply) == TurnResult(s, [], None)
  {
  }

  /** Without a key, a turn appends exactly one `user` message (the text, or
      the attached-files prompt) and changes nothing else: no session, no
      loading, the pending files kept, nothing sent. */
  lemma {:induction false} TurnWithoutKey(s: Store, input: string, clock: Clock, encode: Attachment -> Result<string>, reply: Reply)
    requires Trim(input) != [] || s.uploadedFiles != []
    requires s.apiKey == []
    ensures var r := Turn(s, input, clock, encode, reply);
            && r.store.messages == s.messages + [Message(clock.echo, User, if Trim(input) != [] then Trim(input) else AttachedFilesPrompt)]
            && r.store.isLoading == s.isLoading
            && r.store.uploadedFiles == s.uploadedFiles
            && r.store.chatSession == s.chatSession
            && r.store.apiKey == s.apiKey
            && r.rendered == [r.store]
            && r.sent == None
  {
  }

  /** The end of a stream keeps the session, the key and the (cleared)
      pending files, and turns loading off. */
  lemma {:induction false} FinishKeeps(ready: Store, clock: Clock, reply: Reply)
    ensures var final := Finish(ready, clock, reply);
            && final.chatSession == ready.chatSession
            && final.apiKey == ready.apiKey
            && final.uploadedFiles == ready.uploadedFiles
            && !final.isLoading
  {
  }

  /** The end of a stream leaves the log as the chunks made it, followed by
      the error message exactly when the stream failed. */
  lemma {:induction false} FinishMessages(ready: Store, clock: Clock, reply: Reply)
    ensures Finish(ready, clock, reply).messages ==
              Deliver(ready.messages, clock.reply + 1, reply.chunks)
              + (if reply.failure.Some? then [Message(clock.failure + 1, Model, ErrorText(reply.failure.value))] else [])
  {
  }

  /** The request parts: the text part first when there is text, then every
      file part in order. */
  lemma {:induction false} ContentPartsLayout(text: string, fileParts: seq<Part>)
    ensures var offset := if text != [] then 1 else 0;
            && |ContentParts(text, fileParts)| == offset + |fileParts|
            && (text != [] ==> ContentParts(text, fileParts)[0] == TextPart(text))
            && forall i :: 0 <= i < |fileParts| ==> ContentParts(text, fileParts)[offset + i] == fileParts[i]
  {
  }

  /** What a turn that reaches the model sends: a text part exactly when the
      trimmed input is not empty, then one inline part per pending file in
      list order; nothing is sent when a file fails to read. */
  lemma {:induction false} TurnSends(s: Store, input: string, clock: Clock, encode: Attachment -> Result<string>, reply: Reply)
    requires Trim(input) != [] || s.uploadedFiles != []
    requires s.apiKey != []
    ensures var r := Turn(s, input, clock, encode, reply);
            var files := s.uploadedFiles;
            var offset := if Trim(input) != [] then 1 else 0;
            && (r.sent.Some? <==> forall i :: 0 <= i < |files| ==> encode(files[i]).Ok?)
            && (r.sent.Some? ==>
                  && |r.sent.value| == offset + |files|
                  && (Trim(input) != [] ==> r.sent.value[0] == TextPart(Trim(input)))
                  && forall i :: 0 <= i < |files| ==>
                       r.sent.value[offset + i] == InlineData(files[i].mimeType, encode(files[i]).value))
  {
    var read := EncodeAll(s.uploadedFiles, encode);
    EncodeAllOk(s.uploadedFiles, encode);
    TurnSubmits(s, input, clock, encode, reply);
    if read.Ok? {
      SubmitStreamBranch(s, Trim(input), clock, read, reply);
      ContentPartsLayout(Trim(input), read.value);
    } else {
      SubmitFailBranch(s, Trim(input), clock, read, reply);
    }
  }

  /** Once the files are read, a submission ends on the session made for the
      key when there was none (the live one otherwise), with the key kept and
      the pending files cleared, whether or not the stream then fails. */
  lemma {:induction false} SubmitSession(s: Store, text: string, clock: Clock, read: Result<seq<Part>>, reply: Reply)
    requires read.Ok?
    ensures var final := Submit(s, text, clock, read, reply).store;
            && final.chatSession == EnsureSession(s)
            && final.apiKey == s.apiKey
            && final.uploadedFiles == []
  {
    SubmitStreamBranch(s, text, clock, read, reply);
    FinishKeeps(Ready(Echoed(s, text, clock), clock), clock, reply);
  }

  /** When every file reads, the session is created if absent (bound to the
      key, temperature 0.4) and reused otherwise, the key is kept and the
      pending files are cleared, whether or not the stream then fails. */
  lemma {:induction false} TurnSession(s: Store, input: string, clock: Clock, encode: Attachment -> Result<string>, reply: Reply)
    requires Trim(input) != [] || s.uploadedFiles != []
    requires s.apiKey != []
    requires forall i :: 0 <= i < |s.uploadedFiles| ==> encode(s.uploadedFiles[i]).Ok?
    ensures var r := Turn(s, input, clock, encode, reply);
            && r.store.chatSession == (if s.chatSession.None? then Some(Session(s.apiKey, ModelName, 0.4)) else s.chatSession)
            && r.store.apiKey == s.apiKey
            && r.store.uploadedFiles == []
  {
    EncodeAllSucceeds(s.uploadedFiles, encode);
    TurnSubmits(s, input, clock, encode, reply);
    SubmitSession(s, Trim(input), clock, EncodeAll(s.uploadedFiles, encode), reply);
  }

  /** A submission whose files fail to read shows the echo and then one
      `model` error message; the pending files, the session and the key are
      left as they were, loading is off, nothing is sent. */
  lemma {:induction false} SubmitFails(s: Store, text: string, clock: Clock, read: Result<seq<Part>>, reply: Reply)
    requires read.Err?
    ensures var r := Submit(s, text, clock, read, reply);
            && r.store.messages == s.messages + [
                 Message(clock.echo, User, EchoText(text, Names(s.uploadedFiles))),
                 Message(clock.failure + 1, Model, ErrorText(read.message))]
            && r.store.uploadedFiles == s.uploadedFiles
            && r.store.chatSession == s.chatSession
            && r.store.apiKey == s.apiKey
            && !r.store.isLoading
            && r.sent == None
  {
    SubmitFailBranch(s, text, clock, read, reply);
    var echo := Message(clock.echo, User, EchoText(text, Names(s.uploadedFiles)));
    var failure := Message(clock.failure + 1, Model, ErrorText(read.message));
    assert Echoed(s, text, clock).messages == s.messages + [echo];
    assert s.messages + [echo] + [failure] == s.messages + [echo, failure];
  }

  /** When the file at `i` is the first that fails to read, the turn shows the
      echo and then one `model` error message; the pending files, the session
      and the key are left as they were, loading is off, nothing is sent. */
  lemma {:induction false} TurnEncodingFails(s: Store, input: string, clock: Clock, encode: Attachment -> Result<string>, reply: Reply, i: nat)
    requires Trim(input) != [] || s.uploadedFiles != []
    requires s.apiKey != []
    requires i < |s.uploadedFiles| && encode(s.uploadedFiles[i]).Err?
    requires forall j :: 0 <= j < i ==> encode(s.uploadedFiles[j]).Ok?
    ensures var r := Turn(s, input, clock, encode, reply);
            && r.store.messages == s.messages + [
                 Message(clock.echo, User, EchoText(Trim(input), Names(s.uploadedFiles))),
                 Message(clock.failure + 1, Model, ErrorText(encode(s.uploadedFiles[i]).message))]
            && r.store.uploadedFiles == s.uploadedFiles
            && r.store.chatSession == s.chatSession
            && r.store.apiKey == s.apiKey
            && !r.store.isLoading
            && r.sent == None
  {
    EncodeAllFirstError(s.uploadedFiles, encode, i);
    TurnSubmits(s, input, clock, encode, reply);
    SubmitFails(s, Trim(input), clock, EncodeAll(s.uploadedFiles, encode), reply);
  }

  /** The log at the end of a stream that started from a fresh reply id. */
  lemma {:induction false} StreamedMessages(s: Store, text: string, clock: Clock, reply: Reply)
    requires clock.echo != clock.reply + 1
    requires forall i :: 0 <= i < |s.messages| ==> s.messages[i].id != clock.reply + 1
    ensures Finish(Ready(Echoed(s, text, clock), clock), clock, reply).messages == s.messages + [
              Message(clock.echo, User, EchoText(text, Names(s.uploadedFiles))),
              Message(clock.reply + 1, Model, Concat(reply.chunks))]
            + (if reply.failure.Some? then [Message(clock.failure + 1, Model, ErrorText(reply.failure.value))] else [])
  {
    var echo := Message(clock.echo, User, EchoText(text, Names(s.uploadedFiles)));
    var echoed := Echoed(s, text, clock);
    assert echoed.messages == s.messages + [echo];
    var ready := Ready(echoed, clock);
    assert ready.messages == echoed.messages + [Message(clock.reply + 1, Model, [])];
    DeliverIntoPlaceholder(s.messages + [echo], clock.reply + 1, reply.chunks);
    FinishMessages(ready, clock, reply);
    assert s.messages + [echo] + [Message(clock.reply + 1, Model, Concat(reply.chunks))]
        == s.messages + [echo, Message(clock.reply + 1, Model, Concat(reply.chunks))];
  }

  /** With the files read and a fresh reply id: the log gains the echo, then
      the placeholder holding the concatenation of every delivered chunk,
      then, exactly when the stream failed, one `model` error message. */
  lemma {:induction false} SubmitStreams(s: Store, text: string, clock: Clock, read: Result<seq<Part>>, reply: Reply)
    requires read.Ok?
    requires clock.echo != clock.reply + 1
    requires forall i :: 0 <= i < |s.messages| ==> s.messages[i].id != clock.reply + 1
    ensures Submit(s, text, clock, read, reply).store.messages == s.messages + [
              Message(clock.echo, User, EchoText(text, Names(s.uploadedFiles))),
              Message(clock.reply + 1, Model, Concat(reply.chunks))]
            + (if reply.failure.Some? then [Message(clock.failure + 1, Model, ErrorText(reply.failure.value))] else [])
  {
    StreamedMessages(s, text, clock, reply);
    SubmitStreamBranch(s, text, clock, read, reply);
  }

  /** With all files read and a fresh reply id: the log gains the echo, then
      the placeholder holding the concatenation of every delivered chunk,
      then, exactly when the stream failed, one `model` error message; no
      earlier message is touched. */
  lemma {:induction false} TurnStreams(s: Store, input: string, clock: Clock, encode: Attachment -> Result<string>, reply: Reply)
    requires Trim(input) != [] || s.uploadedFiles != []
    requires s.apiKey != []
    requires forall i :: 0 <= i < |s.uploadedFiles| ==> encode(s.uploadedFiles[i]).Ok?
    requires clock.echo != clock.reply + 1
    requires forall i :: 0 <= i < |s.messages| ==> s.messages[i].id != clock.reply + 1
    ensures var r := Turn(s, input, clock, encode, reply);
            r.store.messages == s.messages + [
              Message(clock.echo, User, EchoText(Trim(input), Names(s.uploadedFiles))),
              Message(clock.reply + 1, Model, Concat(reply.chunks))]
            + (if reply.failure.Some? then [Message(clock.failure + 1, Model, ErrorText(reply.failure.value))] else [])
  {
    EncodeAllSucceeds(s.uploadedFiles, encode);
    TurnSubmits(s, input, clock, encode, reply);
    SubmitStreams(s, Trim(input), clock, EncodeAll(s.uploadedFiles, encode), reply);
  }

  /** From a log ending in the placeholder, the k-th state shown holds the
      placeholder filled with the first k chunks, the rest as it was. */
  lemma {:induction false} PlaceholderFrames(ready: Store, before: seq<Message>, id: int, chunks: seq<string>)
    requires ready.messages == before + [Message(id, Model, [])]
    requires forall i :: 0 <= i < |before| ==> before[i].id != id
    ensures |StreamFrames(ready, id, chunks)| == |chunks|
    ensures forall k :: 1 <= k <= |chunks| ==>
              StreamFrames(ready, id, chunks)[k - 1] == ready.(messages := before + [Message(id, Model, Concat(chunks[..k]))])
  {
    FindIndexLast(before, Message(id, Model, []));
    StreamFramesEachChunk(ready, id, chunks);
    forall k | 1 <= k <= |chunks|
      ensures StreamFrames(ready, id, chunks)[k - 1] == ready.(messages := before + [Message(id, Model, Concat(chunks[..k]))])
    {
      DeliverIntoPlaceholder(before, id, chunks[..k]);
    }
  }

  /** The states a streaming turn shows: first `first`, then one per chunk
      with the placeholder after `before` holding the chunks so far and
      loading on, then `last`. */
  predicate ShowsEachChunk(rendered: seq<Store>, first: Store, before: seq<Message>, id: int, chunks: seq<string>, last: Store) {
    && |rendered| == |chunks| + 2
    && rendered[0] == first
    && (forall k :: 1 <= k <= |chunks| ==>
          && rendered[k].messages == before + [Message(id, Model, Concat(chunks[..k]))]
          && rendered[k].isLoading)
    && rendered[|chunks| + 1] == last
  }

  /** Frames that each hold the placeholder filled so far, shown between
      `first` and `last`, show each chunk. */
  lemma {:induction false} FramedShowEachChunk(first: Store, frames: seq<Store>, last: Store, before: seq<Message>, id: int, chunks: seq<string>)
    requires |frames| == |chunks|
    requires forall j :: 0 <= j < |chunks| ==>
               frames[j].messages == before + [Message(id, Model, Concat(chunks[..j + 1]))] && frames[j].isLoading
    ensures ShowsEachChunk([first] + frames + [last], first, before, id, chunks, last)
  {
    var rendered := [first] + frames + [last];
    forall k | 1 <= k <= |chunks|
      ensures rendered[k] == frames[k - 1]
      ensures rendered[k].messages == before + [Message(id, Model, Concat(chunks[..k]))] && rendered[k].isLoading
    {
      assert frames[k - 1].messages == before + [Message(id, Model, Concat(chunks[..(k - 1) + 1]))];
    }
  }

  lemma {:induction false} FramesShowEachChunk(echoed: Store, ready: Store, final: Store, before: seq<Message>, id: int, chunks: seq<string>)
    requires ready.isLoading
    requires ready.messages == before + [Message(id, Model, [])]
    requires forall i :: 0 <= i < |before| ==> before[i].id != id
    ensures ShowsEachChunk([echoed] + StreamFrames(ready, id, chunks) + [final], echoed, before, id, chunks, final)
  {
    PlaceholderFrames(ready, before, id, chunks);
    var frames := StreamFrames(ready, id, chunks);
    forall j | 0 <= j < |chunks|
      ensures frames[j].messages == before + [Message(id, Model, Concat(chunks[..j + 1]))] && frames[j].isLoading
    {
      assert frames[(j + 1) - 1] == frames[j];
    }
    FramedShowEachChunk(echoed, frames, final, before, id, chunks);
  }

  /** The states shown by the stages of a streaming submission. */
  lemma {:induction false} StagesShowEachChunk(s: Store, text: string, clock: Clock, reply: Reply)
    requires clock.echo != clock.reply + 1
    requires forall i :: 0 <= i < |s.messages| ==> s.messages[i].id != clock.reply + 1
    ensures var echo := Message(clock.echo, User, EchoText(text, Names(s.uploadedFiles)));
            var ready := Ready(Echoed(s, text, clock), clock);
            ShowsEachChunk([Echoed(s, text, clock)] + StreamFrames(ready, clock.reply + 1, reply.chunks) + [Finish(ready, clock, reply)],
                           Echoed(s, text, clock), s.messages + [echo], clock.reply + 1, reply.chunks, Finish(ready, clock, reply))
  {
    var echo := Message(clock.echo, User, EchoText(text, Names(s.uploadedFiles)));
    var echoed := Echoed(s, text, clock);
    assert echoed.messages == s.messages + [echo];
    var ready := Ready(echoed, clock);
    assert ready.messages == echoed.messages + [Message(clock.reply + 1, Model, [])];
    assert forall i :: 0 <= i < |s.messages + [echo]| ==> (s.messages + [echo])[i].id != clock.reply + 1;
    FramesShowEachChunk(echoed, ready, Finish(ready, clock, reply), s.messages + [echo], clock.reply + 1, reply.chunks);
  }

  lemma {:induction false} SubmitShowsEachChunk(s: Store, text: string, clock: Clock, read: Result<seq<Part>>, reply: Reply)
    requires read.Ok?
    requires clock.echo != clock.reply + 1
    requires forall i :: 0 <= i < |s.messages| ==> s.messages[i].id != clock.reply + 1
    ensures var echo := Message(clock.echo, User, EchoText(text, Names(s.uploadedFiles)));
            ShowsEachChunk(Submit(s, text, clock, read, reply).rendered, Echoed(s, text, clock),
                           s.messages + [echo], clock.reply + 1, reply.chunks, Submit(s, text, clock, read, reply).store)
  {
    StagesShowEachChunk(s, text, clock, reply);
    SubmitStreamBranch(s, text, clock, read, reply);
    SubmitStreamShown(s, text, clock, read, reply);
  }

  /** The typewriter effect: a turn that streams shows the echoed store
      (loading on), then after the k-th chunk the placeholder holding the
      first k chunks concatenated (loading still on), then the final state. */
  lemma {:induction false} TurnShowsEachChunk(s: Store, input: string, clock: Clock, encode: Attachment -> Result<string>, reply: Reply)
    requires Trim(input) != [] || s.uploadedFiles != []
    requires s.apiKey != []
    requires forall i :: 0 <= i < |s.uploadedFiles| ==> encode(s.uploadedFiles[i]).Ok?
    requires clock.echo != clock.reply + 1
    requires forall i :: 0 <= i < |s.messages| ==> s.messages[i].id != clock.reply + 1
    ensures var echo := Message(clock.echo, User, EchoText(Trim(input), Names(s.uploadedFiles)));
            ShowsEachChunk(Turn(s, input, clock, encode, reply).rendered, Echoed(s, Trim(input), clock),
                           s.messages + [echo], clock.reply + 1, reply.chunks, Turn(s, input, clock, encode, reply).store)
  {
    EncodeAllSucceeds(s.uploadedFiles, encode);
    TurnSubmits(s, input, clock, encode, reply);
    SubmitShowsEachChunk(s, Trim(input), clock, EncodeAll(s.uploadedFiles, encode), reply);
  }

  /** The last state a turn shows is its final one, with loading off; every
      state it shows before that has loading on. */
  predicate EndsIdle(store: Store, rendered: seq<Store>) {
    && !store.isLoading
    && (rendered != [] ==> rendered[|rendered| - 1] == store)
    && (forall k :: 0 <= k < |rendered| - 1 ==> rendered[k].isLoading)
  }

  lemma {:induction false} StreamFramesLoading(ready: Store, id: int, chunks: seq<string>)
    requires ready.isLoading
    ensures forall k :: 0 <= k < |StreamFrames(ready, id, chunks)| ==> StreamFrames(ready, id, chunks)[k].isLoading
  {
    if chunks != [] {
      StreamFramesLoading(ready, id, chunks[..|chunks| - 1]);
    }
  }

  /** The stages of a streaming submission show loading states and end on
      an idle one. */
  lemma {:induction false} StagesEndIdle(s: Store, text: string, clock: Clock, reply: Reply)
    ensures var ready := Ready(Echoed(s, text, clock), clock);
            EndsIdle(Finish(ready, clock, reply),
                     [Echoed(s, text, clock)] + StreamFrames(ready, clock.reply + 1, reply.chunks) + [Finish(ready, clock, reply)])
  {
    var echoed := Echoed(s, text, clock);
    var ready := Ready(echoed, clock);
    var frames := StreamFrames(ready, clock.reply + 1, reply.chunks);
    var final := Finish(ready, clock, reply);
    var shown := [echoed] + frames + [final];
    StreamFramesLoading(ready, clock.reply + 1, reply.chunks);
    FinishKeeps(ready, clock, reply);
    forall k | 0 <= k < |shown| - 1 ensures shown[k].isLoading {
      if k > 0 {
        assert shown[k] == frames[k - 1];
      }
    }
  }

  /** Every submission ends idle on the state it shows last, and shows only
      loading states before it. */
  lemma {:induction false} SubmitEndsIdle(s: Store, text: string, clock: Clock, read: Result<seq<Part>>, reply: Reply)
    ensures EndsIdle(Submit(s, text, clock, read, reply).store, Submit(s, text, clock, read, reply).rendered)
  {
    if read.Ok? {
      StagesEndIdle(s, text, clock, reply);
      SubmitStreamBranch(s, text, clock, read, reply);
      SubmitStreamShown(s, text, clock, read, reply);
    } else {
      SubmitFailBranch(s, text, clock, read, reply);
    }
  }

  /** Every turn from an idle store ends with loading off and the last state
      it shows is the final one; once a turn has reached the model, every
      state it shows before that has loading on. */
  lemma {:induction false} TurnEndsIdle(s: Store, input: string, clock: Clock, encode: Attachment -> Result<string>, reply: Reply)
    requires !s.isLoading
    ensures EndsIdle(Turn(s, input, clock, encode, reply).store, Turn(s, input, clock, encode, reply).rendered)
  {
    if (Trim(input) != [] || s.uploadedFiles != []) && s.apiKey != [] {
      TurnSubmits(s, input, clock, encode, reply);
      SubmitEndsIdle(s, Trim(input), clock, EncodeAll(s.uploadedFiles, encode), reply);
    }
  }

  /** A submission from a valid store leaves a valid store. */
  lemma {:induction false} SubmitKeepsValid(s: Store, text: string, clock: Clock, read: Result<seq<Part>>, reply: Reply)
    requires ValidStore(s) && s.apiKey != []
    ensures ValidStore(Submit(s, text, clock, read, reply).store)
  {
    if read.Ok? {
      SubmitSession(s, text, clock, read, reply);
      FinishKeeps(Ready(Echoed(s, text, clock), clock), clock, reply);
    } else {
      SubmitFails(s, text, clock, read, reply);
    }
  }

  /** A turn keeps the store's invariant. */
  lemma {:induction false} TurnKeepsValid(s: Store, input: string, clock: Clock, encode: Attachment -> Result<string>, reply: Reply)
    requires ValidStore(s)
    ensures ValidStore(Turn(s, input, clock, encode, reply).store)
  {
    if (Trim(input) != [] || s.uploadedFiles != []) && s.apiKey != [] {
      TurnSubmits(s, input, clock, encode, reply);
      SubmitKeepsValid(s, Trim(input), clock, EncodeAll(s.uploadedFiles, encode), reply);
    }
  }

  /** Saving a key never breaks the store's invariant: the session it leaves
      is none at all. */
  lemma {:induction false} SaveKeyKeepsValid(s: Store, input: string, now: int)
    requires ValidStore(s)
    ensures ValidStore(SaveKey(s, input, now))
  {
  }

  /** After a save, the next turn that reaches the model runs on a new
      session bound to the saved key, whatever session was live before. */
  lemma {:induction false} SaveKeyRebinds(s: Store, keyInput: string, now: int, input: string, clock: Clock, encode: Attachment -> Result<string>, reply: Reply)
    requires Trim(keyInput) != []
    requires Trim(input) != [] || s.uploadedFiles != []
    requires forall i :: 0 <= i < |s.uploadedFiles| ==> encode(s.uploadedFiles[i]).Ok?
    ensures Turn(SaveKey(s, keyInput, now), input, clock, encode, reply).store.chatSession == Some(NewSession(Trim(keyInput)))
  {
    var saved := SaveKey(s, keyInput, now);
    assert saved.uploadedFiles == s.uploadedFiles && saved.apiKey == Trim(keyInput) && saved.chatSession.None?;
    TurnSession(saved, input, clock, encode, reply);
  }
}
