/** The session state machine under the widgets of the chat application. Each
    run of the script (a "rerun") is one operation on a session record with
    three parts: the chat history, the reference of the uploaded catalog and
    the name of the file that reference belongs to. The services a run calls
    (upload, search, generation) are inputs of the run. */
module Session {
  import opened Wrappers
  import opened Search
  import opened Streaming
  import opened Prompt

  datatype Role = User | Assistant

  /** One history entry, `{"role": ..., "content": ...}`. */
  datatype Message = Message(role: Role, content: string)

  /** The file held by the upload widget; only its name matters here. */
  datatype UploadedFile = UploadedFile(name: string)

  /** The session record. A key not yet set in the session is None. */
  datatype SessionState = SessionState(
    messages: seq<Message>,
    geminiFile: Option<FileRef>,
    currentFileName: Option<string>)

  /** What became of a submitted question. */
  datatype TurnOutcome =
    | NoDocument
    | Answered(searchCall: SearchCall, request: Request, answer: string)
    | GenerationFailed(searchCall: SearchCall, request: Request)

  /** One run of the script, with what the services return during it. `upload`
      is what the upload helper returns if it is called; `prompt` is what the
      chat input returns. */
  datatype Event =
    | ResetClicked
    | Rerun(file: Option<UploadedFile>, upload: Option<FileRef>, model: string,
            prompt: Option<string>, search: SearchOutcome, generation: Stream)

  /** The session after the first run has set `messages`. */
  const Initial: SessionState := SessionState([], None, None)

  /** A file is present and either none was processed yet or the processed
      one had another name. */
  predicate NeedsUpload(s: SessionState, file: Option<UploadedFile>)
  {
    file.Some? && (s.currentFileName.None? || s.currentFileName.value != file.value.name)
  }

  /** File processing: when an upload is needed and returns a reference, the
      reference and the file's name are stored together; otherwise nothing
      changes. */
  function SyncFile(s: SessionState, file: Option<UploadedFile>, upload: Option<FileRef>): SessionState
  {
    if NeedsUpload(s, file) && upload.Some? then
      s.(geminiFile := upload, currentFileName := Some(file.value.name))
    else s
  }

  /** The reset button: the history is emptied, the catalog kept. */
  function Cleared(s: SessionState): SessionState
  {
    s.(messages := [])
  }

  /** The chat input counts as submitted when it returns a non-empty text. */
  predicate Submitted(prompt: Option<string>)
  {
    prompt.Some? && prompt.value != ""
  }

  /** One submitted question: rejected without a catalog reference; otherwise
      the question is recorded, the search context and the two-part request
      are built, and the answer is recorded only if the stream completes. */
  function Turn(s: SessionState, model: string, prompt: string, search: SearchOutcome, generation: Stream)
    : (SessionState, TurnOutcome)
  {
    if s.geminiFile.None? then (s, NoDocument)
    else
      var asked := s.messages + [Message(User, prompt)];
      var searchCall := SearchCallFor(prompt);
      var request := Compose(model, s.geminiFile.value, SearchContext(search), prompt);
      if generation.fails then (s.(messages := asked), GenerationFailed(searchCall, request))
      else
        var answer := Concat(generation.chunks);
        (s.(messages := asked + [Message(Assistant, answer)]), Answered(searchCall, request, answer))
  }

  /** Whether a run calls the upload helper. */
  predicate UploadAttempted(s: SessionState, e: Event)
  {
    e.Rerun? && NeedsUpload(s, e.file)
  }

  /** The session after one run. A reset run ends at the reset (the script is
      restarted from the top); any other run processes the file, then the
      question if one was submitted. */
  function Step(s: SessionState, e: Event): SessionState
  {
    match e
    case ResetClicked => Cleared(s)
    case Rerun(file, upload, model, prompt, search, generation) =>
      var synced := SyncFile(s, file, upload);
      if Submitted(prompt) then Turn(synced, model, prompt.value, search, generation).0 else synced
  }

  /** What became of the question of a run, if one was submitted. */
  function StepOutcome(s: SessionState, e: Event): Option<TurnOutcome>
  {
    match e
    case ResetClicked => None
    case Rerun(file, upload, model, prompt, search, generation) =>
      if Submitted(prompt) then Some(Turn(SyncFile(s, file, upload), model, prompt.value, search, generation).1)
      else None
  }

  /** Every assistant entry directly follows a user entry. */
  predicate AnswersFollowQuestions(ms: seq<Message>)
  {
    forall i | 0 <= i < |ms| && ms[i].role == Assistant :: 0 < i && ms[i - 1].role == User
  }

  /** The session's invariant: the reference and the file name are set
      together, and the history never holds an unasked answer. */
  predicate Consistent(s: SessionState)
  {
    (s.geminiFile.Some? <==> s.currentFileName.Some?) && AnswersFollowQuestions(s.messages)
  }

  lemma AppendKeepsAnswersFollowQuestions(ms: seq<Message>, extra: seq<Message>)
    requires AnswersFollowQuestions(ms)
    requires extra == [] || extra[0].role == User
    requires forall i | 0 < i < |extra| :: extra[i].role == Assistant ==> extra[i - 1].role == User
    ensures AnswersFollowQuestions(ms + extra)
  {
  }

  /** Every run keeps the session's invariant. */
  lemma StepKeepsConsistent(s: SessionState, e: Event)
    requires Consistent(s)
    ensures Consistent(Step(s, e))
  {
  }

  /** The session as the script holds it in its session state. */
  class ChatSession {
    var messages: seq<Message>
    var geminiFile: Option<FileRef>
    var currentFileName: Option<string>

    function View(): SessionState
      reads this
    {
      SessionState(messages, geminiFile, currentFileName)
    }

    ghost predicate Valid()
      reads this
    {
      Consistent(View())
    }

    /** A fresh session after the first run's initialisation of `messages`. */
    constructor ()
      ensures Valid()
      ensures View() == Initial
    {
      messages := [];
      geminiFile := None;
      currentFileName := None;
    }

    /** The reset button: empty the history, keep the catalog reference and
        its file name. */
    method ResetChat()
      requires Valid()
      modifies this
      ensures Valid()
      ensures messages == []
      ensures geminiFile == old(geminiFile) && currentFileName == old(currentFileName)
    {
      messages := [];
    }

    /** File processing: call the upload helper only for a new file name, and
        store the reference and the name together when it returns one. */
    method ProcessFile(file: Option<UploadedFile>, upload: Option<FileRef>) returns (attempted: bool)
      requires Valid()
      modifies this
      ensures Valid()
      ensures attempted <==> file.Some? && old(currentFileName) != Some(file.value.name)
      ensures View() == SyncFile(old(View()), file, upload)
      ensures messages == old(messages)
    {
      attempted := false;
      if file.Some? {
        if currentFileName.None? || currentFileName.value != file.value.name {
          attempted := true;
          var googleFileRef := upload;
          if googleFileRef.Some? {
            geminiFile := googleFileRef;
            currentFileName := Some(file.value.name);
          }
        }
      }
    }

    /** A submitted question. Returns what became of it and the texts shown
        while the answer streamed in. */
    method HandleQuestion(model: string, prompt: string, search: SearchOutcome, generation: Stream)
      returns (outcome: TurnOutcome, shown: seq<string>)
      requires Valid()
      modifies this
      ensures Valid()
      ensures (View(), outcome) == Turn(old(View()), model, prompt, search, generation)
      ensures shown == if old(geminiFile).None? then [] else Snapshots(generation.chunks)
    {
      shown := [];
      if geminiFile.None? {
        return NoDocument, shown;
      }
      ghost var before := messages;
      messages := messages + [Message(User, prompt)];
      AppendKeepsAnswersFollowQuestions(before, [Message(User, prompt)]);
      var searchCall, webData := SearchInternet(prompt, search);
      var inputContent := Compose(model, geminiFile.value, webData, prompt);
      var fullText;
      fullText, shown := Accumulate(generation.chunks);
      if generation.fails {
        return GenerationFailed(searchCall, inputContent), shown;
      }
      messages := messages + [Message(Assistant, fullText)];
      AppendKeepsAnswersFollowQuestions(before, [Message(User, prompt), Message(Assistant, fullText)]);
      assert messages == before + [Message(User, prompt), Message(Assistant, fullText)];
      outcome := Answered(searchCall, inputContent, fullText);
    }

    /** One run of the script. */
    method Rerun(e: Event) returns (attempted: bool, outcome: Option<TurnOutcome>)
      requires Valid()
      modifies this
      ensures Valid()
      ensures View() == Step(old(View()), e)
      ensures attempted == UploadAttempted(old(View()), e)
      ensures outcome == StepOutcome(old(View()), e)
    {
      if e.ResetClicked? {
        ResetChat();
        return false, None;
      }
      attempted := ProcessFile(e.file, e.upload);
      if e.prompt.Some? && e.prompt.value != "" {
        var o, _ := HandleQuestion(e.model, e.prompt.value, e.search, e.generation);
        outcome := Some(o);
      } else {
        outcome := None;
      }
    }
  }
}
