/** Properties of the session over one run and over sequences of runs: the
    catalog is uploaded once per file name, a reset keeps it, a question is
    recorded exactly when a catalog reference exists, and an answer is
    recorded exactly when its stream completes. */
module SessionProperties {
  import opened Wrappers
  import opened Search
  import opened Streaming
  import opened Prompt
  import opened Session

  /** The session after a sequence of runs. */
  function RunAll(s: SessionState, es: seq<Event>): SessionState
    decreases |es|
  {
    if es == [] then s else RunAll(Step(s, es[0]), es[1..])
  }

  /** How many times the upload helper is called during a sequence of runs. */
  function Uploads(s: SessionState, es: seq<Event>): nat
    decreases |es|
  {
    if es == [] then 0
    else (if UploadAttempted(s, es[0]) then 1 else 0) + Uploads(Step(s, es[0]), es[1..])
  }

  /** How many questions of a sequence of runs are accepted (recorded). */
  function Accepted(s: SessionState, es: seq<Event>): nat
    decreases |es|
  {
    if es == [] then 0
    else
      var o := StepOutcome(s, es[0]);
      (if o.Some? && !o.value.NoDocument? then 1 else 0) + Accepted(Step(s, es[0]), es[1..])
  }

  /** How many questions of a sequence of runs are answered. */
  function Answers(s: SessionState, es: seq<Event>): nat
    decreases |es|
  {
    if es == [] then 0
    else
      var o := StepOutcome(s, es[0]);
      (if o.Some? && o.value.Answered? then 1 else 0) + Answers(Step(s, es[0]), es[1..])
  }

  function CountRole(ms: seq<Message>, role: Role): nat
  {
    if ms == [] then 0
    else (if ms[0].role == role then 1 else 0) + CountRole(ms[1..], role)
  }

  lemma {:induction false} CountRoleAppend(a: seq<Message>, b: seq<Message>, role: Role)
    ensures CountRole(a + b, role) == CountRole(a, role) + CountRole(b, role)
  {
    if a == [] {
      assert a + b == b;
    } else {
      assert (a + b)[1..] == a[1..] + b;
      CountRoleAppend(a[1..], b, role);
    }
  }

  // ---- File processing ----

  /** Upload is called exactly for a present file whose name differs from the
      recorded one; a successful upload records that file's name and the
      returned reference together, so the same name on any later run calls
      no upload; a failed upload changes nothing, so the next run with that
      file calls the upload again. */
  lemma UploadOncePerName(s: SessionState, f: UploadedFile, upload: Option<FileRef>, g: UploadedFile)
    requires g.name == f.name
    ensures NeedsUpload(s, Some(f)) <==> s.currentFileName != Some(f.name)
    ensures !NeedsUpload(s, None)
    ensures upload.Some? ==>
      var s' := SyncFile(s, Some(f), upload);
      && !NeedsUpload(s', Some(g))
      && (NeedsUpload(s, Some(f)) ==> s'.geminiFile == upload && s'.currentFileName == Some(f.name))
    ensures upload.None? ==> SyncFile(s, Some(f), upload) == s
    ensures upload.None? && NeedsUpload(s, Some(f)) ==> NeedsUpload(SyncFile(s, Some(f), upload), Some(g))
  {
  }

  /** Over any runs whose uploader is either empty or holds a file of one
      name, and whose uploads all succeed, the upload is called at most once:
      never if that name is already recorded, otherwise exactly once as soon
      as a run carrying the file occurs. A run with an empty uploader or a
      reset keeps the recorded name. */
  lemma {:induction false} SameFileUploadsAtMostOnce(s: SessionState, name: string, es: seq<Event>)
    requires forall i | 0 <= i < |es| :: es[i].Rerun? ==>
      (es[i].file.None? || es[i].file.value.name == name) && es[i].upload.Some?
    ensures Uploads(s, es) <= 1
    ensures s.currentFileName == Some(name) ==> Uploads(s, es) == 0
    ensures s.currentFileName != Some(name) && (exists i | 0 <= i < |es| :: es[i].Rerun? && es[i].file.Some?) ==>
      Uploads(s, es) == 1
    decreases |es|
  {
    if es != [] {
      var e := es[0];
      var next := Step(s, e);
      assert forall i | 0 <= i < |es[1..]| :: es[1..][i] == es[i + 1];
      SameFileUploadsAtMostOnce(next, name, es[1..]);
      if e.Rerun? && e.file.Some? {
        assert SyncFile(s, e.file, e.upload).currentFileName == Some(name);
        if Submitted(e.prompt) {
          TurnKeepsFile(SyncFile(s, e.file, e.upload), e.model, e.prompt.value, e.search, e.generation);
        }
        assert next.currentFileName == Some(name);
      } else {
        if e.Rerun? {
          assert SyncFile(s, e.file, e.upload) == s;
          if Submitted(e.prompt) {
            TurnKeepsFile(s, e.model, e.prompt.value, e.search, e.generation);
          }
        }
        assert next.currentFileName == s.currentFileName;
        if exists i | 0 <= i < |es| :: es[i].Rerun? && es[i].file.Some? {
          var i :| 0 <= i < |es| && es[i].Rerun? && es[i].file.Some?;
          assert es[1..][i - 1].Rerun? && es[1..][i - 1].file.Some?;
        }
      }
    }
  }

  // ---- Reset ----

  /** A reset empties the history and keeps the reference and its name; asking
      again with the same file then calls no upload, and the question is
      answered from the kept reference on a fresh history. */
  lemma ResetThenAskAgain(s: SessionState, f: UploadedFile, upload: Option<FileRef>, model: string,
                          q: string, search: SearchOutcome, generation: Stream)
    requires Consistent(s)
    requires s.currentFileName == Some(f.name)
    requires q != ""
    ensures var es := [ResetClicked, Rerun(Some(f), upload, model, Some(q), search, generation)];
      var s' := RunAll(s, es);
      && Uploads(s, es) == 0
      && s'.geminiFile == s.geminiFile && s'.currentFileName == s.currentFileName
      && s'.messages == [Message(User, q)] +
           (if generation.fails then [] else [Message(Assistant, Concat(generation.chunks))])
  {
    var es := [ResetClicked, Rerun(Some(f), upload, model, Some(q), search, generation)];
    var s1 := Step(s, es[0]);
    assert s1 == Cleared(s);
    assert es[1..] == [es[1]];
    assert es[1..][1..] == [];
    assert SyncFile(s1, Some(f), upload) == s1;
    var s2 := Step(s1, es[1]);
    assert RunAll(s1, es[1..]) == RunAll(s2, []);
    assert RunAll(s, es) == s2;
    assert Uploads(s1, es[1..]) == 0 + Uploads(s2, []);
    assert Uploads(s, es) == 0 + Uploads(s1, es[1..]);
  }

  // ---- Questions ----

  /** A question never touches the catalog reference or its file name. */
  lemma TurnKeepsFile(s: SessionState, model: string, q: string, search: SearchOutcome, generation: Stream)
    ensures Turn(s, model, q, search, generation).0.geminiFile == s.geminiFile
    ensures Turn(s, model, q, search, generation).0.currentFileName == s.currentFileName
  {
  }

  /** What a question does to the history: without a reference it is
      rejected and the history is unchanged; otherwise exactly one user entry
      with the verbatim question is appended, followed, only when the stream
      completes, by exactly one assistant entry holding the in-order
      concatenation of the chunks that carry text; after a failed stream the
      question is the last entry. */
  lemma TurnHistory(s: SessionState, model: string, q: string, search: SearchOutcome, generation: Stream)
    ensures var r := Turn(s, model, q, search, generation);
      s.geminiFile.None? ==> r.0.messages == s.messages && r.1 == NoDocument
    ensures var r := Turn(s, model, q, search, generation);
      s.geminiFile.Some? ==>
        && |r.0.messages| > |s.messages|
        && r.0.messages[..|s.messages|] == s.messages
        && r.0.messages[|s.messages|] == Message(User, q)
    ensures var r := Turn(s, model, q, search, generation);
      s.geminiFile.Some? && generation.fails ==>
        && |r.0.messages| == |s.messages| + 1
        && r.0.messages[|r.0.messages| - 1] == Message(User, q)
        && r.1.GenerationFailed?
    ensures var r := Turn(s, model, q, search, generation);
      s.geminiFile.Some? && !generation.fails ==>
        && |r.0.messages| == |s.messages| + 2
        && r.0.messages[|s.messages| + 1] == Message(Assistant, Concat(NonEmpty(generation.chunks)))
        && r.1.Answered? && r.1.answer == Concat(NonEmpty(generation.chunks))
  {
    SkippingEmptyChunksKeepsText(generation.chunks);
    var r := Turn(s, model, q, search, generation);
    if s.geminiFile.Some? {
      assert r.0.messages[..|s.messages|] == s.messages;
    }
  }

  /** The request of an accepted question: the selected model and exactly two
      parts, the text block with the search context and then the verbatim
      question, followed by the stored reference. A failed search does not
      prevent the request: its error text is the context. */
  lemma TurnRequest(s: SessionState, model: string, q: string, search: SearchOutcome, generation: Stream)
    requires s.geminiFile.Some?
    ensures var o := Turn(s, model, q, search, generation).1;
      var ctx := SearchContext(search);
      && (o.Answered? || o.GenerationFailed?)
      && o.searchCall.query == q
      && o.searchCall.searchDepth == "advanced" && o.searchCall.maxResults == 5 && o.searchCall.includeAnswer
      && o.request.model == model
      && |o.request.parts| == 2
      && o.request.parts[1] == FilePart(s.geminiFile.value)
      && o.request.parts[0].TextPart?
      && o.request.parts[0].text[ContextStart..ContextStart + |ctx|] == ctx
      && ContextStart + |ctx| < QuestionStart(ctx)
      && o.request.parts[0].text[QuestionStart(ctx)..QuestionStart(ctx) + |q|] == q
    ensures search.Failed? ==>
      Turn(s, model, q, search, generation).1.request == Compose(model, s.geminiFile.value, ErrorPrefix + search.error, q)
  {
    var request := Compose(model, s.geminiFile.value, SearchContext(search), q);
    ComposeLayout(model, s.geminiFile.value, SearchContext(search), q);
    assert Turn(s, model, q, search, generation).1.request == request;
  }

  /** A failed upload of a new file keeps the older reference in use: a
      question asked in the same run goes to the model with the reference of
      the file processed before. */
  lemma FailedUploadKeepsOldReference(s: SessionState, previous: FileRef, f: UploadedFile, model: string,
                                      q: string, search: SearchOutcome, generation: Stream)
    requires s.geminiFile == Some(previous)
    requires s.currentFileName.Some? && s.currentFileName.value != f.name
    requires q != ""
    ensures var e := Rerun(Some(f), None, model, Some(q), search, generation);
      var o := StepOutcome(s, e);
      && UploadAttempted(s, e)
      && Step(s, e).currentFileName == s.currentFileName
      && o.Some? && !o.value.NoDocument?
      && o.value.request.parts[1] == FilePart(previous)
  {
  }

  /** Without a catalog reference no run records anything: the question is
      rejected, and the history is unchanged unless an upload succeeds in the
      same run. */
  lemma NoReferenceRejects(s: SessionState, e: Event)
    requires e.Rerun? && Submitted(e.prompt)
    requires SyncFile(s, e.file, e.upload).geminiFile.None?
    ensures StepOutcome(s, e) == Some(NoDocument)
    ensures Step(s, e).messages == s.messages
  {
  }

  // ---- Sequences of runs ----

  /** Over runs without a reset, the user entries added are exactly the
      accepted questions and the assistant entries added exactly the answered
      ones. */
  lemma {:induction false} HistoryCounts(s: SessionState, es: seq<Event>)
    requires forall i | 0 <= i < |es| :: es[i].Rerun?
    ensures CountRole(RunAll(s, es).messages, User) == CountRole(s.messages, User) + Accepted(s, es)
    ensures CountRole(RunAll(s, es).messages, Assistant) == CountRole(s.messages, Assistant) + Answers(s, es)
    decreases |es|
  {
    if es != [] {
      var e := es[0];
      var next := Step(s, e);
      assert forall i | 0 <= i < |es[1..]| :: es[1..][i] == es[i + 1];
      HistoryCounts(next, es[1..]);
      var synced := SyncFile(s, e.file, e.upload);
      if Submitted(e.prompt) && synced.geminiFile.Some? {
        var added := if e.generation.fails then [Message(User, e.prompt.value)]
                     else [Message(User, e.prompt.value), Message(Assistant, Concat(e.generation.chunks))];
        assert next.messages == s.messages + added;
        CountRoleAppend(s.messages, added, User);
        CountRoleAppend(s.messages, added, Assistant);
        if e.generation.fails {
          assert CountRole(added, User) == 1 && CountRole(added, Assistant) == 0;
        } else {
          var answer := [Message(Assistant, Concat(e.generation.chunks))];
          assert added[1..] == answer && answer[1..] == [];
          assert CountRole(answer, User) == 0 && CountRole(answer, Assistant) == 1;
          assert CountRole(added, User) == 1 && CountRole(added, Assistant) == 1;
        }
      } else {
        assert next.messages == s.messages;
      }
    }
  }

  /** The session's invariant holds after any sequence of runs from the
      initial session. */
  lemma {:induction false} RunAllKeepsConsistent(s: SessionState, es: seq<Event>)
    requires Consistent(s)
    ensures Consistent(RunAll(s, es))
    decreases |es|
  {
    if es != [] {
      StepKeepsConsistent(s, es[0]);
      RunAllKeepsConsistent(Step(s, es[0]), es[1..]);
    }
  }
}
