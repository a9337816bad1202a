# Session core of the catalog vision assistant, in Dafny

The application is a chat assistant. A user uploads one PDF catalog and asks
questions about it. Each question is answered by a Gemini model that sees the
uploaded catalog together with web-search context from Tavily. The answer
streams in. Under its Streamlit widgets, `app.py` holds a small session state
machine and three helpers: the search-context formatter `search_internet`,
the model-list filter and sort `get_available_gemini_models`, and the fold
of the streamed answer. The upload helper `upload_to_gemini` is not one of
them; its result is an input of each run. This project models the state
machine and the three helpers and proves what they promise.

- **Session record** (`Session.SessionState`, class `Session.ChatSession`) has
  three parts: the chat history `messages`, the optional `gemini_file`
  reference and the optional `current_file_name`. Each Streamlit rerun is one
  `Session.Event`. A reset run is `ResetClicked`. Any other run is `Rerun`,
  which carries the file in the upload widget, the text in the chat input and
  what the services return during that run.
- **File processing** calls the upload only when the file name differs from
  the recorded one. When the upload returns a reference, the reference and
  the file name are stored together.
- **Reset** empties the history and keeps the catalog.
- **A question** is rejected when there is no reference. Otherwise it is
  appended as a user entry. Then the search context and the two-part request
  (text block, then file reference) are built, and the streamed chunks are
  folded into the answer. The answer is appended only if the stream
  completes.
- **`search_internet`** (`Search`) formats the search context: a summary line
  when the `answer` key is present, then one line per result, or an error
  text instead of raising.
- **`get_available_gemini_models`** (`Models`) filters the model list, sorts
  it in descending order, and falls back to one known model name when listing
  raises.

The foreign services are inputs to the model:

- the upload result is an `Option<FileRef>`;
- the search result is `Search.SearchOutcome`, either the response dictionary
  or the text of the exception;
- the generation result is `Streaming.Stream`, the chunk texts plus whether
  the stream raised after them;
- the model listing is `Models.Listing`, the entries yielded plus whether
  listing raised after them.

The class methods are proved against pure transition functions
(`Session.SyncFile`, `Session.Turn`, `Session.Step`). The properties over
sequences of runs are lemmas about those functions (`SessionProperties`).

The code behaves as follows in these cases:

- A failed upload of a new file does not block questions when an older
  reference exists. The older reference and its name stay, the next run
  retries the upload, and questions go to the model with the older catalog
  (`SessionProperties.FailedUploadKeepsOldReference`).
- The summary line is emitted whenever the `answer` key is present, even if
  its value is empty.
- On a generation failure the code shows only the error text. It does not
  show the partial answer accumulated so far.
- A result entry without `content` or `url` raises a KeyError inside the
  search helper. The helper then returns `"Eroare search: 'content'"` (or
  `'url'`) instead of the lines built so far.

## Model

| member | source | states |
|---|---|---|
| `Search.SearchInternet` | app.py:60-71 | The search is called with the query verbatim, advanced depth, at most five results and the synthesized answer. The loop that builds the context returns exactly the context block `SearchContext` defines for the response or error. |
| `Search.ErrorPersists` | app.py:67-71 | Once a result entry's key lookup raises, the remaining entries do not matter: the helper's result is that key's error. |
| `Search.RenderHitsMeaning` | app.py:67-68 | If every entry has both keys, the result lines are those entries' lines in list order. Otherwise the error names the missing key of the first incomplete entry, with `content` looked up before `url`. |
| `Search.ContextLayout` | app.py:62-71 | A failed search gives `"Eroare search: " + error`. With complete entries, the block is the summary line (only when the `answer` key is present), then one `- content (url)` line per entry. Otherwise it is the KeyError text of the first incomplete entry. |
| `Search.LinesInOrder` | app.py:67-68 | Entry k's line comes after the lines of the entries before it and before the lines of the entries after it. |
| `Search.ErrorTextIffFailure` | app.py:62-71 | The helper never raises. Its result starts with `"Eroare search: "` exactly when the search failed or an entry lacked a key. |
| `Models.GetAvailableGeminiModels` | app.py:28-39 | The filtering loop, the sort and the fallback return exactly `AvailableModels(listing)`. |
| `Models.SortDescending` | app.py:36 | `sort(reverse=True)` returns a permutation (same multiset) of its input in descending Python string order. |
| `Models.DescendingUnique` | app.py:36 | Two descending lists with the same multiset of names are equal, so the sorted list depends only on the names. |
| `Models.AvailableModelsMeaning` | app.py:30-39 | If listing raised, the result is exactly `["models/gemini-1.5-flash"]`. Otherwise a name is in the result if and only if a listed model with that name contains `gemini` and supports `generateContent`. Each such name appears as often as it was listed, the list is descending, and it is the only descending arrangement of those names. |
| `Streaming.Accumulate` | app.py:159-163 | The fold over the chunks returns their in-order concatenation, and the snapshots it shows are those of `Snapshots`. |
| `Streaming.SkippingEmptyChunksKeepsText` | app.py:160-162 | Concatenating only the chunks that carry text gives the same text as concatenating them all. |
| `Streaming.ChunkInPlace` | app.py:159-162 | Chunk k's text lies in the accumulated text between the texts of the chunks before it and after it. The fold keeps order. |
| `Streaming.SnapshotsArePrefixes` | app.py:160-164 | One snapshot is shown per chunk with text. Each is a prefix of the final text, and the last one is the final text. |
| `Streaming.SnapshotsGrow` | app.py:160-163 | Each snapshot extends the one before it by at least one character. |
| `Streaming.HelloWorld` | app.py:159-162 | The chunks `"Hel"`, `"lo, "` and `"world"` accumulate to `"Hello, world"`. |
| `Prompt.ComposeLayout` | app.py:137-153 | The request uses the selected model and has exactly two parts: a text block, then the stored file reference. The text block holds the search context verbatim and, after it, the question verbatim. |
| `Session.StepKeepsConsistent` | app.py:100-168 | Every run keeps two invariants: the reference and its file name are set together, and every assistant entry directly follows a user entry. |
| `Session.ChatSession.constructor` | app.py:96-97 | A new session has an empty history, no reference and no file name. |
| `Session.ChatSession.ResetChat` | app.py:89-92 | Reset empties the history and leaves the reference and the file name unchanged. |
| `Session.ChatSession.ProcessFile` | app.py:100-111 | The upload is attempted exactly when a file is present and its name is not the recorded one. The new state is `SyncFile` of the old state, and the history is unchanged. |
| `Session.ChatSession.HandleQuestion` | app.py:119-168 | The new state and the outcome, including the search call made with the question, are `Turn` of the old state. The snapshots shown are those of the stream, or none when the question is rejected. |
| `Session.ChatSession.Rerun` | app.py:89-168 | One run moves the session as `Step` does. It reports whether it called the upload and what became of the question. |
| `SessionProperties.UploadOncePerName` | app.py:100-111 | An upload happens exactly when a file is present and the recorded name differs. After a successful upload, a file with the same name triggers no upload. A failed upload changes nothing, so the next run with that file retries. |
| `SessionProperties.SameFileUploadsAtMostOnce` | app.py:100-108 | Over any runs whose uploader is empty or holds a file of one name, and whose uploads succeed, the upload happens at most once. It never happens if the name is already recorded, and otherwise exactly once as soon as a run carrying the file occurs. Resets and runs with an empty uploader keep the recorded name. |
| `SessionProperties.ResetThenAskAgain` | app.py:89-124 | Reset, then asking with the same file, causes zero uploads and keeps the reference. The history becomes the question alone, plus the answer if the stream completed. |
| `SessionProperties.TurnKeepsFile` | app.py:119-168 | A question never changes the reference or the file name. |
| `SessionProperties.TurnHistory` | app.py:121-168 | Without a reference the history is unchanged and the outcome is `NoDocument`. Otherwise exactly one user entry with the verbatim question is appended. When the stream completes, exactly one assistant entry follows it, holding the in-order concatenation of the chunks with text. After a failure, the question is the last entry. |
| `SessionProperties.TurnRequest` | app.py:121-153 | Only an accepted question searches the web, with the question verbatim as the query, advanced depth, at most five results and the synthesized answer. Its request carries the selected model and exactly two parts: the text block (search context, then the verbatim question) and then the stored reference. A failed search still reaches generation, with its error text as the context. |
| `SessionProperties.FailedUploadKeepsOldReference` | app.py:104-111 | A failed upload of a new file is attempted but records nothing. A question in the same run goes out with the older file's reference. |
| `SessionProperties.NoReferenceRejects` | app.py:121-122 | When no reference exists after file processing, a submitted question gives `NoDocument` and the history is unchanged. |
| `SessionProperties.HistoryCounts` | app.py:124-165 | Over runs without a reset, the user entries added equal the accepted questions, and the assistant entries added equal the answered ones. |
| `SessionProperties.RunAllKeepsConsistent` | app.py:100-168 | The session invariant holds after any sequence of runs. |

## Left out

- Streamlit rendering is not modelled: page configuration, title and text, sidebar, spinners, chat bubbles, the history display loop (app.py:114-116), success and error boxes, and the cursor glyph shown while streaming. The texts shown while streaming are modelled as `Snapshots`, without the glyph.
- `st.rerun()` after a reset is modelled as the end of that run. The run that follows is an ordinary `Rerun` event.
- The selector's label function (app.py:83) is not modelled. It applies `str.upper`, whose Unicode case mapping is out of scope, and it only affects display.
- Loading the secrets and stopping when they are missing (app.py:15-23) are configuration I/O and are not modelled.
- The Gemini SDK and Tavily calls are foreign services. Their results are inputs to the model. The upload's file bytes and MIME type are not modelled; a file is known by its name only.
- The temporary file (app.py:45-53) is filesystem I/O and is not modelled. On the failure path the code leaves the temporary file on disk.
- The one-hour cache on the model list is time-based and is not modelled.
- The prompt's wording is not modelled. Only its structure is: framing, context, question heading, question, instructions. The constants in `Prompt` are stand-ins for the text.
- `Models.SortDescending`: `list.sort(reverse=True)` sorts in place. It is modelled as a function on a sequence, specified by sortedness, permutation and uniqueness.
- Values in the search response are given as the text their f-string renders. Exceptions other than a missing key or a failed call are not modelled.
- Chunk text is a string. The empty string stands for a chunk whose text is falsy. An exception raised while reading a chunk's text counts as a failure of the stream.
- The selected model name is an input of each run. An empty model list, which would make the selector return no model, is not modelled separately; it would show up as a failed generation stream.
