# Video artifact store of the YouTube video summarizer, in Dafny

This project models the persistence layer of the YouTube video summarizer
(`app/db/crud.py`). The layer keeps four tables:

- videos, keyed by the platform's video id;
- at most one transcript per video;
- at most one summary per video;
- an append-only chat history whose turns carry a server-assigned timestamp.

On top of these tables it offers lookups, inserts, a capped newest-first chat
history query, a denormalised read (`get_stored_summary`) and an idempotent
writer (`store_summary`). That writer gets or creates the video, then creates a
transcript and a summary only where none exists. It never overwrites.

Layout:

- `records.dfy` (module `Records`): the rows, the input bundle
  (`VideoSummary` with its `YouTubeMedia`), the returned record, `Option` for
  Python's `None`, and `Truthy` for Python's truthiness of a string or list.
- `chat_log.dfy` (module `ChatLog`): the chat table as a sequence in write
  order. The history query is modelled in three steps: filter on video and
  session, ORDER BY `created_at` DESC (an insertion sort by timestamp), then
  LIMIT.
- `store.dfy` (module `Store`): the tables as a value `Db` and the invariant
  `Valid` that every reachable state keeps. It holds the read-only queries, the
  state change of each insert, and `Persist`, the state change of
  `store_summary` built from those inserts. The lemmas about them are here too.
- `crud.dfy` (module `Crud`): class `ArtifactStore`. Its fields are the tables.
  Its methods update them in place, one atomic step per source function.
  `StoreSummary` runs the same step-by-step get-or-create and conditional inserts
  as the source. Every method's postcondition names the `Store` transition it
  makes, so the lemmas proved about those transitions hold of the class.

Queries are functions of the store's state (`Store.GetVideo(s.State(), id)`),
so they cannot change the store. Timestamps are natural numbers taken from a
clock field that each chat insert advances. Because of that, chat turns are
strictly ordered by the time they were written.

Three behaviours of the code that the model keeps as they are:

- `get_stored_summary` leaves out the `chat_history` key when a video has no
  chat turns (app/db/crud.py:128), rather than giving an empty list. In the
  model that key is `chatHistory == None`.
- The code's get-or-create and create-if-absent steps are plain check-then-insert
  (app/db/crud.py:147-174). Nothing treats an insert conflict as success.
- When a transcript exists, `transcript_path` is that transcript's `file_path`,
  which may itself be `None` (app/db/crud.py:121-123). So only `transcript_text`
  is absent exactly when there is no transcript.

## Model

| member | source | states |
|---|---|---|
| `Store.VideoExists` | app/db/crud.py:14-16 | true exactly when `get_video` finds a video with that id |
| `Store.GetVideo` | app/db/crud.py:19-21 | on a valid store, finds a video exactly when one with that id is stored, and the one found carries that id |
| `Store.InsertVideo` | app/db/crud.py:24-37 | after `create_video`, the lookup by the media's id returns the video built from the media; every other lookup and every other table is unchanged; the store stays valid |
| `Crud.ArtifactStore.CreateVideo` | app/db/crud.py:24-37 | the returned video's id, title, author, url, audio path and video path equal the media's; only the videos map gains that entry; the new state is `Store.InsertVideo` of the old one |
| `Store.InsertTranscript` | app/db/crud.py:40-58 | after `create_transcript`, the video's stored record carries the transcript's text and path; every other video's record, the existing transcripts and the other tables are unchanged; the store stays valid |
| `Crud.ArtifactStore.CreateTranscript` | app/db/crud.py:40-58 | returns the transcript with exactly the given fields and adds it under its video; nothing else changes |
| `Store.InsertSummary` | app/db/crud.py:61-71 | after `create_summary`, the video's stored record carries the summary text; every other video's record, the existing summaries and the other tables are unchanged; the store stays valid |
| `Crud.ArtifactStore.CreateSummary` | app/db/crud.py:61-71 | returns the summary with exactly the given fields and adds it under its video; nothing else changes |
| `Store.AppendChat` | app/db/crud.py:74-86 | `add_chat_message` appends exactly one entry with the given video, session, message and response, and a timestamp newer than every earlier entry; earlier entries and the other tables are unchanged; the store stays valid |
| `Crud.ArtifactStore.AddChatMessage` | app/db/crud.py:74-86 | the returned entry carries the given fields and is newer than every logged entry; the log is the old log plus that entry; videos, transcripts and summaries are unchanged |
| `ChatLog.Matching` | app/db/crud.py:91-93 | the filter keeps each entry of the given video and session exactly as often as the log holds it (once per row), and no other entry |
| `ChatLog.NewestFirst` | app/db/crud.py:94 | ORDER BY `created_at` DESC yields a permutation of its input in which no entry is followed by a newer one |
| `ChatLog.GetChatHistory` | app/db/crud.py:89-94 | `get_chat_history` returns only logged entries of that video and session, newest first, exactly `min(limit, number matching)` of them, and every matching entry when at most `limit` match |
| `ChatLog.HistoryKeepsNewest` | app/db/crud.py:89-94 | a matching entry that the capped history leaves out is no newer than any entry it returns, so the history holds the most recent turns |
| `ChatLog.HistoryStrictlyNewestFirst` | app/db/crud.py:89-94 | on a log written in time order (every valid store's), the history is strictly descending in timestamp |
| `ChatLog.HistoryAfterAppend` | app/db/crud.py:74-94 | appending a turn newer than all others puts it at the head of its session's history, followed by the previous history |
| `ChatLog.HistoryOtherPairUnchanged` | app/db/crud.py:74-94 | appending a turn of another video or session leaves a session's history unchanged |
| `Store.AddedTurnLeadsHistory` | app/db/crud.py:74-94 | on a valid store, the turn `add_chat_message` adds comes first in `get_chat_history` of its session, ahead of the turns there before |
| `ChatLog.OfVideo` | app/db/crud.py:128-135 | keeps each chat entry of one video, all sessions, exactly as often as the log holds it, and no other entry |
| `Store.TurnViews` | app/db/crud.py:128-135 | the `chat_history` list is present iff the video has a chat turn; it then has one item per turn of the video, every turn's (message, response, timestamp) appears in it, and every item is such a view |
| `Store.GetStoredSummary` | app/db/crud.py:97-137 | absent exactly when the video does not exist; otherwise the record has the video's six fields; `transcript_text` is absent iff there is no transcript, and then `transcript_path` is absent too, else both are the transcript's; `summary` is absent iff there is no summary, else it is its text; the `chat_history` key is present iff the video has a chat turn, and then it lists each of the video's turns (message, response, timestamp) with the right count and nothing else |
| `Store.BundleTranscript` | app/db/crud.py:153-166 | the transcript `store_summary` creates has the media's transcript path, no model, the bundle's language, and segments only when the bundle's segment list is non-empty |
| `Store.Persist` | app/db/crud.py:140-176 | after `store_summary` the video exists; an existing video is unchanged, a missing one is created from the media; existing transcripts and summaries are never overwritten; a new transcript or summary appears only for this video, only when the bundle's text is non-empty, and with the bundle's content; one always appears when the text is non-empty; the chat log is untouched; the store stays valid |
| `Crud.ArtifactStore.StoreSummary` | app/db/crud.py:140-176 | the step-by-step get-or-create and conditional inserts leave the store in exactly the state `Store.Persist` describes |
| `Store.PersistIdempotent` | app/db/crud.py:147-176 | storing the same bundle twice leaves the store as storing it once |
| `Store.PersistFirstWriteWins` | app/db/crud.py:147-174 | with two bundles for one video, the summary and transcript read back are the ones already stored, else the first bundle's non-empty ones, else the second's |
| `Store.PersistThenRead` | app/db/crud.py:97-176 | storing a bundle for a new video and reading it back yields the bundle's metadata, its non-empty transcript (with the media's transcript path) and summary, and no chat history |
| `Store.PersistExample` | app/db/crud.py:97-176 | for the bundle "abc123" on an empty store, the stored record has transcript "hello world", summary "short summary" and no chat history, and "missing" reads back as absent |

## Left out

- The SQLAlchemy session (`add`, `commit`, `refresh`), transactions and the
  logging calls. Each operation is one atomic state change.
- The ISO 8601 serialisation of `created_at` in `get_stored_summary`
  (app/db/crud.py:133). Timestamps are abstract natural numbers. The database
  clock is replaced by a counter, so two chat turns never share a timestamp,
  and the order of equal timestamps is not modelled.
- `Store.GetStoredSummary`: the order of the `chat_history` list is left open,
  because it is the relationship's order in `app/db/models.py`, and
  `app/db/models.py` is not part of this model. The contract states which turns
  appear and how many, not their order. The function lists them in write order.
- Foreign-key and duplicate-key failures are enforced by the schema in
  `app/db/models.py`, which is not part of this model. The create methods
  therefore require that the video exists (transcript, summary, chat turn), that
  a new video's id is unused, and that the video has no transcript or summary
  yet. Under those requirements the inserts never fail. What the database does
  when a caller breaks them is not modelled.
- `ChatLog.GetChatHistory`: `limit` is a natural number. A negative SQL LIMIT
  is database-specific and is not modelled. The default of 10 is not modelled
  either; callers pass the limit.
- Concurrent writers and any conflict-as-success handling. The code is
  sequential check-then-insert.
- The field types of `YouTubeMedia` and `VideoSummary` are defined in
  `app/models/schemas.py`, which is not part of this model. Paths and the
  optional bundle fields are `Option` values. Transcript segments are kept as
  opaque serialised items, because only their emptiness is ever inspected.
- `app/config.py` (environment and directories), `app/embeddings/get_embedding_model.py`
  (provider selection over third-party libraries) and `app/frontend/components.py`
  (UI rendering) are I/O and presentation, not part of the store.
