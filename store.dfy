/** The artifact store as a value: the four tables, the invariant every reachable
    state keeps, the read-only queries of `app/db/crud.py`, and the state change
    each insert makes, with `store_summary` composed from them. */
module Store {
  import opened Records
  import ChatLog

  /** Videos, transcripts and summaries keyed by video id (at most one transcript
      and one summary per video), the chat log in write order, and the clock that
      stamps the next chat turn. */
  datatype Db = Db(
    videos: map<string, Video>,
    transcripts: map<string, Transcript>,
    summaries: map<string, Summary>,
    chats: seq<ChatEntry>,
    clock: nat)

  const Empty: Db := Db(map[], map[], map[], [], 0)

  /** Keys agree with the rows' ids, every transcript, summary and chat turn
      belongs to a stored video, and chat timestamps increase and stay below the clock. */
  predicate Valid(db: Db)
  {
    (forall id :: id in db.videos ==> db.videos[id].id == id) &&
    (forall id :: id in db.transcripts ==> id in db.videos && db.transcripts[id].videoId == id) &&
    (forall id :: id in db.summaries ==> id in db.videos && db.summaries[id].videoId == id) &&
    (forall e :: e in db.chats ==> e.videoId in db.videos && e.createdAt < db.clock) &&
    ChatLog.Chronological(db.chats)
  }

  // ---------------------------------------------------------------------------
  // Queries

  /** `get_video`: the stored video with that id, if any. */
  function GetVideo(db: Db, videoId: string): (r: Option<Video>)
    ensures r.Some? ==> r.value in db.videos.Values
    ensures Valid(db) ==> (r.Some? <==> exists v :: v in db.videos.Values && v.id == videoId)
    ensures Valid(db) && r.Some? ==> r.value.id == videoId
  {
    if videoId in db.videos then Some(db.videos[videoId]) else None
  }

  /** `video_exists`. */
  function VideoExists(db: Db, videoId: string): (b: bool)
    ensures b <==> GetVideo(db, videoId).Some?
  {
    videoId in db.videos
  }

  /** The six video fields of a stored-summary record are those of `v`. */
  predicate Describes(rec: StoredSummary, v: Video)
  {
    rec.videoId == v.id && rec.title == v.title && rec.author == v.author &&
    rec.url == v.url && rec.audioPath == v.audioPath && rec.videoPath == v.videoPath
  }

  /** The `chat_history` list of `get_stored_summary`: message, response and
      timestamp of each of the video's turns, all sessions, one item per turn.
      Absent when the video has no turn. */
  function TurnViews(log: seq<ChatEntry>, videoId: string): (r: Option<seq<ChatView>>)
    ensures r.Some? <==> exists e :: e in log && e.videoId == videoId
    ensures r.Some? ==> |r.value| == |ChatLog.OfVideo(log, videoId)|
    ensures r.Some? ==> forall e :: e in log && e.videoId == videoId ==> View(e) in r.value
    ensures r.Some? ==> forall c :: c in r.value ==> exists e :: e in log && e.videoId == videoId && View(e) == c
  {
    var turns := ChatLog.OfVideo(log, videoId);
    var views := seq(|turns|, i requires 0 <= i < |turns| => View(turns[i]));
    assert forall e :: e in turns ==> View(e) in views by {
      forall e | e in turns
        ensures View(e) in views
      {
        var i :| 0 <= i < |turns| && turns[i] == e;
        assert views[i] == View(e);
      }
    }
    assert forall c :: c in views ==> exists e :: e in turns && View(e) == c by {
      forall c | c in views
        ensures exists e :: e in turns && View(e) == c
      {
        var i :| 0 <= i < |views| && views[i] == c;
        assert turns[i] in turns;
      }
    }
    assert turns != [] <==> exists e :: e in log && e.videoId == videoId by {
      if turns != [] {
        assert turns[0] in turns;
      }
    }
    if turns == [] then None else Some(views)
  }

  /** `get_stored_summary`: absent for an unknown video; otherwise the video's
      fields, the transcript's path and text and the summary's text (each `None`
      when that row is missing), and the video's chat turns of all sessions,
      present only when there is at least one. The order of those turns is left
      open; this model lists them in write order. */
  function GetStoredSummary(db: Db, videoId: string): (r: Option<StoredSummary>)
    ensures r.None? <==> !VideoExists(db, videoId)
    ensures r.Some? ==> Describes(r.value, db.videos[videoId])
    ensures r.Some? ==> (r.value.transcriptText.Some? <==> videoId in db.transcripts)
    ensures r.Some? && videoId in db.transcripts ==>
              r.value.transcriptText == Some(db.transcripts[videoId].text) &&
              r.value.transcriptPath == db.transcripts[videoId].filePath
    ensures r.Some? && videoId !in db.transcripts ==> r.value.transcriptPath.None?
    ensures r.Some? ==> (r.value.summary.Some? <==> videoId in db.summaries)
    ensures r.Some? && videoId in db.summaries ==> r.value.summary == Some(db.summaries[videoId].text)
    ensures r.Some? ==> (r.value.chatHistory.Some? <==> exists e :: e in db.chats && e.videoId == videoId)
    ensures r.Some? && r.value.chatHistory.Some? ==>
              |r.value.chatHistory.value| == |ChatLog.OfVideo(db.chats, videoId)| &&
              (forall e :: e in db.chats && e.videoId == videoId ==> View(e) in r.value.chatHistory.value) &&
              (forall c :: c in r.value.chatHistory.value ==>
                 exists e :: e in db.chats && e.videoId == videoId && View(e) == c)
  {
    if videoId !in db.videos then None
    else
      var v := db.videos[videoId];
      Some(StoredSummary(
        v.id, v.title, v.author, v.url, v.audioPath, v.videoPath,
        if videoId in db.transcripts then db.transcripts[videoId].filePath else None,
        if videoId in db.summaries then Some(db.summaries[videoId].text) else None,
        if videoId in db.transcripts then Some(db.transcripts[videoId].text) else None,
        TurnViews(db.chats, videoId)))
  }

  // ---------------------------------------------------------------------------
  // Inserts, each one atomic state change

  /** The row `create_video` builds from the media metadata. */
  function NewVideo(m: Media): Video
  {
    Video(m.videoId, m.title, m.author, m.url, m.audioPath, m.videoPath)
  }

  /** `create_video`: the new video is found under its id; every other lookup,
      and the other tables, are as before. The id must be new (it is the key). */
  function InsertVideo(db: Db, m: Media): (r: Db)
    requires Valid(db) && !VideoExists(db, m.videoId)
    ensures Valid(r)
    ensures GetVideo(r, m.videoId) == Some(NewVideo(m))
    ensures forall id :: id != m.videoId ==> GetVideo(r, id) == GetVideo(db, id)
    ensures r.transcripts == db.transcripts && r.summaries == db.summaries
    ensures r.chats == db.chats && r.clock == db.clock
  {
    db.(videos := db.videos[m.videoId := NewVideo(m)])
  }

  /** `create_transcript`: the video's stored record now carries the transcript's
      text and path; every other video's record, and the other tables, are as
      before. The video must exist and have no transcript yet. */
  function InsertTranscript(db: Db, t: Transcript): (r: Db)
    requires Valid(db) && VideoExists(db, t.videoId) && t.videoId !in db.transcripts
    ensures Valid(r)
    ensures t.videoId in r.transcripts && r.transcripts[t.videoId] == t
    ensures GetStoredSummary(r, t.videoId).value.transcriptText == Some(t.text)
    ensures GetStoredSummary(r, t.videoId).value.transcriptPath == t.filePath
    ensures forall id :: id != t.videoId ==> GetStoredSummary(r, id) == GetStoredSummary(db, id)
    ensures forall id :: id in db.transcripts ==> id in r.transcripts && r.transcripts[id] == db.transcripts[id]
    ensures r.videos == db.videos && r.summaries == db.summaries
    ensures r.chats == db.chats && r.clock == db.clock
  {
    db.(transcripts := db.transcripts[t.videoId := t])
  }

  /** `create_summary`: the video's stored record now carries the summary text;
      every other video's record, and the other tables, are as before. The video
      must exist and have no summary yet. */
  function InsertSummary(db: Db, s: Summary): (r: Db)
    requires Valid(db) && VideoExists(db, s.videoId) && s.videoId !in db.summaries
    ensures Valid(r)
    ensures s.videoId in r.summaries && r.summaries[s.videoId] == s
    ensures GetStoredSummary(r, s.videoId).value.summary == Some(s.text)
    ensures forall id :: id != s.videoId ==> GetStoredSummary(r, id) == GetStoredSummary(db, id)
    ensures forall id :: id in db.summaries ==> id in r.summaries && r.summaries[id] == db.summaries[id]
    ensures r.videos == db.videos && r.transcripts == db.transcripts
    ensures r.chats == db.chats && r.clock == db.clock
  {
    db.(summaries := db.summaries[s.videoId := s])
  }

  /** `add_chat_message`: exactly one entry is appended, carrying the given
      fields and a timestamp newer than every earlier one; earlier entries and the
      other tables are unchanged. The video must exist. */
  function AppendChat(db: Db, videoId: string, sessionId: string, message: string, response: string): (r: Db)
    requires Valid(db) && VideoExists(db, videoId)
    ensures Valid(r)
    ensures |r.chats| == |db.chats| + 1 && r.chats[..|db.chats|] == db.chats
    ensures var e := r.chats[|db.chats|];
              e.videoId == videoId && e.sessionId == sessionId &&
              e.message == message && e.response == response &&
              forall x :: x in db.chats ==> x.createdAt < e.createdAt
    ensures r.videos == db.videos && r.transcripts == db.transcripts && r.summaries == db.summaries
  {
    var e := ChatEntry(videoId, sessionId, message, response, db.clock);
    var chats := db.chats + [e];
    assert chats[..|db.chats|] == db.chats;
    assert forall x :: x in chats ==> x in db.chats || x == e;
    db.(chats := chats, clock := db.clock + 1)
  }

  /** A chat turn just added is the newest of its session's history, ahead of the
      turns that were there before. */
  lemma AddedTurnLeadsHistory(db: Db, videoId: string, sessionId: string, message: string, response: string, limit: nat)
    requires Valid(db) && VideoExists(db, videoId)
    ensures var r := AppendChat(db, videoId, sessionId, message, response);
            ChatLog.GetChatHistory(r.chats, videoId, sessionId, limit + 1)
            == [r.chats[|db.chats|]] + ChatLog.GetChatHistory(db.chats, videoId, sessionId, limit)
  {
    var r := AppendChat(db, videoId, sessionId, message, response);
    var e := r.chats[|db.chats|];
    assert r.chats == db.chats + [e];
    ChatLog.HistoryAfterAppend(db.chats, e, limit);
  }

  // ---------------------------------------------------------------------------
  // store_summary

  /** The transcript row `store_summary` creates from a bundle: the media's
      transcript path, no model, the segments only when the list is non-empty,
      and the language as given. */
  function BundleTranscript(videoId: string, b: Bundle): (t: Transcript)
    requires b.transcriptText.Some?
    ensures t.videoId == videoId && t.text == b.transcriptText.value
    ensures t.filePath == b.mediaInfo.transcriptPath && t.model.None? && t.language == b.language
    ensures t.segments.Some? <==> Truthy(b.transcriptSegments)
    ensures t.segments.Some? ==> t.segments == b.transcriptSegments
  {
    var segments := if Truthy(b.transcriptSegments) then b.transcriptSegments else None;
    Transcript(videoId, b.transcriptText.value, b.mediaInfo.transcriptPath, None, segments, b.language)
  }

  /** `store_summary`: get-or-create the video, then create the transcript and the
      summary only where the bundle's text is non-empty and none is stored yet.
      Nothing stored is ever overwritten. */
  function Persist(db: Db, b: Bundle): (r: Db)
    requires Valid(db)
    ensures Valid(r)
    ensures VideoExists(r, b.mediaInfo.videoId)
    ensures VideoExists(db, b.mediaInfo.videoId) ==> r.videos == db.videos
    ensures !VideoExists(db, b.mediaInfo.videoId) ==>
              r.videos == db.videos[b.mediaInfo.videoId := NewVideo(b.mediaInfo)]
    ensures forall id :: id in db.transcripts ==> id in r.transcripts && r.transcripts[id] == db.transcripts[id]
    ensures forall id :: id in r.transcripts && id !in db.transcripts ==>
              id == b.mediaInfo.videoId && Truthy(b.transcriptText) &&
              r.transcripts[id] == BundleTranscript(id, b)
    ensures Truthy(b.transcriptText) ==> b.mediaInfo.videoId in r.transcripts
    ensures forall id :: id in db.summaries ==> id in r.summaries && r.summaries[id] == db.summaries[id]
    ensures forall id :: id in r.summaries && id !in db.summaries ==>
              id == b.mediaInfo.videoId && Truthy(b.summary) &&
              r.summaries[id] == Summary(id, b.summary.value, b.model)
    ensures Truthy(b.summary) ==> b.mediaInfo.videoId in r.summaries
    ensures r.chats == db.chats && r.clock == db.clock
  {
    var id := b.mediaInfo.videoId;
    var db1 := if VideoExists(db, id) then db else InsertVideo(db, b.mediaInfo);
    var video := GetVideo(db1, id).value;
    var db2 :=
      if Truthy(b.transcriptText) && video.id !in db1.transcripts
      then InsertTranscript(db1, BundleTranscript(video.id, b))
      else db1;
    if Truthy(b.summary) && video.id !in db2.summaries
    then InsertSummary(db2, Summary(video.id, b.summary.value, b.model))
    else db2
  }

  /** Persisting the same bundle again changes nothing. */
  lemma PersistIdempotent(db: Db, b: Bundle)
    requires Valid(db)
    ensures Persist(Persist(db, b), b) == Persist(db, b)
  {
  }

  /** Two bundles for the same video: the transcript and summary read back are
      the ones already stored, else the first bundle's non-empty ones, else the
      second's. */
  lemma PersistFirstWriteWins(db: Db, b1: Bundle, b2: Bundle)
    requires Valid(db) && b1.mediaInfo.videoId == b2.mediaInfo.videoId
    ensures var id := b1.mediaInfo.videoId;
            var rec := GetStoredSummary(Persist(Persist(db, b1), b2), id).value;
            rec.summary ==
              (if id in db.summaries then Some(db.summaries[id].text)
               else if Truthy(b1.summary) then b1.summary
               else if Truthy(b2.summary) then b2.summary
               else None) &&
            rec.transcriptText ==
              (if id in db.transcripts then Some(db.transcripts[id].text)
               else if Truthy(b1.transcriptText) then b1.transcriptText
               else if Truthy(b2.transcriptText) then b2.transcriptText
               else None)
  {
  }

  /** The record of a video first stored by a bundle. */
  function BundleRecord(b: Bundle): StoredSummary
  {
    var m := b.mediaInfo;
    StoredSummary(
      m.videoId, m.title, m.author, m.url, m.audioPath, m.videoPath,
      if Truthy(b.transcriptText) then m.transcriptPath else None,
      if Truthy(b.summary) then b.summary else None,
      if Truthy(b.transcriptText) then b.transcriptText else None,
      None)
  }

  /** Persisting a bundle for a video the store has never seen, then reading the
      video back, yields the bundle's metadata, its non-empty transcript and
      summary, and no chat history. */
  lemma PersistThenRead(db: Db, b: Bundle)
    requires Valid(db) && !VideoExists(db, b.mediaInfo.videoId)
    ensures GetStoredSummary(Persist(db, b), b.mediaInfo.videoId) == Some(BundleRecord(b))
  {
  }

  /** The stored record of the example bundle "abc123" on an empty store, and
      absence for an id never stored. */
  lemma PersistExample()
    ensures var media := Media("abc123", "T", "A", "https://youtu.be/abc123", None, None, None);
            var b := Bundle(media, Some("hello world"), None, None, Some("short summary"), None);
            var db := Persist(Empty, b);
            GetStoredSummary(db, "abc123") ==
              Some(StoredSummary("abc123", "T", "A", "https://youtu.be/abc123", None, None,
                                 None, Some("short summary"), Some("hello world"), None)) &&
            GetStoredSummary(db, "missing").None?
  {
  }
}
