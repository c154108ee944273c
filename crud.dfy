/** The session-backed CRUD layer of `app/db/crud.py` as an object whose tables
    are fields that its methods update in place. Each method is one atomic state
    change, and its postcondition names the transition of module Store it makes. */
module Crud {
  import opened Records
  import Store

  class ArtifactStore {
    var videos: map<string, Video>
    var transcripts: map<string, Transcript>
    var summaries: map<string, Summary>
    var chats: seq<ChatEntry>
    var clock: nat

    /** The tables as a value, on which the queries of module Store are asked. */
    function State(): Store.Db
      reads this
    {
      Store.Db(videos, transcripts, summaries, chats, clock)
    }

    predicate Valid()
      reads this
    {
      Store.Valid(State())
    }

    constructor ()
      ensures Valid() && State() == Store.Empty
    {
      videos, transcripts, summaries := map[], map[], map[];
      chats, clock := [], 0;
    }

    /** `create_video`: stores a video built from the media metadata under its id. */
    method CreateVideo(media: Media) returns (video: Video)
      requires Valid() && !Store.VideoExists(State(), media.videoId)
      modifies this
      ensures Valid()
      ensures video.id == media.videoId && video.title == media.title && video.author == media.author
      ensures video.url == media.url && video.audioPath == media.audioPath && video.videoPath == media.videoPath
      ensures videos == old(videos)[media.videoId := video]
      ensures transcripts == old(transcripts) && summaries == old(summaries)
      ensures chats == old(chats) && clock == old(clock)
      ensures State() == Store.InsertVideo(old(State()), media)
    {
      video := Video(media.videoId, media.title, media.author, media.url, media.audioPath, media.videoPath);
      videos := videos[media.videoId := video];
    }

    /** `create_transcript`: stores the given transcript of an existing video. */
    method CreateTranscript(videoId: string, text: string, filePath: Option<string>, model: Option<string>,
                            segments: Option<seq<Segment>>, language: Option<string>)
      returns (transcript: Transcript)
      requires Valid() && Store.VideoExists(State(), videoId) && videoId !in transcripts
      modifies this
      ensures Valid()
      ensures transcript == Transcript(videoId, text, filePath, model, segments, language)
      ensures transcripts == old(transcripts)[videoId := transcript]
      ensures videos == old(videos) && summaries == old(summaries)
      ensures chats == old(chats) && clock == old(clock)
      ensures State() == Store.InsertTranscript(old(State()), transcript)
    {
      transcript := Transcript(videoId, text, filePath, model, segments, language);
      transcripts := transcripts[videoId := transcript];
    }

    /** `create_summary`: stores the given summary of an existing video. */
    method CreateSummary(videoId: string, text: string, model: Option<string>) returns (summary: Summary)
      requires Valid() && Store.VideoExists(State(), videoId) && videoId !in summaries
      modifies this
      ensures Valid()
      ensures summary == Summary(videoId, text, model)
      ensures summaries == old(summaries)[videoId := summary]
      ensures videos == old(videos) && transcripts == old(transcripts)
      ensures chats == old(chats) && clock == old(clock)
      ensures State() == Store.InsertSummary(old(State()), summary)
    {
      summary := Summary(videoId, text, model);
      summaries := summaries[videoId := summary];
    }

    /** `add_chat_message`: appends one chat turn stamped with the current time
        and returns it. */
    method AddChatMessage(videoId: string, sessionId: string, message: string, response: string)
      returns (entry: ChatEntry)
      requires Valid() && Store.VideoExists(State(), videoId)
      modifies this
      ensures Valid()
      ensures entry.videoId == videoId && entry.sessionId == sessionId
      ensures entry.message == message && entry.response == response
      ensures forall x :: x in old(chats) ==> x.createdAt < entry.createdAt
      ensures chats == old(chats) + [entry] && clock > old(clock)
      ensures videos == old(videos) && transcripts == old(transcripts) && summaries == old(summaries)
      ensures State() == Store.AppendChat(old(State()), videoId, sessionId, message, response)
    {
      entry := ChatEntry(videoId, sessionId, message, response, clock);
      chats := chats + [entry];
      clock := clock + 1;
    }

    /** `store_summary`: get-or-create the video, then create the transcript and
        the summary where the bundle carries non-empty text and the video has
        none yet. */
    method StoreSummary(b: Bundle)
      requires Valid()
      modifies this
      ensures Valid()
      ensures State() == Store.Persist(old(State()), b)
    {
      var found := Store.GetVideo(State(), b.mediaInfo.videoId);
      var video: Video;
      if found.None? {
        video := CreateVideo(b.mediaInfo);
      } else {
        video := found.value;
      }

      if Truthy(b.transcriptText) {
        if video.id !in transcripts {
          var segments := None;
          if Truthy(b.transcriptSegments) {
            segments := b.transcriptSegments;
          }
          var _ := CreateTranscript(video.id, b.transcriptText.value, b.mediaInfo.transcriptPath, None,
                                    segments, b.language);
        }
      }

      if Truthy(b.summary) && video.id !in summaries {
        var _ := CreateSummary(video.id, b.summary.value, b.model);
      }
    }
  }
}
