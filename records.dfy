/** Values stored and exchanged by the video artifact store: the rows of the four
    tables, the bundle the summariser hands to the store, and the denormalised
    record the store hands back for display. */
module Records {

  /** Absence as a value: Python's `None` next to a present value. */
  datatype Option<T> = None | Some(value: T)

  /** Python truthiness of an optional string or list: present and non-empty. */
  predicate Truthy<T>(o: Option<seq<T>>)
  {
    o.Some? && |o.value| > 0
  }

  /** One time-aligned transcript segment, kept in its serialised form; the store
      only ever asks whether a list of segments is empty. */
  type Segment = string

  /** Metadata of a downloaded video (the `YouTubeMedia` schema). */
  datatype Media = Media(
    videoId: string,
    title: string,
    author: string,
    url: string,
    audioPath: Option<string>,
    videoPath: Option<string>,
    transcriptPath: Option<string>)

  /** A freshly computed summary bundle (the `VideoSummary` schema). */
  datatype Bundle = Bundle(
    mediaInfo: Media,
    transcriptText: Option<string>,
    transcriptSegments: Option<seq<Segment>>,
    language: Option<string>,
    summary: Option<string>,
    model: Option<string>)

  /** A row of the videos table; `id` is the platform's video identifier. */
  datatype Video = Video(
    id: string,
    title: string,
    author: string,
    url: string,
    audioPath: Option<string>,
    videoPath: Option<string>)

  /** A row of the transcripts table. */
  datatype Transcript = Transcript(
    videoId: string,
    text: string,
    filePath: Option<string>,
    model: Option<string>,
    segments: Option<seq<Segment>>,
    language: Option<string>)

  /** A row of the summaries table. */
  datatype Summary = Summary(videoId: string, text: string, model: Option<string>)

  /** A row of the chat history table; `createdAt` is the server-assigned timestamp. */
  datatype ChatEntry = ChatEntry(
    videoId: string,
    sessionId: string,
    message: string,
    response: string,
    createdAt: nat)

  /** One chat turn as `get_stored_summary` reports it. */
  datatype ChatView = ChatView(message: string, response: string, createdAt: nat)

  function View(e: ChatEntry): ChatView
  {
    ChatView(e.message, e.response, e.createdAt)
  }

  /** The dictionary `get_stored_summary` returns. `chatHistory` is `None` when
      the `chat_history` key is missing from the dictionary. */
  datatype StoredSummary = StoredSummary(
    videoId: string,
    title: string,
    author: string,
    url: string,
    audioPath: Option<string>,
    videoPath: Option<string>,
    transcriptPath: Option<string>,
    summary: Option<string>,
    transcriptText: Option<string>,
    chatHistory: Option<seq<ChatView>>)
}
