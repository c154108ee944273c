/** The chat history table as an append-only log, and the history query over it:
    keep the entries of one (video, session) pair, order them newest first by
    their timestamp, and keep at most `limit` of them. */
module ChatLog {
  import opened Records

  predicate InSession(e: ChatEntry, videoId: string, sessionId: string)
  {
    e.videoId == videoId && e.sessionId == sessionId
  }

  /** Timestamps strictly increase along the log: the order in which entries were written. */
  predicate Chronological(log: seq<ChatEntry>)
  {
    forall i, j :: 0 <= i < j < |log| ==> log[i].createdAt < log[j].createdAt
  }

  /** No entry is followed by a newer one. */
  predicate NewestFirstOrder(s: seq<ChatEntry>)
  {
    forall i, j :: 0 <= i < j < |s| ==> s[j].createdAt <= s[i].createdAt
  }

  /** Every entry is strictly newer than the ones after it. */
  predicate StrictlyNewestFirst(s: seq<ChatEntry>)
  {
    forall i, j :: 0 <= i < j < |s| ==> s[j].createdAt < s[i].createdAt
  }

  /** The entries of one (video, session) pair, in log order: each matching
      entry as often as the log holds it, and nothing else. */
  function Matching(log: seq<ChatEntry>, videoId: string, sessionId: string): (r: seq<ChatEntry>)
    ensures forall x :: multiset(r)[x] == if InSession(x, videoId, sessionId) then multiset(log)[x] else 0
    ensures forall e :: e in r <==> e in log && InSession(e, videoId, sessionId)
  {
    if log == [] then []
    else
      var last := log[|log| - 1];
      assert log == log[..|log| - 1] + [last];
      var rest := Matching(log[..|log| - 1], videoId, sessionId);
      if InSession(last, videoId, sessionId) then rest + [last] else rest
  }

  /** The entries of one video, all sessions, in log order: each of the video's
      entries as often as the log holds it, and nothing else. */
  function OfVideo(log: seq<ChatEntry>, videoId: string): (r: seq<ChatEntry>)
    ensures forall x :: multiset(r)[x] == if x.videoId == videoId then multiset(log)[x] else 0
    ensures forall e :: e in r <==> e in log && e.videoId == videoId
  {
    if log == [] then []
    else
      var last := log[|log| - 1];
      assert log == log[..|log| - 1] + [last];
      var rest := OfVideo(log[..|log| - 1], videoId);
      if last.videoId == videoId then rest + [last] else rest
  }

  /** Putting an entry no older than the head of a newest-first sequence in front keeps the order. */
  lemma ConsNewestFirst(x: ChatEntry, s: seq<ChatEntry>)
    requires NewestFirstOrder(s)
    requires s != [] ==> s[0].createdAt <= x.createdAt
    ensures NewestFirstOrder([x] + s)
  {
    forall i, j | 0 <= i < j < |[x] + s|
      ensures ([x] + s)[j].createdAt <= ([x] + s)[i].createdAt
    {
      if i == 0 {
        assert ([x] + s)[j] == s[j - 1];
        if j > 1 {
          assert s[j - 1].createdAt <= s[0].createdAt;
        }
      } else {
        assert ([x] + s)[i] == s[i - 1] && ([x] + s)[j] == s[j - 1];
      }
    }
  }

  /** Puts `e` into a newest-first sequence in its place; the new head is `e`
      or the old head. */
  function InsertByTime(e: ChatEntry, s: seq<ChatEntry>): (r: seq<ChatEntry>)
    requires NewestFirstOrder(s)
    ensures NewestFirstOrder(r)
    ensures multiset(r) == multiset(s) + multiset{e}
    ensures r != [] && (r[0] == e || (s != [] && r[0] == s[0]))
  {
    if s == [] then [e]
    else if s[0].createdAt <= e.createdAt then
      assert s == [s[0]] + s[1..];
      ConsNewestFirst(e, s);
      [e] + s
    else
      assert s == [s[0]] + s[1..];
      assert NewestFirstOrder(s[1..]) by {
        forall i, j | 0 <= i < j < |s[1..]|
          ensures s[1..][j].createdAt <= s[1..][i].createdAt
        {
          assert s[1..][i] == s[i + 1] && s[1..][j] == s[j + 1];
        }
      }
      var rest := InsertByTime(e, s[1..]);
      assert rest[0].createdAt <= s[0].createdAt by {
        if rest[0] != e {
          assert rest[0] == s[1];
        }
      }
      ConsNewestFirst(s[0], rest);
      [s[0]] + rest
  }

  /** ORDER BY created_at DESC: a newest-first permutation of `s`. */
  function NewestFirst(s: seq<ChatEntry>): (r: seq<ChatEntry>)
    ensures NewestFirstOrder(r)
    ensures multiset(r) == multiset(s)
  {
    if s == [] then []
    else
      assert s == s[..|s| - 1] + [s[|s| - 1]];
      InsertByTime(s[|s| - 1], NewestFirst(s[..|s| - 1]))
  }

  /** LIMIT: the first `limit` elements, or all of them when there are fewer. */
  function Take(s: seq<ChatEntry>, limit: nat): (r: seq<ChatEntry>)
    ensures |r| == if limit < |s| then limit else |s|
    ensures r == s[..|r|]
  {
    if limit < |s| then s[..limit] else s
  }

  /** A newest-first sequence holds exactly the elements of its source multiset. */
  lemma SortedMembers(s: seq<ChatEntry>)
    ensures |NewestFirst(s)| == |s|
    ensures forall e :: e in NewestFirst(s) <==> e in s
  {
    var sorted := NewestFirst(s);
    assert |sorted| == |multiset(sorted)| == |multiset(s)| == |s|;
    forall e
      ensures e in sorted <==> e in s
    {
      assert e in sorted <==> e in multiset(sorted);
      assert e in s <==> e in multiset(s);
    }
  }

  /** `get_chat_history`: the entries of one (video, session) pair, newest
      first, at most `limit` of them; all of them when fewer than `limit` match. */
  function GetChatHistory(log: seq<ChatEntry>, videoId: string, sessionId: string, limit: nat): (r: seq<ChatEntry>)
    ensures forall e :: e in r ==> e in log && InSession(e, videoId, sessionId)
    ensures NewestFirstOrder(r)
    ensures |r| == if limit < |Matching(log, videoId, sessionId)| then limit else |Matching(log, videoId, sessionId)|
    ensures limit >= |Matching(log, videoId, sessionId)| ==>
              forall e :: e in log && InSession(e, videoId, sessionId) ==> e in r
  {
    var sorted := NewestFirst(Matching(log, videoId, sessionId));
    SortedMembers(Matching(log, videoId, sessionId));
    var r := Take(sorted, limit);
    assert forall e :: e in r ==> e in sorted by {
      forall e | e in r
        ensures e in sorted
      {
        var i :| 0 <= i < |r| && r[i] == e;
        assert sorted[i] == e;
      }
    }
    r
  }

  /** An entry of the pair that the capped history leaves out is no newer than
      any entry it returns: the history holds the most recent ones. */
  lemma HistoryKeepsNewest(log: seq<ChatEntry>, videoId: string, sessionId: string, limit: nat, e: ChatEntry)
    requires e in log && InSession(e, videoId, sessionId)
    requires e !in GetChatHistory(log, videoId, sessionId, limit)
    ensures forall x :: x in GetChatHistory(log, videoId, sessionId, limit) ==> e.createdAt <= x.createdAt
  {
    var matching := Matching(log, videoId, sessionId);
    var sorted := NewestFirst(matching);
    var r := GetChatHistory(log, videoId, sessionId, limit);
    SortedMembers(matching);
    var j :| 0 <= j < |sorted| && sorted[j] == e;
    assert r == Take(sorted, limit);
    assert limit <= j;
    forall x | x in r
      ensures e.createdAt <= x.createdAt
    {
      var i :| 0 <= i < |r| && r[i] == x;
      assert sorted[i] == x;
    }
  }

  /** Sorting a log whose last entry is its newest puts that entry first. */
  lemma NewestFirstAppend(s: seq<ChatEntry>, e: ChatEntry)
    requires forall x :: x in s ==> x.createdAt <= e.createdAt
    ensures NewestFirst(s + [e]) == [e] + NewestFirst(s)
  {
    assert (s + [e])[..|s|] == s;
    var sorted := NewestFirst(s);
    if sorted != [] {
      assert sorted[0] in multiset(s);
    }
  }

  /** The pair's entries of a log with one more entry are the old ones, plus the
      new entry when it belongs to the pair. */
  lemma {:induction false} MatchingAppend(log: seq<ChatEntry>, e: ChatEntry, videoId: string, sessionId: string)
    ensures Matching(log + [e], videoId, sessionId)
         == if InSession(e, videoId, sessionId) then Matching(log, videoId, sessionId) + [e]
            else Matching(log, videoId, sessionId)
  {
    assert (log + [e])[..|log|] == log;
  }

  /** Ordering the pair's entries after appending its newest turn puts that turn first. */
  lemma SortedMatchingAfterAppend(log: seq<ChatEntry>, e: ChatEntry)
    requires forall x :: x in log ==> x.createdAt < e.createdAt
    ensures NewestFirst(Matching(log + [e], e.videoId, e.sessionId))
         == [e] + NewestFirst(Matching(log, e.videoId, e.sessionId))
  {
    MatchingAppend(log, e, e.videoId, e.sessionId);
    NewestFirstAppend(Matching(log, e.videoId, e.sessionId), e);
  }

  /** One more element in front and one more allowed by the limit: the same cut, one longer. */
  lemma TakeAfterCons(e: ChatEntry, s: seq<ChatEntry>, limit: nat)
    ensures Take([e] + s, limit + 1) == [e] + Take(s, limit)
  {
    if limit < |s| {
      assert ([e] + s)[..limit + 1] == [e] + s[..limit];
    }
  }

  /** Appending a chat turn that is newer than every logged one puts it at the
      head of its own pair's history and pushes the rest down by one. */
  lemma HistoryAfterAppend(log: seq<ChatEntry>, e: ChatEntry, limit: nat)
    requires forall x :: x in log ==> x.createdAt < e.createdAt
    ensures GetChatHistory(log + [e], e.videoId, e.sessionId, limit + 1)
         == [e] + GetChatHistory(log, e.videoId, e.sessionId, limit)
  {
    SortedMatchingAfterAppend(log, e);
    TakeAfterCons(e, NewestFirst(Matching(log, e.videoId, e.sessionId)), limit);
  }

  /** Appending a chat turn of another (video, session) pair leaves a pair's history as it was. */
  lemma HistoryOtherPairUnchanged(log: seq<ChatEntry>, e: ChatEntry, videoId: string, sessionId: string, limit: nat)
    requires !InSession(e, videoId, sessionId)
    ensures GetChatHistory(log + [e], videoId, sessionId, limit) == GetChatHistory(log, videoId, sessionId, limit)
  {
    MatchingAppend(log, e, videoId, sessionId);
  }

  /** The pair's entries of a log written in time order are in time order too. */
  lemma {:induction false} MatchingChronological(log: seq<ChatEntry>, videoId: string, sessionId: string)
    requires Chronological(log)
    ensures Chronological(Matching(log, videoId, sessionId))
  {
    if log != [] {
      var init := log[..|log| - 1];
      var last := log[|log| - 1];
      assert Chronological(init);
      MatchingChronological(init, videoId, sessionId);
      var rest := Matching(init, videoId, sessionId);
      forall x | x in rest
        ensures x.createdAt < last.createdAt
      {
        var k :| 0 <= k < |init| && init[k] == x;
      }
    }
  }

  /** Putting an entry strictly newer than the head of a strictly newest-first sequence in front keeps it strict. */
  lemma ConsStrictlyNewestFirst(x: ChatEntry, s: seq<ChatEntry>)
    requires StrictlyNewestFirst(s)
    requires s != [] ==> s[0].createdAt < x.createdAt
    ensures StrictlyNewestFirst([x] + s)
  {
    forall i, j | 0 <= i < j < |[x] + s|
      ensures ([x] + s)[j].createdAt < ([x] + s)[i].createdAt
    {
      if i == 0 {
        assert ([x] + s)[j] == s[j - 1];
        if j > 1 {
          assert s[j - 1].createdAt < s[0].createdAt;
        }
      } else {
        assert ([x] + s)[i] == s[i - 1] && ([x] + s)[j] == s[j - 1];
      }
    }
  }

  /** In a log written in time order, every entry before the last is older than it. */
  lemma ChronologicalLastNewest(s: seq<ChatEntry>)
    requires Chronological(s) && s != []
    ensures Chronological(s[..|s| - 1])
    ensures forall x :: x in s[..|s| - 1] ==> x.createdAt < s[|s| - 1].createdAt
  {
    var init := s[..|s| - 1];
    forall x | x in init
      ensures x.createdAt < s[|s| - 1].createdAt
    {
      var k :| 0 <= k < |init| && init[k] == x;
      assert s[k] == x;
    }
  }

  /** The head of a newest-first ordering is one of the sequence's elements. */
  lemma NewestFirstHead(s: seq<ChatEntry>)
    requires NewestFirst(s) != []
    ensures NewestFirst(s)[0] in s
  {
    assert NewestFirst(s)[0] in multiset(NewestFirst(s));
  }

  /** Ordering a log written in time order newest first gives a strictly descending sequence. */
  lemma {:induction false} NewestFirstStrict(s: seq<ChatEntry>)
    requires Chronological(s)
    ensures StrictlyNewestFirst(NewestFirst(s))
  {
    if s != [] {
      var init := s[..|s| - 1];
      var last := s[|s| - 1];
      assert s == init + [last];
      ChronologicalLastNewest(s);
      NewestFirstAppend(init, last);
      NewestFirstStrict(init);
      if NewestFirst(init) != [] {
        NewestFirstHead(init);
      }
      ConsStrictlyNewestFirst(last, NewestFirst(init));
    }
  }

  /** On a log written in time order, the history is strictly newest first. */
  lemma HistoryStrictlyNewestFirst(log: seq<ChatEntry>, videoId: string, sessionId: string, limit: nat)
    requires Chronological(log)
    ensures StrictlyNewestFirst(GetChatHistory(log, videoId, sessionId, limit))
  {
    MatchingChronological(log, videoId, sessionId);
    NewestFirstStrict(Matching(log, videoId, sessionId));
  }
}
