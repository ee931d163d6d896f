/**
  The `game_sessions` table and the highscore promotion that follows every
  session insert.
 */
module Sessions {
  import opened Wrappers
  import opened Seqs
  import opened Sorting
  import opened Tables
  import opened Highscores

  /** The new score beats every highscore row the player has (vacuously so when there are none). */
  predicate BeatsLog(hs: seq<Highscore>, pid: int, score: int)
  {
    forall i :: 0 <= i < |hs| && hs[i].playerId == pid ==> hs[i].score < score
  }

  /**
    `_update_highscore`: reads the player's current best and appends a
    highscore row stamped `now` when there is none or the score is strictly
    greater; otherwise the store is unchanged.
   */
  function UpdateHighscore(s: Store, pid: int, score: int, now: Date): (s': Store)
    ensures BeatsLog(s.highscores, pid, score) ==>
              s' == s.(highscores := s.highscores + [Highscore(s.nextHighscoreId, pid, score, now)],
                       nextHighscoreId := s.nextHighscoreId + 1)
    ensures !BeatsLog(s.highscores, pid, score) ==> s' == s
  {
    match GetPlayerHighscore(s.highscores, pid)
    case None =>
      s.(highscores := s.highscores + [Highscore(s.nextHighscoreId, pid, score, now)],
         nextHighscoreId := s.nextHighscoreId + 1)
    case Some(best) =>
      if score > best.score then
        s.(highscores := s.highscores + [Highscore(s.nextHighscoreId, pid, score, now)],
           nextHighscoreId := s.nextHighscoreId + 1)
      else s
  }

  /** The INSERT of `add_game_session`: the played date defaults to `now`. */
  function InsertSession(s: Store, pid: int, score: int, duration: int, played: Option<Date>, now: Date): (s': Store)
    ensures |s'.sessions| == |s.sessions| + 1
    ensures s'.sessions[|s.sessions|].id == s.nextSessionId
  {
    s.(sessions := s.sessions + [Session(s.nextSessionId, pid, score, played.GetOr(now), duration)],
       nextSessionId := s.nextSessionId + 1)
  }

  /**
    `add_game_session`, returning the id of the session it inserted. The
    session row is always appended; a highscore row is appended exactly
    when the score beats the player's log. The player id is not checked
    against the players table, since foreign keys are not enforced.
   */
  function AddGameSession(s: Store, pid: int, score: int, duration: int, played: Option<Date>, now: Date): (r: Outcome<int>)
    ensures r.value == s.nextSessionId
    ensures r.store.sessions == s.sessions + [Session(s.nextSessionId, pid, score, played.GetOr(now), duration)]
    ensures BeatsLog(s.highscores, pid, score) ==>
              r.store.highscores == s.highscores + [Highscore(s.nextHighscoreId, pid, score, now)]
    ensures !BeatsLog(s.highscores, pid, score) ==> r.store.highscores == s.highscores
    ensures r.store.players == s.players && r.store.settings == s.settings
    ensures r.store.nextSessionId == s.nextSessionId + 1
    ensures r.store.nextHighscoreId == s.nextHighscoreId + |r.store.highscores| - |s.highscores|
    ensures r.store == s.(sessions := r.store.sessions, highscores := r.store.highscores,
                          nextSessionId := r.store.nextSessionId, nextHighscoreId := r.store.nextHighscoreId)
  {
    var inserted := InsertSession(s, pid, score, duration, played, now);
    Outcome(s.nextSessionId, UpdateHighscore(inserted, pid, score, now))
  }

  /**
    `add_game_session` as written returns `cursor.lastrowid` after the
    promotion step has run on the same cursor, so when a highscore row was
    inserted it returns that row's id instead of the session's. Without a
    promotion it returns the session's id: since Python 3.6 `lastrowid` is
    the connection's last inserted rowid, which the SELECT does not change.
   */
  function AddGameSessionAsWritten(s: Store, pid: int, score: int, duration: int, played: Option<Date>, now: Date): (r: Outcome<int>)
    ensures r.store == AddGameSession(s, pid, score, duration, played, now).store
    ensures BeatsLog(s.highscores, pid, score) ==> r.value == s.nextHighscoreId
    ensures !BeatsLog(s.highscores, pid, score) ==> r.value == s.nextSessionId
  {
    var inserted := InsertSession(s, pid, score, duration, played, now);
    var promoted := UpdateHighscore(inserted, pid, score, now);
    var lastRowId := if |promoted.highscores| > |inserted.highscores| then inserted.nextHighscoreId else s.nextSessionId;
    Outcome(lastRowId, promoted)
  }

  /** `get_game_session`: the session row with this id. */
  function GetGameSession(s: Store, id: int): (r: Option<Session>)
    ensures r.None? <==> forall i :: 0 <= i < |s.sessions| ==> s.sessions[i].id != id
    ensures r.Some? ==> r.value in s.sessions && r.value.id == id
  {
    Find(s.sessions, (x: Session) => x.id == id)
  }

  /** `get_player_game_sessions`: the player's sessions, most recently played first. */
  function GetPlayerGameSessions(s: Store, pid: int): (r: seq<Session>)
    ensures forall k :: 0 <= k < |r| ==> r[k] in s.sessions && r[k].playerId == pid
    ensures forall i :: 0 <= i < |s.sessions| && s.sessions[i].playerId == pid ==> s.sessions[i] in r
    ensures multiset(r) == multiset(Filter(s.sessions, (x: Session) => x.playerId == pid))
    ensures SortedDesc(r, (x: Session) => x.played)
  {
    var mine := Filter(s.sessions, (x: Session) => x.playerId == pid);
    var r := SortDesc(mine, (x: Session) => x.played);
    PermutedFilter(s.sessions, (x: Session) => x.playerId == pid, r);
    r
  }

  /** `delete_game_session`: removes the row with this id; the highscore log is left as it is. */
  function DeleteGameSession(s: Store, id: int): (r: Outcome<bool>)
    ensures r.value <==> exists i :: 0 <= i < |s.sessions| && s.sessions[i].id == id
    ensures forall i :: 0 <= i < |r.store.sessions| ==> r.store.sessions[i].id != id && r.store.sessions[i] in s.sessions
    ensures forall i :: 0 <= i < |s.sessions| && s.sessions[i].id != id ==> s.sessions[i] in r.store.sessions
    ensures forall x :: multiset(r.store.sessions)[x] == if x.id != id then multiset(s.sessions)[x] else 0
    ensures r.store == s.(sessions := r.store.sessions)
  {
    var ss := Filter(s.sessions, (x: Session) => x.id != id);
    Outcome(|ss| < |s.sessions|, s.(sessions := ss))
  }
}
