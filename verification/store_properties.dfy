/**
  Properties of the store that relate several operations: every operation
  keeps the schema's constraints, reads return what writes stored, and the
  highscore log follows the sessions recorded.
 */
module StoreProperties {
  import opened Wrappers
  import opened Seqs
  import opened Sorting
  import opened Tables
  import opened Players
  import opened Highscores
  import opened Sessions
  import opened Settings

  // ---- players ----

  /** A registered player is found again by id and by name, under an id no earlier player had. */
  lemma AddPlayerThenGet(s: Store, username: string, now: Date)
    requires Valid(s)
    requires !HasUsername(s.players, username)
    ensures var r := AddPlayer(s, username, now);
            && r.value.Some?
            && !HasPlayerId(s.players, r.value.value)
            && GetPlayer(r.store, r.value, None) == Some(Player(r.value.value, username, now))
            && (username != "" ==> GetPlayer(r.store, None, Some(username)) == Some(Player(r.value.value, username, now)))
  {
    var r := AddPlayer(s, username, now);
    var ps := r.store.players;
    var n := |s.players|;
    assert ps[n] == Player(s.nextPlayerId, username, now);
    assert HasPlayerId(ps, s.nextPlayerId);
    var byId := GetPlayer(r.store, r.value, None).value;
    var k :| 0 <= k < |ps| && ps[k] == byId;
    assert k == n;
    if username != "" {
      assert HasUsername(ps, username);
      var byName := GetPlayer(r.store, None, Some(username)).value;
      var j :| 0 <= j < |ps| && ps[j] == byName;
      assert j == n;
    }
  }

  /** Renaming keeps ids and usernames unique. */
  lemma UpdatePlayerKeepsValid(s: Store, id: int, username: string)
    requires Valid(s)
    ensures Valid(UpdatePlayer(s, id, username).store)
  {
    var r := UpdatePlayer(s, id, username);
    if r.value {
      var ps := r.store.players;
      forall i, j | 0 <= i < j < |ps| ensures ps[i].username != ps[j].username {
        if s.players[i].id == id {
          assert s.players[j].id != id;
        } else if s.players[j].id == id {
          assert s.players[i].id != id;
        }
      }
    }
  }

  /** After a successful rename, looking the player up by id shows the new name. */
  lemma UpdatePlayerThenGet(s: Store, id: int, username: string)
    requires Valid(s)
    requires id != 0
    ensures var r := UpdatePlayer(s, id, username);
            r.value ==> GetPlayer(r.store, Some(id), None).value.username == username
  {
  }

  /** Both deletions keep ids and usernames unique. */
  lemma DeletePlayerKeepsValid(s: Store, id: int)
    requires Valid(s)
    ensures Valid(DeletePlayer(s, id).store)
    ensures Valid(DeletePlayerCascade(s, id).store)
  {
    var keep := (p: Player) => p.id != id;
    var rel := (a: Player, b: Player) => a.id != b.id && a.username != b.username;
    assert Pairwise(s.players, rel);
    FilterKeepsPairwise(s.players, keep, rel);
    var ps := Filter(s.players, keep);
    assert UniqueIdsBelow(ps, (p: Player) => p.id, s.nextPlayerId) by {
      assert forall i :: 0 <= i < |ps| ==> ps[i] in s.players;
    }
    var sk := (x: Session) => x.playerId != id;
    var srel := (a: Session, b: Session) => a.id != b.id;
    assert Pairwise(s.sessions, srel);
    FilterKeepsPairwise(s.sessions, sk, srel);
    var ss := Filter(s.sessions, sk);
    assert UniqueIdsBelow(ss, (x: Session) => x.id, s.nextSessionId) by {
      assert forall i :: 0 <= i < |ss| ==> ss[i] in s.sessions;
    }
    var hk := (h: Highscore) => h.playerId != id;
    var hrel := (a: Highscore, b: Highscore) => a.id != b.id;
    assert Pairwise(s.highscores, hrel);
    FilterKeepsPairwise(s.highscores, hk, hrel);
    var hs := Filter(s.highscores, hk);
    assert UniqueIdsBelow(hs, (h: Highscore) => h.id, s.nextHighscoreId) by {
      assert forall i :: 0 <= i < |hs| ==> hs[i] in s.highscores;
    }
  }

  // ---- findings: foreign keys and the returned session id ----

  /**
    Deleting a player as the code does leaves the player's session and
    highscore behind: the player registered, played once and was deleted,
    yet the store still credits the old id with a session and a best score.
   */
  lemma DeletePlayerLeavesOrphans()
    ensures var s1 := AddPlayer(EmptyStore(), "ann", 0).store;
            var s2 := AddGameSession(s1, 1, 10, 60, None, 1).store;
            var r := DeletePlayer(s2, 1);
            && r.value
            && !HasPlayerId(r.store.players, 1)
            && r.store.sessions == [Session(1, 1, 10, 1, 60)]
            && GetPlayerHighscore(r.store.highscores, 1) == Some(Highscore(1, 1, 10, 1))
  {
    var s0 := EmptyStore();
    assert !HasUsername(s0.players, "ann");
    var s1 := AddPlayer(s0, "ann", 0).store;
    assert s1.players == [Player(1, "ann", 0)];
    assert s1.highscores == [] && s1.nextHighscoreId == 1 && s1.nextSessionId == 1;
    assert BeatsLog(s1.highscores, 1, 10);
    var s2 := AddGameSession(s1, 1, 10, 60, None, 1).store;
    assert s2.highscores == [Highscore(1, 1, 10, 1)];
    assert s2.sessions == [Session(1, 1, 10, 1, 60)];
    assert s2.players == s1.players;
    assert s2.players[0].id == 1;
    var r := DeletePlayer(s2, 1);
    var hs := r.store.highscores;
    assert hs == [Highscore(1, 1, 10, 1)];
    assert hs[0].playerId == 1;
    var best := GetPlayerHighscore(hs, 1).value;
    assert best in hs;
  }

  /** The cascading delete leaves no session or highscore of the player and keeps everyone else's. */
  lemma CascadeRemovesOnlyThatPlayer(s: Store, id: int, other: int)
    requires other != id
    ensures var r := DeletePlayerCascade(s, id);
            && GetPlayerHighscore(r.store.highscores, id).None?
            && GetPlayerGameSessions(r.store, id) == []
            && GetPlayerHighscore(r.store.highscores, other) == GetPlayerHighscore(s.highscores, other)
            && GetPlayerGameSessions(r.store, other) == GetPlayerGameSessions(s, other)
  {
    var r := DeletePlayerCascade(s, id);
    assert Filter(r.store.highscores, (h: Highscore) => h.playerId == other)
           == Filter(s.highscores, (h: Highscore) => h.playerId == other) by {
      FilterCommutes(s.highscores, (h: Highscore) => h.playerId != id, (h: Highscore) => h.playerId == other);
    }
    assert Filter(r.store.sessions, (x: Session) => x.playerId == other)
           == Filter(s.sessions, (x: Session) => x.playerId == other) by {
      FilterCommutes(s.sessions, (x: Session) => x.playerId != id, (x: Session) => x.playerId == other);
    }
  }

  /** Filtering first by a weaker condition changes nothing for a stricter one. */
  lemma {:induction false} FilterCommutes<T(!new)>(xs: seq<T>, outer: T -> bool, inner: T -> bool)
    requires forall x :: inner(x) ==> outer(x)
    ensures Filter(Filter(xs, outer), inner) == Filter(xs, inner)
  {
    if |xs| > 0 {
      FilterCommutes(xs[1..], outer, inner);
      FilterCons(xs, outer);
      FilterCons(xs, inner);
      var f := Filter(xs, outer);
      if outer(xs[0]) {
        FilterCons(f, inner);
        assert f[1..] == Filter(xs[1..], outer);
      }
    }
  }

  /** The store after "ann" registers and plays two games scoring 100 and then 50. */
  function TwoGamesStore(): Store
  {
    Store([Player(1, "ann", 0)],
          [Session(1, 1, 100, 1, 60), Session(2, 1, 50, 2, 45)],
          [Highscore(1, 1, 100, 1)],
          [], 2, 3, 2, 1)
  }

  /** The store after "ann" registers and plays one game scoring 100. */
  function OneGameStore(): Store
  {
    Store([Player(1, "ann", 0)], [Session(1, 1, 100, 1, 60)], [Highscore(1, 1, 100, 1)], [], 2, 2, 2, 1)
  }

  lemma FirstGame()
    ensures AddGameSession(AddPlayer(EmptyStore(), "ann", 0).store, 1, 100, 60, None, 1).store == OneGameStore()
  {
    var s0 := EmptyStore();
    assert !HasUsername(s0.players, "ann");
    var s1 := AddPlayer(s0, "ann", 0).store;
    assert s1 == Store([Player(1, "ann", 0)], [], [], [], 2, 1, 1, 1);
    assert BeatsLog(s1.highscores, 1, 100);
  }

  lemma SecondGame()
    ensures AddGameSession(OneGameStore(), 1, 50, 45, None, 2).store == TwoGamesStore()
  {
    var s := OneGameStore();
    assert !BeatsLog(s.highscores, 1, 50) by {
      assert s.highscores[0].playerId == 1 && s.highscores[0].score == 100;
    }
  }

  /** Registering "ann" and recording scores 100 and 50 leads to `TwoGamesStore`. */
  lemma TwoGamesHistory()
    ensures var s1 := AddPlayer(EmptyStore(), "ann", 0).store;
            var s2 := AddGameSession(s1, 1, 100, 60, None, 1).store;
            AddGameSession(s2, 1, 50, 45, None, 2).store == TwoGamesStore()
  {
    FirstGame();
    SecondGame();
  }

  /**
    The id `add_game_session` returns as written is wrong once the highscore
    and session counters drift apart: after scores 100 and 50, a score of
    200 inserts session 3 but the call returns 2, the id of the second
    session, because the highscore row it also inserted got id 2.
   */
  lemma LastRowIdNamesWrongSession()
    ensures var r := AddGameSessionAsWritten(TwoGamesStore(), 1, 200, 90, None, 3);
            && r.value == 2
            && r.store.sessions[2] == Session(3, 1, 200, 3, 90)
            && GetGameSession(r.store, r.value) == Some(Session(2, 1, 50, 2, 45))
            && AddGameSession(TwoGamesStore(), 1, 200, 90, None, 3).value == 3
  {
    var s := TwoGamesStore();
    assert BeatsLog(s.highscores, 1, 200);
    var r := AddGameSessionAsWritten(s, 1, 200, 90, None, 3);
    var ss := r.store.sessions;
    assert ss == [Session(1, 1, 100, 1, 60), Session(2, 1, 50, 2, 45), Session(3, 1, 200, 3, 90)];
    var got := GetGameSession(r.store, 2).value;
    assert got in ss && got.id == 2;
  }

  /** The corrected `add_game_session` returns an id under which the new session is found. */
  lemma AddGameSessionThenGet(s: Store, pid: int, score: int, duration: int, played: Option<Date>, now: Date)
    requires Valid(s)
    ensures var r := AddGameSession(s, pid, score, duration, played, now);
            GetGameSession(r.store, r.value) == Some(Session(r.value, pid, score, played.GetOr(now), duration))
  {
    var r := AddGameSession(s, pid, score, duration, played, now);
    var ss := r.store.sessions;
    assert ss[|s.sessions|].id == r.value;
    var got := GetGameSession(r.store, r.value).value;
    var k :| 0 <= k < |ss| && ss[k] == got;
    assert k == |s.sessions|;
  }

  /** A session insert keeps every id unique. */
  lemma AddGameSessionKeepsValid(s: Store, pid: int, score: int, duration: int, played: Option<Date>, now: Date)
    requires Valid(s)
    ensures Valid(AddGameSession(s, pid, score, duration, played, now).store)
  {
    var row := Session(s.nextSessionId, pid, score, played.GetOr(now), duration);
    var r := AddGameSession(s, pid, score, duration, played, now).store;
    AppendId(s.sessions, (x: Session) => x.id, s.nextSessionId, row);
    if BeatsLog(s.highscores, pid, score) {
      var promoted := Highscore(s.nextHighscoreId, pid, score, now);
      AppendId(s.highscores, (h: Highscore) => h.id, s.nextHighscoreId, promoted);
      assert r == s.(sessions := s.sessions + [row], highscores := s.highscores + [promoted],
                     nextSessionId := s.nextSessionId + 1, nextHighscoreId := s.nextHighscoreId + 1);
    } else {
      assert r == s.(sessions := s.sessions + [row], nextSessionId := s.nextSessionId + 1);
    }
  }

  /** Deleting a session keeps every id unique. */
  lemma DeleteGameSessionKeepsValid(s: Store, id: int)
    requires Valid(s)
    ensures Valid(DeleteGameSession(s, id).store)
  {
    var keep := (x: Session) => x.id != id;
    var rel := (a: Session, b: Session) => a.id != b.id;
    assert Pairwise(s.sessions, rel);
    FilterKeepsPairwise(s.sessions, keep, rel);
    var ss := Filter(s.sessions, keep);
    assert forall i :: 0 <= i < |ss| ==> ss[i] in s.sessions;
  }

  // ---- sessions and the highscore log ----

  /** Each player's highscore rows, in insertion order, have strictly increasing scores. */
  predicate IncreasingLogs(hs: seq<Highscore>)
  {
    forall i, j :: 0 <= i < j < |hs| && hs[i].playerId == hs[j].playerId ==> hs[i].score < hs[j].score
  }

  /** Highscore row `i` records the score of one of that player's sessions. */
  predicate RowFromSession(s: Store, i: int)
    requires 0 <= i < |s.highscores|
  {
    exists k :: 0 <= k < |s.sessions| && s.sessions[k].playerId == s.highscores[i].playerId
                && s.sessions[k].score == s.highscores[i].score
  }

  predicate LogFromSessions(s: Store)
  {
    forall i :: 0 <= i < |s.highscores| ==> RowFromSession(s, i)
  }

  /** Session `k` is matched or beaten by a highscore row of its player. */
  predicate SessionCovered(s: Store, k: int)
    requires 0 <= k < |s.sessions|
  {
    exists i :: 0 <= i < |s.highscores| && s.highscores[i].playerId == s.sessions[k].playerId
                && s.sessions[k].score <= s.highscores[i].score
  }

  predicate SessionsCovered(s: Store)
  {
    forall k :: 0 <= k < |s.sessions| ==> SessionCovered(s, k)
  }

  /** The relation between sessions and highscores that session inserts maintain. */
  predicate LogTracksSessions(s: Store)
  {
    IncreasingLogs(s.highscores) && LogFromSessions(s) && SessionsCovered(s)
  }

  lemma EmptyTracks()
    ensures LogTracksSessions(EmptyStore())
  {
  }

  /** A session insert appends to a player's log only above every earlier entry. */
  lemma AddGameSessionKeepsIncreasing(s: Store, pid: int, score: int, duration: int, played: Option<Date>, now: Date)
    requires IncreasingLogs(s.highscores)
    ensures IncreasingLogs(AddGameSession(s, pid, score, duration, played, now).store.highscores)
  {
  }

  /** The row a session insert appends to the log records that very session. */
  lemma AddGameSessionKeepsFromSessions(s: Store, pid: int, score: int, duration: int, played: Option<Date>, now: Date)
    requires LogFromSessions(s)
    ensures LogFromSessions(AddGameSession(s, pid, score, duration, played, now).store)
  {
    var s' := AddGameSession(s, pid, score, duration, played, now).store;
    var n := |s.sessions|;
    var m := |s.highscores|;
    assert s'.sessions[n].playerId == pid && s'.sessions[n].score == score;
    assert forall k :: 0 <= k < n ==> s'.sessions[k] == s.sessions[k];
    assert forall i :: 0 <= i < m ==> s'.highscores[i] == s.highscores[i];
    forall i | 0 <= i < |s'.highscores| ensures RowFromSession(s', i) {
      if i < m {
        assert RowFromSession(s, i);
        var k :| 0 <= k < n && s.sessions[k].playerId == s.highscores[i].playerId
                 && s.sessions[k].score == s.highscores[i].score;
        assert s'.sessions[k] == s.sessions[k];
      } else {
        assert BeatsLog(s.highscores, pid, score);
        assert s'.highscores[i] == Highscore(s.nextHighscoreId, pid, score, now);
        assert s'.sessions[n].playerId == s'.highscores[i].playerId && s'.sessions[n].score == s'.highscores[i].score;
      }
    }
  }

  /** The inserted session is covered by the row it adds or by the entry that beat it. */
  lemma AddGameSessionKeepsCovered(s: Store, pid: int, score: int, duration: int, played: Option<Date>, now: Date)
    requires SessionsCovered(s)
    ensures SessionsCovered(AddGameSession(s, pid, score, duration, played, now).store)
  {
    var s' := AddGameSession(s, pid, score, duration, played, now).store;
    var n := |s.sessions|;
    assert s'.sessions == s.sessions + [Session(s.nextSessionId, pid, score, played.GetOr(now), duration)];
    assert forall k :: 0 <= k < n ==> s'.sessions[k] == s.sessions[k];
    CoveredAfterInsert(s, s', pid, score, Highscore(s.nextHighscoreId, pid, score, now));
  }

  /**
    Appending one session of `pid` scoring `score`, and a highscore row for
    it when it beats the log, keeps every session covered.
   */
  lemma CoveredAfterInsert(s: Store, s': Store, pid: int, score: int, promoted: Highscore)
    requires SessionsCovered(s)
    requires |s'.sessions| == |s.sessions| + 1
    requires forall k :: 0 <= k < |s.sessions| ==> s'.sessions[k] == s.sessions[k]
    requires s'.sessions[|s.sessions|].playerId == pid && s'.sessions[|s.sessions|].score == score
    requires promoted.playerId == pid && promoted.score == score
    requires BeatsLog(s.highscores, pid, score) ==> s'.highscores == s.highscores + [promoted]
    requires !BeatsLog(s.highscores, pid, score) ==> s'.highscores == s.highscores
    ensures SessionsCovered(s')
  {
    var n := |s.sessions|;
    var m := |s.highscores|;
    assert forall i :: 0 <= i < m ==> s'.highscores[i] == s.highscores[i];
    forall k | 0 <= k < |s'.sessions| ensures SessionCovered(s', k) {
      if k < n {
        assert SessionCovered(s, k);
        var i :| 0 <= i < m && s.highscores[i].playerId == s.sessions[k].playerId
                 && s.sessions[k].score <= s.highscores[i].score;
        assert s'.highscores[i] == s.highscores[i];
      } else if BeatsLog(s.highscores, pid, score) {
        assert s'.highscores[m] == promoted;
      } else {
        var i :| 0 <= i < m && s.highscores[i].playerId == pid && s.highscores[i].score >= score;
        assert s'.highscores[i] == s.highscores[i];
      }
    }
  }

  /** One session insert keeps the highscore log in step with the sessions. */
  lemma AddGameSessionKeepsLog(s: Store, pid: int, score: int, duration: int, played: Option<Date>, now: Date)
    requires LogTracksSessions(s)
    ensures LogTracksSessions(AddGameSession(s, pid, score, duration, played, now).store)
  {
    AddGameSessionKeepsIncreasing(s, pid, score, duration, played, now);
    AddGameSessionKeepsFromSessions(s, pid, score, duration, played, now);
    AddGameSessionKeepsCovered(s, pid, score, duration, played, now);
  }

  /**
    Under the tracking relation the player's best highscore is the best
    session: absent exactly when the player has no session, and otherwise
    the score of some session and at least every session's score.
   */
  lemma BestHighscoreIsBestSession(s: Store, pid: int)
    requires LogFromSessions(s) && SessionsCovered(s)
    ensures GetPlayerHighscore(s.highscores, pid).None? <==> !HasSession(s.sessions, pid)
    ensures GetPlayerHighscore(s.highscores, pid).Some? ==> SessionBest(s.sessions, pid, GetPlayerHighscore(s.highscores, pid).value.score)
  {
    var best := GetPlayerHighscore(s.highscores, pid);
    if best.None? {
      NoHighscoreNoSession(s, pid);
    } else {
      BestHighscoreBoundsSessions(s, pid, best.value);
    }
  }

  predicate HasSession(ss: seq<Session>, pid: int)
  {
    exists k :: 0 <= k < |ss| && ss[k].playerId == pid
  }

  /** `score` is the highest score among the player's sessions. */
  predicate SessionBest(ss: seq<Session>, pid: int, score: int)
  {
    && (exists k :: 0 <= k < |ss| && ss[k].playerId == pid && ss[k].score == score)
    && (forall k :: 0 <= k < |ss| && ss[k].playerId == pid ==> ss[k].score <= score)
  }

  lemma NoHighscoreNoSession(s: Store, pid: int)
    requires SessionsCovered(s)
    requires forall i :: 0 <= i < |s.highscores| ==> s.highscores[i].playerId != pid
    ensures !HasSession(s.sessions, pid)
  {
    forall k | 0 <= k < |s.sessions| ensures s.sessions[k].playerId != pid {
      assert SessionCovered(s, k);
      var i :| 0 <= i < |s.highscores| && s.highscores[i].playerId == s.sessions[k].playerId
               && s.sessions[k].score <= s.highscores[i].score;
    }
  }

  lemma BestHighscoreBoundsSessions(s: Store, pid: int, h: Highscore)
    requires SessionsCovered(s) && LogFromSessions(s)
    requires h in s.highscores && h.playerId == pid
    requires forall i :: 0 <= i < |s.highscores| && s.highscores[i].playerId == pid ==> s.highscores[i].score <= h.score
    ensures SessionBest(s.sessions, pid, h.score)
    ensures HasSession(s.sessions, pid)
  {
    var i :| 0 <= i < |s.highscores| && s.highscores[i] == h;
    assert RowFromSession(s, i);
    forall k | 0 <= k < |s.sessions| && s.sessions[k].playerId == pid ensures s.sessions[k].score <= h.score {
      assert SessionCovered(s, k);
      var j :| 0 <= j < |s.highscores| && s.highscores[j].playerId == s.sessions[k].playerId
               && s.sessions[k].score <= s.highscores[j].score;
    }
  }

  /** A session as the game-over screen records it. */
  datatype GameRecord = GameRecord(playerId: int, score: int, duration: int, played: Option<Date>, now: Date)

  /** Recording a sequence of sessions one `add_game_session` call after another. */
  function RecordAll(s: Store, games: seq<GameRecord>): (s': Store)
    ensures |s'.sessions| == |s.sessions| + |games|
    decreases |games|
  {
    if |games| == 0 then s
    else
      var g := games[0];
      RecordAll(AddGameSession(s, g.playerId, g.score, g.duration, g.played, g.now).store, games[1..])
  }

  /**
    After any sequence of session inserts the tracking relation still
    holds, so every player's log rises strictly and the best highscore is
    the best session score.
   */
  lemma {:induction false} RecordAllKeepsLog(s: Store, games: seq<GameRecord>)
    requires LogTracksSessions(s)
    ensures LogTracksSessions(RecordAll(s, games))
    ensures IncreasingLogs(RecordAll(s, games).highscores)
    decreases |games|
  {
    if |games| > 0 {
      var g := games[0];
      AddGameSessionKeepsLog(s, g.playerId, g.score, g.duration, g.played, g.now);
      RecordAllKeepsLog(AddGameSession(s, g.playerId, g.score, g.duration, g.played, g.now).store, games[1..]);
    }
  }

  /** From an empty database, the best highscore of every player is that player's best session. */
  lemma FreshDatabaseHighscores(games: seq<GameRecord>, pid: int)
    ensures IncreasingLogs(RecordAll(EmptyStore(), games).highscores)
    ensures var s := RecordAll(EmptyStore(), games);
            GetPlayerHighscore(s.highscores, pid).None? <==> !HasSession(s.sessions, pid)
    ensures var s := RecordAll(EmptyStore(), games);
            GetPlayerHighscore(s.highscores, pid).Some? ==>
              SessionBest(s.sessions, pid, GetPlayerHighscore(s.highscores, pid).value.score)
  {
    EmptyTracks();
    RecordAllKeepsLog(EmptyStore(), games);
    BestHighscoreIsBestSession(RecordAll(EmptyStore(), games), pid);
  }

  /**
    In a strictly increasing log the best row of a player is the player's
    latest row: `get_player_highscore` shows the most recent personal best.
   */
  lemma BestIsLatest(hs: seq<Highscore>, pid: int, i: int)
    requires IncreasingLogs(hs)
    requires 0 <= i < |hs| && hs[i].playerId == pid
    requires forall j :: i < j < |hs| ==> hs[j].playerId != pid
    ensures GetPlayerHighscore(hs, pid) == Some(hs[i])
  {
    var best := GetPlayerHighscore(hs, pid).value;
    var k :| 0 <= k < |hs| && hs[k] == best;
    assert hs[i].score <= best.score;
    assert k == i;
  }

  // ---- the top list ----

  /**
    Under unique player ids the join holds exactly the highscore rows whose
    player exists, each with that player's username.
   */
  lemma JoinIsInnerJoin(s: Store, row: HighscoreRow)
    requires Valid(s)
    ensures row in Join(s.highscores, s.players) <==> JoinedRow(s.highscores, s.players, row)
  {
    var ps := s.players;
    assert forall i, j :: 0 <= i < j < |ps| ==> ps[i].id != ps[j].id;
    InnerJoinRow(s.highscores, ps, Join(s.highscores, ps), row);
  }

  /** A row-by-row join over unique player ids holds `row` exactly when `row` is a joined row. */
  lemma InnerJoinRow(hs: seq<Highscore>, ps: seq<Player>, r: seq<HighscoreRow>, row: HighscoreRow)
    requires forall i, j :: 0 <= i < j < |ps| ==> ps[i].id != ps[j].id
    requires forall k :: 0 <= k < |r| ==> JoinedRow(hs, ps, r[k])
    requires forall i :: 0 <= i < |hs| && HasPlayerId(ps, hs[i].playerId) ==>
               RowOf(hs[i], PlayerById(ps, hs[i].playerId).value) in r
    ensures row in r <==> JoinedRow(hs, ps, row)
  {
    if JoinedRow(hs, ps, row) {
      var h := Highscore(row.id, row.playerId, row.score, row.achieved);
      var i :| 0 <= i < |hs| && hs[i] == h;
      LookupByUniqueId(ps, row.playerId, row.username);
      assert RowOf(h, PlayerById(ps, row.playerId).value) == row;
    }
    if row in r {
      var k :| 0 <= k < |r| && r[k] == row;
    }
  }

  /** With unique ids, the player found by id is the one row carrying that id. */
  lemma LookupByUniqueId(ps: seq<Player>, id: int, name: string)
    requires forall i, j :: 0 <= i < j < |ps| ==> ps[i].id != ps[j].id
    requires exists k :: 0 <= k < |ps| && ps[k].id == id && ps[k].username == name
    ensures PlayerById(ps, id).Some? && PlayerById(ps, id).value.username == name
  {
    var k :| 0 <= k < |ps| && ps[k].id == id && ps[k].username == name;
    assert HasPlayerId(ps, id);
    var p := PlayerById(ps, id).value;
    var k' :| 0 <= k' < |ps| && ps[k'] == p;
    assert k' == k;
  }

  /** Every row of `rest` scores no higher than every row of `top`. */
  predicate NoBetterLeftOut(top: seq<HighscoreRow>, rest: seq<HighscoreRow>)
  {
    forall a, b :: 0 <= a < |top| && 0 <= b < |rest| ==> rest[b].score <= top[a].score
  }

  /**
    The top list leaves nothing better out: the joined rows it does not
    return score no higher than any row it returns.
   */
  lemma GetHighscoresIsTop(s: Store, limit: int)
    ensures exists rest: seq<HighscoreRow> ::
              && multiset(GetHighscores(s, limit)) + multiset(rest) == multiset(Join(s.highscores, s.players))
              && NoBetterLeftOut(GetHighscores(s, limit), rest)
  {
    var ranked := Ranked(s);
    var n := LimitCount(limit, |ranked|);
    assert GetHighscores(s, limit) == ranked[..n];
    var rest := RankedSplit(ranked, n);
  }

  /** Cutting a ranking after `n` rows leaves only rows scoring no higher behind. */
  lemma RankedSplit(ranked: seq<HighscoreRow>, n: nat) returns (rest: seq<HighscoreRow>)
    requires SortedDesc(ranked, (x: HighscoreRow) => x.score)
    requires n <= |ranked|
    ensures multiset(ranked[..n]) + multiset(rest) == multiset(ranked)
    ensures NoBetterLeftOut(ranked[..n], rest)
  {
    PrefixFacts(ranked, n, (x: HighscoreRow) => x.score);
    rest := ranked[n..];
    var top := ranked[..n];
    forall a, b | 0 <= a < |top| && 0 <= b < |rest| ensures rest[b].score <= top[a].score {
      assert rest[b] == ranked[n + b] && top[a] == ranked[a];
    }
  }

  // ---- settings ----

  /** The upsert keeps ids and names unique: it never makes a second row with one name. */
  lemma AddSettingKeepsValid(s: Store, name: string, value: string, description: Option<string>)
    requires Valid(s)
    ensures Valid(AddSetting(s, name, value, description).store)
  {
    var r := AddSetting(s, name, value, description);
    var ts := r.store.settings;
    if HasSettingName(s.settings, name) {
      forall i | 0 <= i < |ts| ensures ts[i].id == s.settings[i].id && ts[i].name == s.settings[i].name {
      }
    } else {
      var n := |s.settings|;
      assert ts[n].name == name && ts[n].id == s.nextSettingId;
      forall i | 0 <= i < n ensures ts[i].name != name {
        assert ts[i] == s.settings[i];
      }
    }
  }

  /**
    Reading a setting back after the upsert gives the value written, under
    the id the upsert returned; the description is the one passed, except
    that an existing row keeps its old one when the new one is not truthy.
   */
  lemma AddSettingThenGet(s: Store, name: string, value: string, description: Option<string>)
    requires Valid(s)
    ensures var r := AddSetting(s, name, value, description);
            var kept := if HasSettingName(s.settings, name) && !Truthy(description)
                        then GetSetting(s, name).value.description else description;
            GetSetting(r.store, name) == Some(Setting(r.value, name, value, kept))
  {
    AddSettingKeepsValid(s, name, value, description);
    var r := AddSetting(s, name, value, description);
    var ts := r.store.settings;
    assert HasSettingName(ts, name) by {
      if HasSettingName(s.settings, name) {
        var prev := GetSetting(s, name).value;
        var i :| 0 <= i < |s.settings| && s.settings[i] == prev;
        assert ts[i].name == name;
      } else {
        assert ts[|s.settings|].name == name;
      }
    }
    var got := GetSetting(r.store, name).value;
    var k :| 0 <= k < |ts| && ts[k] == got;
    if HasSettingName(s.settings, name) {
      var prev := GetSetting(s, name).value;
      var i :| 0 <= i < |s.settings| && s.settings[i] == prev;
      assert ts[i].name == name;
      assert k == i;
    } else {
      assert k == |s.settings|;
    }
  }

  /** Deleting a setting keeps ids and names unique, and the name is gone afterwards. */
  lemma DeleteSettingKeepsValid(s: Store, name: string)
    requires Valid(s)
    ensures Valid(DeleteSetting(s, name).store)
    ensures GetSetting(DeleteSetting(s, name).store, name).None?
  {
    var keep := (t: Setting) => t.name != name;
    var rel := (a: Setting, b: Setting) => a.id != b.id && a.name != b.name;
    assert Pairwise(s.settings, rel);
    FilterKeepsPairwise(s.settings, keep, rel);
    var ts := Filter(s.settings, keep);
    assert forall i :: 0 <= i < |ts| ==> ts[i] in s.settings;
  }
}
