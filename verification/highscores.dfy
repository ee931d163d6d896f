/** Reading the `highscores` table: a player's best row and the global top list. */
module Highscores {
  import opened Wrappers
  import opened Seqs
  import opened Sorting
  import opened Tables

  /** How many rows the top list returns when the caller names no limit. */
  const DefaultLimit: int := 10

  /** One row of the top list: the highscore row joined with its player's username. */
  datatype HighscoreRow = HighscoreRow(id: int, playerId: int, score: int, achieved: Date, username: string)

  function RowOf(h: Highscore, p: Player): HighscoreRow
  {
    HighscoreRow(h.id, h.playerId, h.score, h.achieved, p.username)
  }

  /**
    `row` is a highscore row of `hs` extended with the username of a player
    row of `ps` whose id is the highscore's player id.
   */
  predicate JoinedRow(hs: seq<Highscore>, ps: seq<Player>, row: HighscoreRow)
  {
    && Highscore(row.id, row.playerId, row.score, row.achieved) in hs
    && exists j :: 0 <= j < |ps| && ps[j].id == row.playerId && ps[j].username == row.username
  }

  /**
    The rows of `highscores JOIN players ON h.player_id = p.id`, highscore by
    highscore. Player ids are a primary key, so each highscore row meets at
    most one player row.
   */
  function Join(hs: seq<Highscore>, ps: seq<Player>): (r: seq<HighscoreRow>)
    ensures forall k :: 0 <= k < |r| ==> JoinedRow(hs, ps, r[k])
    ensures forall i :: 0 <= i < |hs| && HasPlayerId(ps, hs[i].playerId) ==>
              RowOf(hs[i], PlayerById(ps, hs[i].playerId).value) in r
    ensures JoinsRows(hs, ps, r)
  {
    if |hs| == 0 then []
    else
      var rest := Join(hs[1..], ps);
      var r := match PlayerById(ps, hs[0].playerId)
               case None => rest
               case Some(p) => [RowOf(hs[0], p)] + rest;
      JoinStep(hs, ps, rest, r);
      JoinFacts(hs, ps, r);
      r
  }

  /** The highscore rows that meet a player row, in storage order: the rows an inner join keeps. */
  function Joinable(hs: seq<Highscore>, ps: seq<Player>): (f: seq<Highscore>)
    ensures forall k :: 0 <= k < |f| ==> HasPlayerId(ps, f[k].playerId)
  {
    Filter(hs, (h: Highscore) => HasPlayerId(ps, h.playerId))
  }

  /**
    `r` is the joinable highscore rows, one result row each and in the same
    order, each extended with its player's username.
   */
  predicate JoinsRows(hs: seq<Highscore>, ps: seq<Player>, r: seq<HighscoreRow>)
  {
    var f := Joinable(hs, ps);
    |r| == |f| && forall k :: 0 <= k < |r| ==> r[k] == RowOf(f[k], PlayerById(ps, f[k].playerId).value)
  }

  /** `Joinable` unfolded by one row. */
  lemma JoinableCons(hs: seq<Highscore>, ps: seq<Player>)
    requires |hs| > 0
    ensures Joinable(hs, ps) == if HasPlayerId(ps, hs[0].playerId) then [hs[0]] + Joinable(hs[1..], ps) else Joinable(hs[1..], ps)
  {
  }

  /** One more row of the join, given the join of the rest. */
  lemma JoinStep(hs: seq<Highscore>, ps: seq<Player>, rest: seq<HighscoreRow>, r: seq<HighscoreRow>)
    requires |hs| > 0 && JoinsRows(hs[1..], ps, rest)
    requires r == match PlayerById(ps, hs[0].playerId)
                  case None => rest
                  case Some(p) => [RowOf(hs[0], p)] + rest
    ensures JoinsRows(hs, ps, r)
  {
    JoinableCons(hs, ps);
    var f := Joinable(hs, ps);
    var tail := Joinable(hs[1..], ps);
    if PlayerById(ps, hs[0].playerId).Some? {
      forall k | 0 <= k < |r| ensures r[k] == RowOf(f[k], PlayerById(ps, f[k].playerId).value) {
        if k > 0 {
          assert r[k] == rest[k - 1] && f[k] == tail[k - 1];
        }
      }
    }
  }

  /** Row-by-row join facts: each row is a joined row, and each joinable highscore yields one. */
  lemma JoinFacts(hs: seq<Highscore>, ps: seq<Player>, r: seq<HighscoreRow>)
    requires JoinsRows(hs, ps, r)
    ensures forall k :: 0 <= k < |r| ==> JoinedRow(hs, ps, r[k])
    ensures forall i :: 0 <= i < |hs| && HasPlayerId(ps, hs[i].playerId) ==>
              RowOf(hs[i], PlayerById(ps, hs[i].playerId).value) in r
  {
    var f := Joinable(hs, ps);
    forall k | 0 <= k < |r| ensures JoinedRow(hs, ps, r[k]) {
      var p := PlayerById(ps, f[k].playerId).value;
      assert f[k] in hs;
      assert Highscore(r[k].id, r[k].playerId, r[k].score, r[k].achieved) == f[k];
      var j :| 0 <= j < |ps| && ps[j] == p;
    }
    forall i | 0 <= i < |hs| && HasPlayerId(ps, hs[i].playerId)
      ensures RowOf(hs[i], PlayerById(ps, hs[i].playerId).value) in r
    {
      assert hs[i] in f;
      var k :| 0 <= k < |f| && f[k] == hs[i];
      assert r[k] == RowOf(hs[i], PlayerById(ps, hs[i].playerId).value);
    }
  }

  /** The joined rows, best score first. */
  function Ranked(s: Store): (r: seq<HighscoreRow>)
    ensures SortedDesc(r, (x: HighscoreRow) => x.score)
    ensures multiset(r) == multiset(Join(s.highscores, s.players))
  {
    SortDesc(Join(s.highscores, s.players), (x: HighscoreRow) => x.score)
  }

  /** How many rows a query with this limit returns out of `n` available. */
  function LimitCount(limit: int, n: nat): nat
  {
    if limit < 0 || limit >= n then n else limit
  }

  /**
    `get_highscores(limit)`: the top `limit` rows of the join by score; a
    negative limit means no limit, as in SQLite.
   */
  function GetHighscores(s: Store, limit: int): (r: seq<HighscoreRow>)
    ensures limit >= 0 ==> |r| <= limit
    ensures |r| == LimitCount(limit, |Join(s.highscores, s.players)|)
    ensures SortedDesc(r, (x: HighscoreRow) => x.score)
    ensures forall k :: 0 <= k < |r| ==> JoinedRow(s.highscores, s.players, r[k])
    ensures multiset(r) <= multiset(Join(s.highscores, s.players))
    ensures forall x :: x in multiset(Join(s.highscores, s.players)) - multiset(r) ==> forall k :: 0 <= k < |r| ==> x.score <= r[k].score
  {
    var ranked := Ranked(s);
    var r := ranked[..LimitCount(limit, |ranked|)];
    PrefixFacts(ranked, |r|, (x: HighscoreRow) => x.score);
    TopOfRanked(s, ranked, |r|);
    JoinedRowsOfRanked(s, r);
    r
  }

  /** A prefix of the ranked rows leaves out no joined row that scores higher than a row it keeps. */
  lemma TopOfRanked(s: Store, ranked: seq<HighscoreRow>, n: nat)
    requires SortedDesc(ranked, (x: HighscoreRow) => x.score)
    requires multiset(ranked) == multiset(Join(s.highscores, s.players))
    requires n <= |ranked|
    ensures var r := ranked[..n];
            forall x :: x in multiset(Join(s.highscores, s.players)) - multiset(r) ==> forall k :: 0 <= k < |r| ==> x.score <= r[k].score
  {
    PrefixIsTop(ranked, n, (x: HighscoreRow) => x.score);
  }

  /** `get_highscores()` with the default argument: the ten best joined rows, or all of them when there are fewer. */
  function GetTopHighscores(s: Store): (r: seq<HighscoreRow>)
    ensures var n := |Joinable(s.highscores, s.players)|;
            |r| == if n < DefaultLimit then n else DefaultLimit
    ensures SortedDesc(r, (x: HighscoreRow) => x.score)
    ensures forall k :: 0 <= k < |r| ==> JoinedRow(s.highscores, s.players, r[k])
    ensures multiset(r) <= multiset(Join(s.highscores, s.players))
    ensures forall x :: x in multiset(Join(s.highscores, s.players)) - multiset(r) ==> forall k :: 0 <= k < |r| ==> x.score <= r[k].score
  {
    GetHighscores(s, DefaultLimit)
  }

  /** Rows drawn from the join, with multiplicity, are joined rows. */
  lemma JoinedRowsOfRanked(s: Store, r: seq<HighscoreRow>)
    requires multiset(r) <= multiset(Join(s.highscores, s.players))
    ensures forall k :: 0 <= k < |r| ==> JoinedRow(s.highscores, s.players, r[k])
  {
    var j := Join(s.highscores, s.players);
    forall k | 0 <= k < |r| ensures JoinedRow(s.highscores, s.players, r[k]) {
      assert r[k] in multiset(r);
      assert r[k] in multiset(j);
      assert r[k] in j;
    }
  }

  /** The rows of one player's personal-best log, best first. */
  function PlayerRows(hs: seq<Highscore>, pid: int): (r: seq<Highscore>)
    ensures SortedDesc(r, (h: Highscore) => h.score)
    ensures forall k :: 0 <= k < |r| ==> r[k] in hs && r[k].playerId == pid
    ensures forall i :: 0 <= i < |hs| && hs[i].playerId == pid ==> hs[i] in r
  {
    var mine := Filter(hs, (h: Highscore) => h.playerId == pid);
    var r := SortDesc(mine, (h: Highscore) => h.score);
    PermutedFilter(hs, (h: Highscore) => h.playerId == pid, r);
    r
  }

  /**
    `get_player_highscore`: the player's highest-scoring row, or `None`
    when the player has none.
   */
  function GetPlayerHighscore(hs: seq<Highscore>, pid: int): (r: Option<Highscore>)
    ensures r.None? <==> forall i :: 0 <= i < |hs| ==> hs[i].playerId != pid
    ensures r.Some? ==> r.value in hs && r.value.playerId == pid
    ensures r.Some? ==> forall i :: 0 <= i < |hs| && hs[i].playerId == pid ==> hs[i].score <= r.value.score
  {
    var rows := PlayerRows(hs, pid);
    HeadIsBest(hs, pid, rows);
    if |rows| == 0 then None else Some(rows[0])
  }

  /** The first of a player's rows ranked best first is the player's best row. */
  lemma HeadIsBest(hs: seq<Highscore>, pid: int, rows: seq<Highscore>)
    requires SortedDesc(rows, (h: Highscore) => h.score)
    requires forall k :: 0 <= k < |rows| ==> rows[k] in hs && rows[k].playerId == pid
    requires forall i :: 0 <= i < |hs| && hs[i].playerId == pid ==> hs[i] in rows
    ensures |rows| == 0 <==> forall i :: 0 <= i < |hs| ==> hs[i].playerId != pid
    ensures |rows| > 0 ==> rows[0] in hs && rows[0].playerId == pid
    ensures |rows| > 0 ==> forall i :: 0 <= i < |hs| && hs[i].playerId == pid ==> hs[i].score <= rows[0].score
  {
    if |rows| > 0 {
      forall i | 0 <= i < |hs| && hs[i].playerId == pid ensures hs[i].score <= rows[0].score {
        var k :| 0 <= k < |rows| && rows[k] == hs[i];
        if k > 0 {
          assert rows[k].score <= rows[0].score;
        }
      }
    }
  }
}
