/** The `players` table: registration, lookup, renaming and deletion. */
module Players {
  import opened Wrappers
  import opened Seqs
  import opened Tables

  /**
    `add_player`: a new row with the next id and the caller's timestamp, or
    `None` with nothing changed when the username is already taken (the
    UNIQUE constraint rejects the insert and the transaction rolls back).
   */
  function AddPlayer(s: Store, username: string, now: Date): (r: Outcome<Option<int>>)
    ensures HasUsername(s.players, username) ==> r.value.None? && r.store == s
    ensures !HasUsername(s.players, username) ==>
              && r.value == Some(s.nextPlayerId)
              && r.store == s.(players := s.players + [Player(s.nextPlayerId, username, now)],
                               nextPlayerId := s.nextPlayerId + 1)
    ensures Valid(s) ==> Valid(r.store)
  {
    if HasUsername(s.players, username) then
      Outcome(None, s)
    else
      var s' := s.(players := s.players + [Player(s.nextPlayerId, username, now)],
                   nextPlayerId := s.nextPlayerId + 1);
      Outcome(Some(s.nextPlayerId), s')
  }

  /**
    `get_player`: by id when an id is given and is not 0 (Python treats 0 as
    "no id"), otherwise by username when one is given and is not empty,
    otherwise no lookup at all.
   */
  function GetPlayer(s: Store, id: Option<int>, username: Option<string>): (r: Option<Player>)
    ensures id.Some? && id.value != 0 ==> (r.Some? <==> HasPlayerId(s.players, id.value))
    ensures id.Some? && id.value != 0 && r.Some? ==> r.value in s.players && r.value.id == id.value
    ensures (id.None? || id.value == 0) && username.Some? && username.value != "" ==>
              (r.Some? <==> HasUsername(s.players, username.value))
    ensures (id.None? || id.value == 0) && username.Some? && r.Some? ==>
              r.value in s.players && r.value.username == username.value
    ensures (id.None? || id.value == 0) && (username.None? || username.value == "") ==> r.None?
  {
    if id.Some? && id.value != 0 then PlayerById(s.players, id.value)
    else if username.Some? && username.value != "" then PlayerByName(s.players, username.value)
    else None
  }

  /** Another player than `id` already uses `username`. */
  predicate NameTakenByOther(ps: seq<Player>, id: int, username: string)
  {
    exists i :: 0 <= i < |ps| && ps[i].id != id && ps[i].username == username
  }

  /**
    `update_player`: renames the player with this id. It reports whether a
    row matched; renaming to a name another player holds violates the
    UNIQUE constraint and changes nothing.
   */
  function UpdatePlayer(s: Store, id: int, username: string): (r: Outcome<bool>)
    ensures r.value <==> HasPlayerId(s.players, id) && !NameTakenByOther(s.players, id, username)
    ensures !r.value ==> r.store == s
    ensures r.value ==> r.store == s.(players := r.store.players)
    ensures |r.store.players| == |s.players|
    ensures forall i :: 0 <= i < |s.players| ==>
              r.store.players[i] == if r.value && s.players[i].id == id
                                    then s.players[i].(username := username)
                                    else s.players[i]
  {
    if !HasPlayerId(s.players, id) || NameTakenByOther(s.players, id, username) then
      Outcome(false, s)
    else
      var ps := seq(|s.players|, i requires 0 <= i < |s.players| =>
                  if s.players[i].id == id then s.players[i].(username := username) else s.players[i]);
      Outcome(true, s.(players := ps))
  }

  /**
    `delete_player` as the code behaves: the player row goes, but the
    player's sessions and highscores stay, because SQLite ignores the
    declared ON DELETE CASCADE unless foreign keys are switched on.
   */
  function DeletePlayer(s: Store, id: int): (r: Outcome<bool>)
    ensures r.value <==> HasPlayerId(s.players, id)
    ensures !HasPlayerId(r.store.players, id)
    ensures forall i :: 0 <= i < |s.players| && s.players[i].id != id ==> s.players[i] in r.store.players
    ensures forall i :: 0 <= i < |r.store.players| ==> r.store.players[i] in s.players
    ensures forall p :: multiset(r.store.players)[p] == if p.id != id then multiset(s.players)[p] else 0
    ensures r.store == s.(players := r.store.players)
  {
    var ps := Filter(s.players, (p: Player) => p.id != id);
    Outcome(|ps| < |s.players|, s.(players := ps))
  }

  /** The ON DELETE CASCADE step: every session and highscore row of the player goes. */
  function DropRowsOf(s: Store, id: int): (s': Store)
    ensures forall i :: 0 <= i < |s'.sessions| ==> s'.sessions[i].playerId != id
    ensures forall i :: 0 <= i < |s'.highscores| ==> s'.highscores[i].playerId != id
    ensures forall i :: 0 <= i < |s.sessions| && s.sessions[i].playerId != id ==> s.sessions[i] in s'.sessions
    ensures forall i :: 0 <= i < |s.highscores| && s.highscores[i].playerId != id ==> s.highscores[i] in s'.highscores
    ensures forall i :: 0 <= i < |s'.sessions| ==> s'.sessions[i] in s.sessions
    ensures forall i :: 0 <= i < |s'.highscores| ==> s'.highscores[i] in s.highscores
    ensures forall x :: multiset(s'.sessions)[x] == if x.playerId != id then multiset(s.sessions)[x] else 0
    ensures forall h :: multiset(s'.highscores)[h] == if h.playerId != id then multiset(s.highscores)[h] else 0
    ensures s' == s.(sessions := s'.sessions, highscores := s'.highscores)
  {
    s.(sessions := Filter(s.sessions, (x: Session) => x.playerId != id),
       highscores := Filter(s.highscores, (h: Highscore) => h.playerId != id))
  }

  /**
    `delete_player` as the schema intends: the player row and every session
    and highscore row of that player go; nothing else changes.
   */
  function DeletePlayerCascade(s: Store, id: int): (r: Outcome<bool>)
    ensures r.value <==> HasPlayerId(s.players, id)
    ensures !HasPlayerId(r.store.players, id)
    ensures forall i :: 0 <= i < |r.store.sessions| ==> r.store.sessions[i].playerId != id
    ensures forall i :: 0 <= i < |r.store.highscores| ==> r.store.highscores[i].playerId != id
    ensures forall i :: 0 <= i < |s.players| && s.players[i].id != id ==> s.players[i] in r.store.players
    ensures forall i :: 0 <= i < |s.sessions| && s.sessions[i].playerId != id ==> s.sessions[i] in r.store.sessions
    ensures forall i :: 0 <= i < |s.highscores| && s.highscores[i].playerId != id ==> s.highscores[i] in r.store.highscores
    ensures forall i :: 0 <= i < |r.store.players| ==> r.store.players[i] in s.players
    ensures forall i :: 0 <= i < |r.store.sessions| ==> r.store.sessions[i] in s.sessions
    ensures forall i :: 0 <= i < |r.store.highscores| ==> r.store.highscores[i] in s.highscores
    ensures forall p :: multiset(r.store.players)[p] == if p.id != id then multiset(s.players)[p] else 0
    ensures forall x :: multiset(r.store.sessions)[x] == if x.playerId != id then multiset(s.sessions)[x] else 0
    ensures forall h :: multiset(r.store.highscores)[h] == if h.playerId != id then multiset(s.highscores)[h] else 0
    ensures r.store == s.(players := r.store.players, sessions := r.store.sessions, highscores := r.store.highscores)
  {
    var d := DeletePlayer(s, id);
    Outcome(d.value, DropRowsOf(d.store, id))
  }
}
