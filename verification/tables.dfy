/**
  The snake game's database as an in-memory value: the four tables as
  sequences of rows in storage order, and one AUTOINCREMENT counter per
  table holding the id the next insert receives. Timestamps are opaque
  ordered values supplied by the caller.
 */
module Tables {
  import opened Wrappers
  import opened Seqs

  type Date = int

  datatype Player = Player(id: int, username: string, created: Date)

  datatype Session = Session(id: int, playerId: int, score: int, played: Date, duration: int)

  datatype Highscore = Highscore(id: int, playerId: int, score: int, achieved: Date)

  datatype Setting = Setting(id: int, name: string, value: string, description: Option<string>)

  datatype Store = Store(
    players: seq<Player>,
    sessions: seq<Session>,
    highscores: seq<Highscore>,
    settings: seq<Setting>,
    nextPlayerId: int,
    nextSessionId: int,
    nextHighscoreId: int,
    nextSettingId: int)

  /** The result of an operation together with the store it leaves behind. */
  datatype Outcome<T> = Outcome(value: T, store: Store)

  /** A freshly created database: empty tables, every counter at 1. */
  function EmptyStore(): (s: Store)
    ensures |s.players| == 0 && |s.sessions| == 0 && |s.highscores| == 0 && |s.settings| == 0
    ensures Valid(s)
  {
    Store([], [], [], [], 1, 1, 1, 1)
  }

  // ---- constraints the schema declares and SQLite enforces ----

  /** Primary keys: positive, below the table's counter, and unique. */
  predicate UniqueIdsBelow<T>(xs: seq<T>, id: T -> int, next: int)
  {
    && (forall i :: 0 <= i < |xs| ==> 1 <= id(xs[i]) < next)
    && (forall i, j :: 0 <= i < j < |xs| ==> id(xs[i]) != id(xs[j]))
  }

  /** Appending a row under the counter's value keeps the keys unique and advances the counter. */
  lemma AppendId<T>(xs: seq<T>, id: T -> int, next: int, x: T)
    requires UniqueIdsBelow(xs, id, next) && next >= 1 && id(x) == next
    ensures UniqueIdsBelow(xs + [x], id, next + 1)
  {
    var xs' := xs + [x];
    forall i | 0 <= i < |xs| ensures id(xs'[i]) < next {
      assert xs'[i] == xs[i];
    }
  }

  /** `players.username` is UNIQUE. */
  predicate UniqueUsernames(ps: seq<Player>)
  {
    forall i, j :: 0 <= i < j < |ps| ==> ps[i].username != ps[j].username
  }

  /** `game_settings.setting_name` is UNIQUE. */
  predicate UniqueSettingNames(ts: seq<Setting>)
  {
    forall i, j :: 0 <= i < j < |ts| ==> ts[i].name != ts[j].name
  }

  /**
    The constraints SQLite enforces on this schema. The foreign keys from
    sessions and highscores to players are declared but not enforced (the
    connection never turns foreign-key checking on), so they are not part
    of this predicate.
   */
  predicate Valid(s: Store)
  {
    && s.nextPlayerId >= 1 && s.nextSessionId >= 1 && s.nextHighscoreId >= 1 && s.nextSettingId >= 1
    && UniqueIdsBelow(s.players, (p: Player) => p.id, s.nextPlayerId)
    && UniqueIdsBelow(s.sessions, (x: Session) => x.id, s.nextSessionId)
    && UniqueIdsBelow(s.highscores, (h: Highscore) => h.id, s.nextHighscoreId)
    && UniqueIdsBelow(s.settings, (t: Setting) => t.id, s.nextSettingId)
    && UniqueUsernames(s.players)
    && UniqueSettingNames(s.settings)
  }

  // ---- lookups shared by the operations ----

  predicate HasPlayerId(ps: seq<Player>, id: int)
  {
    exists i :: 0 <= i < |ps| && ps[i].id == id
  }

  predicate HasUsername(ps: seq<Player>, name: string)
  {
    exists i :: 0 <= i < |ps| && ps[i].username == name
  }

  predicate HasSettingName(ts: seq<Setting>, name: string)
  {
    exists i :: 0 <= i < |ts| && ts[i].name == name
  }

  /** The first player row with this id. */
  function PlayerById(ps: seq<Player>, id: int): (r: Option<Player>)
    ensures r.None? <==> !HasPlayerId(ps, id)
    ensures r.Some? ==> r.value in ps && r.value.id == id
  {
    Find(ps, (p: Player) => p.id == id)
  }

  /** The first player row with this username. */
  function PlayerByName(ps: seq<Player>, name: string): (r: Option<Player>)
    ensures r.None? <==> !HasUsername(ps, name)
    ensures r.Some? ==> r.value in ps && r.value.username == name
  {
    Find(ps, (p: Player) => p.username == name)
  }

  /** The first setting row with this name. */
  function SettingByName(ts: seq<Setting>, name: string): (r: Option<Setting>)
    ensures r.None? <==> !HasSettingName(ts, name)
    ensures r.Some? ==> r.value in ts && r.value.name == name
  {
    Find(ts, (t: Setting) => t.name == name)
  }
}
