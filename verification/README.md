# Snake game with SQLite persistence — a Dafny model

This project models the two pieces of logic that carry the behaviour of the
terminal Snake game:

* **The game tick** in `snake_game.py`. One tick reads a key and turns the
  snake, refusing a 180° reversal. It then moves the head one cell. Next it
  either eats the food, which scores `food_value`, grows the body and speeds
  up the tick timeout, or it drops the tail. Finally it checks for a wall or
  self collision. Also modelled: food placement inside the inner rectangle
  and off the snake, the cursor of the game-over menu, and the clipping done
  by `safe_addstr`.
* **The persistence layer** in `database_manager.py`, over an abstract store.
  The four SQLite tables (`players`, `game_sessions`, `highscores`,
  `game_settings`) are sequences of records in storage order, with one
  AUTOINCREMENT counter per table. Each method that writes is a pure
  function from a store to an `Outcome(value, store)`; each method that
  only reads is a pure function from a store to the value it returns.

Modules:

| file | module | content |
|---|---|---|
| wrappers.dfy | `Wrappers` | `Option` |
| seqs.dfy | `Seqs` | `Find` (SQL `fetchone` of a WHERE) and `Filter` (SQL `fetchall` of a WHERE) |
| sorting.dfy | `Sorting` | a stable descending sort (SQL `ORDER BY … DESC`) |
| snake.dfy | `Snake` | cells, directions, `Turn`, `Move`, `CreateFood`, `Timeout`, `Step`, `Start` |
| snake_properties.dfy | `SnakeProperties` | the game invariant `Healthy` and lemmas about ticks and runs of ticks |
| screen.dfy | `Screen` | `SafeAddstr` |
| menu.dfy | `GameOverMenu` | the game-over menu cursor |
| tables.dfy | `Tables` | the records, the store, and the uniqueness invariant `Valid` |
| players.dfy, sessions.dfy, highscores.dfy, settings.dfy | `Players`, `Sessions`, `Highscores`, `Settings` | the database methods |
| store_properties.dfy | `StoreProperties` | lemmas relating several calls |

Modelling choices that follow SQLite and Python semantics:

* Foreign keys are not enforced, because `connect` never turns on
  `PRAGMA foreign_keys`. Deleting a player therefore does not cascade (see
  Findings), and a session may name a player id that does not exist.
* `UPDATE`/`DELETE` row counts are the number of rows the `WHERE` matched.
* `LIMIT` with a negative count returns every row.
* Python truthiness is modelled where the code branches on it:
  * `if player_id:` treats id 0 like no id;
  * `elif username:` treats the empty name like no name;
  * `if description:` treats `None` and `""` alike;
  * `if date_played:` is modelled on `None` only.
* Python's `//` on a positive divisor is Dafny's `/` for every score,
  including negative ones.
* Dates are integers chosen by the caller, who also passes the value
  `CURRENT_TIMESTAMP` would take (`now`).

## Model

| member | source | states |
|---|---|---|
| Snake.Turn | snake_game.py:134-140 | a non-arrow key keeps the heading; the arrow opposite the heading keeps it; every other arrow becomes the heading |
| Snake.Move | snake_game.py:143-151 | the new head is adjacent to the old one, exactly one unit away in the heading's direction |
| Snake.Timeout | snake_game.py:161 | the timeout is never below 50; for scores from 0 it is at most 100; it is 100 for scores 0 to 49 and 50 from score 500 on |
| Snake.CreateFood | snake_game.py:187-193 | a placed food cell lies in rows 2..height-3 and columns 2..width-3 and is not on the snake; it is the first draw off the snake; no cell is placed exactly when every draw hits the snake |
| Snake.Step | snake_game.py:131-179 | the head is the moved old head, prepended; on food the body grows by one, the score rises by exactly the food value, new food is placed and the timeout recomputed; otherwise the tail is dropped and length, score, food and timeout stay; the game ends iff the head is on a wall line or on the remaining body; there is no result iff the head meets the food and every supplied draw lands on the grown body |
| Snake.Start | snake_game.py:85-99 | the first snake has its head at (height/2, width/4) and two cells trailing to the left, heads right, clear of the walls, with score 0, timeout 100 and food in the inner rectangle off the body; there is no result iff every supplied draw lands on those three cells |
| SnakeProperties.ReverseKeyIgnored | snake_game.py:134-140 | pressing the opposite arrow leaves the direction as it was, and the snake moves on in the old direction |
| SnakeProperties.CollisionAgainstOldBody | snake_game.py:153-179 | when no food is eaten, self collision means the new head is on one of the old cells except the old tail |
| SnakeProperties.TailChaseIsSafe | snake_game.py:163-179 | moving into the cell the tail just vacated is not a collision |
| SnakeProperties.RightWallEndsGame | snake_game.py:143-175 | heading right from column width-3 ends the game |
| SnakeProperties.EatingGrowsByOne | snake_game.py:157-166 | the body grows by exactly one iff the new head is on the food |
| SnakeProperties.TimeoutNonIncreasing | snake_game.py:161 | a higher score never gives a longer timeout |
| SnakeProperties.TimeoutStepsDown | snake_game.py:161 | below 500 points, each further 50 points take exactly 5 ms off the timeout |
| SnakeProperties.StartIsHealthy | snake_game.py:85-99 | the first game state on a board of at least 20×60 satisfies the game invariant |
| SnakeProperties.StepKeepsHealthy | snake_game.py:131-179 | a tick of a running game keeps the invariant: body connected, at least three cells, food in the inner rectangle and off the snake, score equal to food value times growth, timeout matching the score, and a running game has a distinct body clear of the walls |
| SnakeProperties.Run | snake_game.py:111-183 | the game loop over a sequence of ticks: the snake never becomes empty, and a game still running at the end is at least as long as at the start |
| SnakeProperties.RunKeepsHealthy | snake_game.py:111-179 | every run of ticks from an invariant state keeps the invariant, and with a non-negative food value the score never drops |
| Screen.SafeAddstr | snake_game.py:26-37 | text is drawn iff 0 ≤ y < height and 0 ≤ x < width; what is drawn is a prefix of the input of length at most width-x-1, and the whole input when it fits |
| Screen.ClipIsLongestFit | snake_game.py:32-34 | the clipped text is the longest prefix that fits |
| GameOverMenu.MenuKey | snake_game.py:279-295 | Up and Down move the cursor by one and stop at the ends; Enter returns the chosen action or shows the highscores; other keys change nothing |
| GameOverMenu.RunMenu | snake_game.py:265-295 | the menu loop over a sequence of key presses: while it still waits, the cursor is on an item and no highscore view is pending; it leaves the menu only after an Enter press |
| GameOverMenu.RunMenuAppend | snake_game.py:265-295 | the loop reads keys one at a time: running it over two key sequences in turn is running it over both, and keys after Play Again or Exit are never read |
| GameOverMenu.DownReachesExit | snake_game.py:261-282 | from any item, as many Down presses as there are entries below it land on "Exit" |
| Tables.EmptyStore | database_manager.py:46-105 | a freshly created database has empty tables and satisfies the uniqueness invariant |
| Players.AddPlayer | database_manager.py:109-132 | a taken username gives None and no change; otherwise the new row gets the next id and is the only change |
| Players.GetPlayer | database_manager.py:134-160 | a truthy id finds the player with that id, otherwise a non-empty name finds the player with that name, otherwise None |
| Players.UpdatePlayer | database_manager.py:179-203 | True iff a player has the id and no other player has the new name; then only that player's name changes; on False nothing changes |
| Players.DeletePlayer | database_manager.py:205-225 | True iff a player had the id; the player is removed, every other player row stays exactly as often as before, and the other tables are untouched |
| Players.DeletePlayerCascade | database_manager.py:62-87 | True iff a player had the id; that player's row, sessions and highscores are removed; every other row of those tables stays exactly as often as before; no row is added; settings and counters are unchanged |
| StoreProperties.AddPlayerThenGet | database_manager.py:119-157 | a registered player is found again by the returned id and by name, and no player in the table before the call had that id |
| StoreProperties.UpdatePlayerKeepsValid | database_manager.py:194-203 | a rename keeps ids and usernames unique |
| StoreProperties.DeletePlayerKeepsValid | database_manager.py:219-221 | both deletions keep ids and usernames unique |
| StoreProperties.DeletePlayerLeavesOrphans | database_manager.py:219-221 | deleting a player who played once leaves the player's session and highscore in place |
| StoreProperties.CascadeRemovesOnlyThatPlayer | database_manager.py:62-87 | after the cascading delete the player has no sessions or highscore, and every other player's are unchanged |
| Sessions.UpdateHighscore | database_manager.py:268-292 | a highscore row is appended iff the player has none yet or the score is strictly above the player's best; otherwise nothing changes |
| Sessions.AddGameSession | database_manager.py:229-266 | exactly one session row is appended, dated with the given date or now; highscores change as the promotion rule says; the returned id is the new session's; players, settings and their counters are untouched |
| Sessions.AddGameSessionAsWritten | database_manager.py:257-262 | the same store change, but the returned id is the last inserted row's, which is the highscore row when one was promoted |
| Sessions.GetGameSession | database_manager.py:294-313 | the session with that id, or None when there is none |
| Sessions.GetPlayerGameSessions | database_manager.py:315-336 | exactly the player's sessions, each as often as stored, newest play date first |
| Sessions.DeleteGameSession | database_manager.py:338-358 | True iff a session had the id; it is removed, every other session row stays exactly as often as before, and nothing else changes |
| StoreProperties.AddGameSessionThenGet | database_manager.py:246-262 | the id the corrected insert returns finds the new session |
| StoreProperties.LastRowIdNamesWrongSession | database_manager.py:257-262 | after scores 100 and 50, a score of 200 inserts session 3 but the call as written returns 2, the id of a different session |
| StoreProperties.AddGameSessionKeepsValid | database_manager.py:246-290 | a session insert keeps every id unique |
| StoreProperties.DeleteGameSessionKeepsValid | database_manager.py:352-354 | deleting a session keeps every id unique |
| StoreProperties.AddGameSessionKeepsLog | database_manager.py:259-290 | one insert keeps the log relation: each player's highscores strictly rise, each comes from a session, and each session is bounded by a highscore |
| StoreProperties.RecordAllKeepsLog | database_manager.py:229-290 | any sequence of inserts keeps the log relation, so every player's highscore log strictly rises |
| StoreProperties.BestHighscoreIsBestSession | database_manager.py:391-410 | under the log relation a player has a highscore iff the player has a session, and the best highscore is the best session score |
| StoreProperties.FreshDatabaseHighscores | database_manager.py:229-290 | from an empty database, after any sequence of inserts, logs strictly rise and each player's best highscore is the player's best session |
| StoreProperties.BestIsLatest | database_manager.py:405-410 | in a rising log the player's best row is the player's latest row |
| Highscores.Join | database_manager.py:378-380 | every row comes from a highscore with its player's username; the rows are exactly the highscores whose player exists, one row each, in storage order |
| Highscores.GetHighscores | database_manager.py:362-389 | at most `limit` rows (all for a negative limit), exactly min(limit, joined rows), sorted by score descending, drawn from the joined rows with multiplicity, and no joined row left out scores above a row returned |
| Highscores.GetTopHighscores | database_manager.py:362-386 | with the default limit of 10: min(10, joined rows) rows drawn from the join with multiplicity, sorted by score descending, and no joined row left out scores above a row returned |
| Highscores.GetPlayerHighscore | database_manager.py:391-413 | None iff the player has no highscore row; otherwise one of the player's rows with the highest score |
| StoreProperties.JoinIsInnerJoin | database_manager.py:376-386 | with unique player ids, a row is in the join iff its highscore is stored and its player exists with that username |
| StoreProperties.GetHighscoresIsTop | database_manager.py:376-386 | the joined rows left out score no higher than any row returned |
| Settings.AddSetting | database_manager.py:417-462 | an existing name keeps its id and row, takes the new value, and takes the description only when it is truthy; a new name appends one row under the next id |
| Settings.GetSetting | database_manager.py:464-483 | the setting with that name, or None when there is none |
| Settings.DeleteSetting | database_manager.py:502-522 | True iff a setting had the name; its rows are removed, every other setting row stays exactly as often as before, and nothing else changes |
| StoreProperties.AddSettingKeepsValid | database_manager.py:433-458 | the upsert never creates a second row with a name and keeps ids unique |
| StoreProperties.AddSettingThenGet | database_manager.py:433-458 | reading the setting back gives the new value under the returned id, with the description passed or, for an existing row with a non-truthy description, the old one |
| StoreProperties.DeleteSettingKeepsValid | database_manager.py:515-518 | deleting keeps the invariant and the name is gone afterwards |

## Left out

- Terminal I/O: curses rendering, `draw_border`, `safe_addch`, colour pairs, refresh and key polling. Keys are plain integers given to `Step`, and only the key-to-direction mapping is modelled.
- `check_terminal_size` and the resize handling (snake_game.py:39-55, 112-121). They are I/O-driven early exits. `Step` takes one fixed height and width, and `Start` requires the 20×60 minimum.
- `random.randint`: the food draws are a caller-supplied sequence of cells in the inner rectangle.
- Snake.CreateFood: the source loops until a draw misses the snake. The model returns None when the supplied draws run out, so it does not state that a free cell is eventually found.
- Snake.Step and Snake.Start: return None exactly when the food must be placed and every supplied draw lands on the snake, which the source cannot do since it keeps drawing.
- Sessions.AddGameSessionAsWritten: assumes Python 3.6 or later, where `cursor.lastrowid` after the SELECT in `_update_highscore` still holds the session's rowid. Older releases reset it to None after a statement that is not an INSERT, so on those the call without a promotion returns None; that behaviour is not modelled.
- `datetime` durations and `CURRENT_TIMESTAMP`: dates are integers supplied by the caller. The ordering of SQLite's date strings is taken to be integer order.
- The connection lifecycle (`connect`, `close`, `commit`, `rollback`), the `print` logging and `sqlite3.Error` handling. No operation has a storage-failure outcome. `add_player` fails only on a duplicate name, which the UNIQUE constraint rejects. `update_player` returns False when no row has the id (the UPDATE matches no row) or when the new name is taken (the UNIQUE constraint rejects it).
- The indexes created in `create_tables`: they affect speed only.
- `get_all_players` and `get_all_settings`: they return a table as stored, which is the store's own field.
- `load_game_settings` and `show_highscores` are not part of this model. They are called but not defined in snake_game.py. The food value is a parameter of `Step`.
- `show_login_menu` and the entry point (snake_game.py:57-66, 297-318).
- The bookkeeping in `show_game_over` that calls `add_game_session` and `get_player_highscore`: it is covered by the store lemmas, not as a screen.
- test_database.py: a demo script without assertions.
- Sessions.GetPlayerGameSessions and Highscores.GetHighscores: the order among rows with equal keys is left to storage order in the model. SQLite does not promise one, so no contract depends on it.
- Sessions.AddGameSession: a falsy `date_played` other than `None` (an empty string) is not modelled.
- The log relation between highscores and sessions (StoreProperties.LogTracksSessions) is proved for sequences of session inserts only. `delete_game_session` removes a session but not the highscore it produced, so after a delete the best highscore may exceed every remaining session.
- Usernames: the code does not reject the empty name (only `NOT NULL` is declared), so neither does the model.
- Integer widths: SQLite's 64-bit INTEGER range is not modelled; ids and scores are unbounded.

## Findings

| source | as written | input that shows it | evidently intended | confidence | as-written member | corrected member |
|---|---|---|---|---|---|---|
| database_manager.py:257-262 | `add_game_session` returns `cursor.lastrowid` after `_update_highscore` has run; when a highscore row was inserted, that is the highscore's id | player 1 scores 100, then 50, then 200: the third call inserts session 3 and returns 2, which is the id of the second session | return the id of the session just inserted | high (Python 3.6 or later, where `lastrowid` keeps the connection's last inserted rowid across a SELECT); not executed | Sessions.AddGameSessionAsWritten, StoreProperties.LastRowIdNamesWrongSession | Sessions.AddGameSession, StoreProperties.AddGameSessionThenGet |
| database_manager.py:205-225 | the schema declares `ON DELETE CASCADE` (lines 69, 85) but `connect` (lines 31-33) never enables foreign keys, so `delete_player` removes only the player row | register "ann", record one game scoring 10, delete player 1: the session stays and `get_player_highscore(1)` still returns the score 10 | deleting a player also deletes the player's sessions and highscores | medium (depends on SQLite's default of foreign keys off); not executed | Players.DeletePlayer, StoreProperties.DeletePlayerLeavesOrphans | Players.DeletePlayerCascade, StoreProperties.CascadeRemovesOnlyThatPlayer |
