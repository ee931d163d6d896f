/**
  The menu shown after a game: a highlighted entry moved with the up and
  down arrow keys and chosen with Enter.
 */
module GameOverMenu {
  import Snake

  const Items: seq<string> := ["Play Again", "View Highscores", "Exit"]

  /** The key code curses reports for Enter. */
  const KeyEnter: int := 10

  /** What the menu does with a key: keep waiting with a highlighted entry, or leave. */
  datatype MenuStep =
    | Waiting(selected: int, showHighscores: bool)
    | PlayAgain
    | Exit

  predicate InMenu(selected: int)
  {
    0 <= selected < |Items|
  }

  /**
    One key press with entry `selected` highlighted. Up and down move the
    highlight when there is room; Enter acts on the highlighted entry (the
    highscore view returns to the same menu); any other key does nothing.
   */
  function MenuKey(selected: int, key: int): (r: MenuStep)
    requires InMenu(selected)
    ensures r.Waiting? ==> InMenu(r.selected)
    ensures r.Waiting? ==> -1 <= r.selected - selected <= 1
    ensures key == Snake.KeyUp ==> r == Waiting(if selected > 0 then selected - 1 else selected, false)
    ensures key == Snake.KeyDown ==> r == Waiting(if selected < |Items| - 1 then selected + 1 else selected, false)
    ensures r == PlayAgain <==> key == KeyEnter && Items[selected] == "Play Again"
    ensures r == Exit <==> key == KeyEnter && Items[selected] == "Exit"
    ensures r.Waiting? && r.showHighscores <==> key == KeyEnter && Items[selected] == "View Highscores"
    ensures key != Snake.KeyUp && key != Snake.KeyDown && key != KeyEnter ==> r == Waiting(selected, false)
  {
    if key == Snake.KeyUp && selected > 0 then Waiting(selected - 1, false)
    else if key == Snake.KeyDown && selected < |Items| - 1 then Waiting(selected + 1, false)
    else if key == KeyEnter then
      if Items[selected] == "Play Again" then PlayAgain
      else if Items[selected] == "View Highscores" then Waiting(selected, true)
      else if Items[selected] == "Exit" then Exit
      else Waiting(selected, false)
    else Waiting(selected, false)
  }

  /** The menu loop over a sequence of key presses, stopping when an entry leaves the menu. */
  function RunMenu(selected: int, keys: seq<int>): (r: MenuStep)
    requires InMenu(selected)
    ensures r.Waiting? ==> InMenu(r.selected) && !r.showHighscores
    ensures !r.Waiting? ==> KeyEnter in keys
    decreases |keys|
  {
    if |keys| == 0 then Waiting(selected, false)
    else
      match MenuKey(selected, keys[0])
      case Waiting(next, _) =>
        var r := RunMenu(next, keys[1..]);
        assert !r.Waiting? ==> KeyEnter in keys by {
          if !r.Waiting? {
            var i :| 0 <= i < |keys[1..]| && keys[1..][i] == KeyEnter;
            assert keys[i + 1] == KeyEnter;
          }
        }
        r
      case other => other
  }

  /**
    The menu loop reads keys one at a time: running it over `keys` and then
    over `later` is running it over both, and once an entry has left the
    menu the keys after it are never read.
   */
  lemma {:induction false} RunMenuAppend(selected: int, keys: seq<int>, later: seq<int>)
    requires InMenu(selected)
    ensures RunMenu(selected, keys + later) == match RunMenu(selected, keys)
                                                case Waiting(next, _) => RunMenu(next, later)
                                                case other => other
    decreases |keys|
  {
    if |keys| > 0 {
      assert (keys + later)[0] == keys[0] && (keys + later)[1..] == keys[1..] + later;
      match MenuKey(selected, keys[0])
      case Waiting(next, _) => RunMenuAppend(next, keys[1..], later);
      case _ =>
    } else {
      assert keys + later == later;
    }
  }

  /** Pressing down as often as there are entries lands on the last entry, "Exit". */
  lemma {:induction false} DownReachesExit(selected: int, n: nat)
    requires InMenu(selected)
    requires n >= |Items| - 1 - selected
    ensures RunMenu(selected, seq(n, _ => Snake.KeyDown)) == Waiting(|Items| - 1, false)
    ensures Items[|Items| - 1] == "Exit"
    decreases n
  {
    var keys := seq(n, _ => Snake.KeyDown);
    if n > 0 {
      var next := if selected < |Items| - 1 then selected + 1 else selected;
      assert keys[1..] == seq(n - 1, _ => Snake.KeyDown);
      DownReachesExit(next, n - 1);
    }
  }
}
