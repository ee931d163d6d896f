/**
  Writing text to the terminal: a write outside the screen is dropped, and
  text that would run past the right edge is cut short.
 */
module Screen {
  import opened Wrappers

  /**
    The text `safe_addstr` hands to curses for a screen of `height` rows and
    `width` columns, or `None` when the start position is off screen and
    nothing is written. One column is kept free at the right edge.
   */
  function SafeAddstr(height: int, width: int, y: int, x: int, s: string): (r: Option<string>)
    ensures r.Some? <==> 0 <= y < height && 0 <= x < width
    ensures r.Some? ==> r.value <= s
    ensures r.Some? ==> |r.value| <= width - x - 1
    ensures r.Some? && |s| <= width - x - 1 ==> r.value == s
  {
    if 0 <= y < height && 0 <= x < width then
      var maxLen := width - x - 1;
      Some(if |s| > maxLen then s[..maxLen] else s)
    else
      None
  }

  /** Clipping keeps as much of the text as fits: nothing longer that fits is also a prefix. */
  lemma ClipIsLongestFit(height: int, width: int, y: int, x: int, s: string, t: string)
    requires 0 <= y < height && 0 <= x < width
    requires t <= s && |t| <= width - x - 1
    ensures |t| <= |SafeAddstr(height, width, y, x, s).value|
  {
  }
}
