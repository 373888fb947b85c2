/** A client of the driver: the refresh policy of smart_update seen over a sequence of
    updates, with the partial-refresh limit set to 2. */
module Scenario {
  import opened Images
  import opened Protocol
  import opened Driver

  ghost predicate Displayable(img: Image) {
    WellFormed(img) && PanelSized(img)
  }

  /** Display `a`, then update to `b`, to `b` again, to `c` and to `d`. The counter
      after each update that refreshes is 0, 1, 2 and then 0 again: once two partial
      refreshes have been made, the next update is a full one, whatever `d` is.
      Repeating `b` sends nothing. */
  method BurnInPolicy(normal: Lut, quick: Lut, a: Image, b: Image, c: Image, d: Image)
    returns (counts: seq<int>, repeatSentNothing: bool)
    requires Displayable(a) && Displayable(b) && Displayable(c) && Displayable(d)
    requires a != b && b != c
    ensures counts == [0, 1, 2, 0]
    ensures repeatSentNothing
  {
    var epd := new EPD(normal, quick, 2);
    var outcome := epd.DisplayFrame(a);
    var first := epd.partialRefreshCount;

    outcome := epd.SmartUpdate(b);
    var second := epd.partialRefreshCount;

    var before := epd.trace;
    outcome := epd.SmartUpdate(b);
    repeatSentNothing := epd.trace == before;

    outcome := epd.SmartUpdate(c);
    var third := epd.partialRefreshCount;

    outcome := epd.SmartUpdate(d);
    var fourth := epd.partialRefreshCount;
    counts := [first, second, third, fourth];
  }
}
