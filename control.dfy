/**
 * The decisions of `MajsoulGame` (main.py) for one iteration of its loop,
 * stated as functions of the persistent state and of what was perceived.
 * Each handler yields an `Outcome`: the new state, the calls it makes on
 * `MyClick` in order, and its boolean answer. The class in game.dfy is
 * proved to do exactly this.
 */
module Control {
  import opened Wrappers
  import opened Geometry
  import opened Keywords
  import Pointer

  /** A call on `MyClick`: `click(box)` presses at the centre, `click(box, click=False)` only moves there. */
  datatype Action = Click(box: Box) | Move(box: Box)

  /** The settings the game reads from its environment. */
  datatype Config = Config(maxQueueTime: int, maxWaitTime: int, matchRank: string, autoContinue: bool)

  /** The five fields of `MajsoulGame` that persist between iterations. */
  datatype Ctl = Ctl(waiting: bool, queuing: bool, waitTime: Option<int>, queueTime: Option<int>, greenCount: int)

  /** The state after `__init__`. */
  const Initial: Ctl := Ctl(false, false, None, None, 0)

  /**
   * What every iteration keeps: a timer is set whenever its flag is (so the
   * elapsed-time tests never meet `None`), and the side-panel counter stays
   * within 0..8 (it only grows while below 5, by at most 4 per call).
   */
  predicate Inv(c: Ctl) {
    (c.queuing ==> c.queueTime.Some?) && (c.waiting ==> c.waitTime.Some?) && 0 <= c.greenCount <= 8
  }

  /** What a handler leaves behind. */
  datatype Outcome = Outcome(ctl: Ctl, actions: seq<Action>, done: bool)

  /** Everything the detector reported about one screenshot. */
  datatype View = View(tiles: seq<string>, tileBoxes: seq<Box>, buttons: seq<string>, buttonBoxes: seq<Box>, markers: Markers)

  predicate WellFormed(v: View) {
    |v.tileBoxes| == |v.tiles| && |v.buttonBoxes| == |v.buttons|
  }

  /** The strategy's answer for a full hand: a tile to discard and a button to press, either possibly absent or empty. */
  datatype Choice = Choice(tile: Option<string>, button: Option<string>)

  datatype Phase = Matching | GameEnd | Playing

  const ThreePEast: string := "3p-east"
  const MatchButton: string := "match"
  const Silver: string := "silver"
  const Tiaoguo: string := "tiaoguo"
  /** Buttons clicked as soon as one shows, in this order. */
  const SimpleButtons: seq<string> := ["zimo", "he", "babei"]
  /** A call offer (chi, peng, gang) ... */
  const CallButtons: seq<string> := ["chi", "peng", "gang"]
  /** ... is declined unless one of these also shows. */
  const CallBlockers: seq<string> := ["lizhi", "babei"]
  /** The bands of the side panel that are tried, out of five. */
  const SideBands: seq<int> := [0, 1, 2, 4]
  /** The side panel is not looked at once this many bands were seen pressed in a row. */
  const GreenLimit: int := 5
  /** The clicks on the centre when the game has waited too long. */
  const RecoveryClicks: nat := 7

  /** The box `(0, 0, w, h)` of the window's size: its centre, once the origin is added, is the window's centre. */
  function Center(window: Box): Box {
    Box(0, 0, window.x1 - window.x0, window.y1 - window.y0)
  }

  /**
   * What the middle-of-window box is for: aimed at by its centre from the
   * window's top-left corner, it is the middle of the window, and inside it.
   */
  lemma CenterTarget(window: Box)
    ensures var p := Pointer.Target(Center(window), true, Pointer.Point(window.x0, window.y0));
            p == Pointer.Point(window.x0 + (window.x1 - window.x0) / 2, window.y0 + (window.y1 - window.y0) / 2)
            && (Ordered(window) ==> window.x0 <= p.x <= window.x1 && window.y0 <= p.y <= window.y1)
  {
  }

  /** `list.index`: the first position holding `x`. */
  function IndexOf<T(==)>(xs: seq<T>, x: T): (i: nat)
    requires x in xs
    ensures i < |xs| && xs[i] == x
    ensures forall j :: 0 <= j < i ==> xs[j] != x
  {
    if xs[0] == x then 0 else 1 + IndexOf(xs[1..], x)
  }

  /** The first of `names` that is among the buttons, trying them in order. */
  function FirstPresent(buttons: seq<string>, names: seq<string>): (r: Option<string>)
    ensures r.None? <==> forall k :: 0 <= k < |names| ==> names[k] !in buttons
    ensures r.Some? ==> r.value in buttons
    ensures r.Some? ==> exists k :: 0 <= k < |names| && names[k] == r.value
                                    && forall j :: 0 <= j < k ==> names[j] !in buttons
  {
    if |names| == 0 then None
    else if names[0] in buttons then Some(names[0])
    else
      var r := FirstPresent(buttons, names[1..]);
      assert r.Some? ==> exists k :: 0 <= k < |names| && names[k] == r.value
                                     && forall j :: 0 <= j < k ==> names[j] !in buttons by {
        if r.Some? {
          var k :| 0 <= k < |names| - 1 && names[1..][k] == r.value
                   && forall j :: 0 <= j < k ==> names[1..][j] !in buttons;
          assert names[k + 1] == r.value;
          assert forall j :: 0 <= j < k + 1 ==> names[j] !in buttons by {
            forall j | 0 < j < k + 1 ensures names[j] !in buttons {
              assert names[j] == names[1..][j - 1];
            }
          }
        }
      }
      r
  }

  /** At a name present after absent ones, `FirstPresent` stops. */
  lemma {:induction false} FirstPresentAt(buttons: seq<string>, names: seq<string>, i: nat)
    requires i < |names| && names[i] in buttons
    requires forall j :: 0 <= j < i ==> names[j] !in buttons
    ensures FirstPresent(buttons, names) == Some(names[i])
  {
    if i > 0 {
      assert names[1..][i - 1] == names[i];
      forall j | 0 <= j < i - 1 ensures names[1..][j] !in buttons {
        assert names[1..][j] == names[j + 1];
      }
      FirstPresentAt(buttons, names[1..], i - 1);
    }
  }

  /** Whether any of `names` is among the buttons. */
  predicate AnyPresent(buttons: seq<string>, names: seq<string>) {
    exists k :: 0 <= k < |names| && names[k] in buttons
  }

  /** A strategy answer counts when it is neither `None` nor the empty string. */
  predicate Truthy(o: Option<string>) {
    o.Some? && o.value != ""
  }

  /** `click_if_exists`: a click on the box at the name's first position, when the name is present. */
  function Press(buttons: seq<string>, name: string, boxes: seq<Box>): (acts: seq<Action>)
    requires |boxes| == |buttons|
    ensures |acts| <= 1
    ensures acts != [] <==> name in buttons
    ensures acts != [] ==> exists i :: 0 <= i < |buttons| && buttons[i] == name
                                       && (forall j :: 0 <= j < i ==> buttons[j] != name)
                                       && acts == [Click(boxes[i])]
  {
    if name in buttons then [Click(boxes[IndexOf(buttons, name)])] else []
  }

  /** The phase of a frame: the lobby's buttons first, then the end-of-game keywords. */
  function Classify(buttons: seq<string>, markers: Markers): (p: Phase)
    ensures p == Matching <==> ThreePEast in buttons || MatchButton in buttons || Silver in buttons
    ensures p == GameEnd <==> p != Matching && (markers.zhongju.Some? || markers.queren.Some?)
    ensures p == Playing <==> p != Matching && p != GameEnd
  {
    if ThreePEast in buttons || MatchButton in buttons || Silver in buttons then Matching
    else if markers.zhongju.Some? || markers.queren.Some? then GameEnd
    else Playing
  }

  /** `handle_matching`. */
  function MatchingStep(cfg: Config, c: Ctl, buttons: seq<string>, boxes: seq<Box>, now: int): (o: Outcome)
    requires Inv(c) && |boxes| == |buttons|
    ensures forall k :: 0 <= k < |o.actions| ==> o.actions[k].Click?
  {
    var c1 := c.(waiting := false);
    if c.queuing && now - c.queueTime.value < cfg.maxQueueTime then Outcome(c1, [], true)
    else if ThreePEast in buttons then
      Outcome(c1.(queuing := true, queueTime := Some(now), greenCount := 0), Press(buttons, ThreePEast, boxes), false)
    else if MatchButton in buttons then Outcome(c1, Press(buttons, MatchButton, boxes), false)
    else Outcome(c1, Press(buttons, cfg.matchRank, boxes), false)
  }

  /** The lobby buttons in the order they are tried. */
  function LobbyOrder(cfg: Config): seq<string> {
    [ThreePEast, MatchButton, cfg.matchRank]
  }

  /**
   * The matching handler always clears `waiting`. While a queue started less
   * than the queue limit ago it clicks nothing and cuts the iteration short;
   * otherwise it clicks the first present of '3p-east', 'match' and the
   * configured rank, at most once, and only the '3p-east' click (re)starts
   * the queue timer and resets the side-panel counter.
   */
  lemma MatchingOutcome(cfg: Config, c: Ctl, buttons: seq<string>, boxes: seq<Box>, now: int)
    requires Inv(c) && |boxes| == |buttons|
    ensures var o := MatchingStep(cfg, c, buttons, boxes, now);
            var queued := c.queuing && now - c.queueTime.value < cfg.maxQueueTime;
            var pick := FirstPresent(buttons, LobbyOrder(cfg));
            !o.ctl.waiting
            && o.done == queued
            && (queued ==> o.actions == [] && o.ctl == c.(waiting := false))
            && (!queued ==> o.actions == (if pick.None? then [] else [Click(boxes[IndexOf(buttons, pick.value)])]))
            && (!queued && pick == Some(ThreePEast) ==>
                  o.ctl == c.(waiting := false, queuing := true, queueTime := Some(now), greenCount := 0))
            && (!queued && pick != Some(ThreePEast) ==> o.ctl == c.(waiting := false))
  {
    LobbyPick(cfg, buttons);
  }

  /** The first present lobby button, spelled out case by case. */
  lemma LobbyPick(cfg: Config, buttons: seq<string>)
    ensures FirstPresent(buttons, LobbyOrder(cfg))
            == if ThreePEast in buttons then Some(ThreePEast)
               else if MatchButton in buttons then Some(MatchButton)
               else if cfg.matchRank in buttons then Some(cfg.matchRank)
               else None
  {
    var order := LobbyOrder(cfg);
    if ThreePEast in buttons {
      FirstPresentAt(buttons, order, 0);
    } else if MatchButton in buttons {
      FirstPresentAt(buttons, order, 1);
    } else if cfg.matchRank in buttons {
      FirstPresentAt(buttons, order, 2);
    }
  }

  /** The box the end-of-game handler clicks. */
  function EndTarget(cfg: Config, m: Markers, window: Box): (b: Box)
    ensures (m.queren.Some? && b == m.queren.value)
            || (m.zailaiyichang.Some? && cfg.autoContinue && b == m.zailaiyichang.value)
            || b == Center(window)
    ensures m.queren.None? && (m.zailaiyichang.None? || !cfg.autoContinue) ==> b == Center(window)
  {
    if m.twoQueren && m.queren.Some? then m.queren.value
    else if m.zailaiyichang.Some? && cfg.autoContinue then m.zailaiyichang.value
    else if m.queren.Some? then m.queren.value
    else Center(window)
  }

  /** `handle_game_end`. */
  function GameEndStep(cfg: Config, c: Ctl, m: Markers, window: Box): (o: Outcome)
    ensures o.actions == [Click(EndTarget(cfg, m, window))]
    ensures !o.ctl.waiting && !o.ctl.queuing
  {
    Outcome(c.(waiting := false, queuing := false), [Click(EndTarget(cfg, m, window))], false)
  }

  /**
   * The end-of-game click: a duplicated confirm goes to the left-most
   * confirm; else the restart text when continuing automatically; else the
   * confirm; else the middle of the window (a reward screen).
   */
  lemma EndTargetPriority(cfg: Config, m: Markers, window: Box)
    ensures m.twoQueren && m.queren.Some? ==> EndTarget(cfg, m, window) == m.queren.value
    ensures !(m.twoQueren && m.queren.Some?) && m.zailaiyichang.Some? && cfg.autoContinue
            ==> EndTarget(cfg, m, window) == m.zailaiyichang.value
    ensures m.queren.Some? && (m.zailaiyichang.None? || !cfg.autoContinue)
            ==> EndTarget(cfg, m, window) == m.queren.value
    ensures m.queren.None? && (m.zailaiyichang.None? || !cfg.autoContinue)
            ==> EndTarget(cfg, m, window) == Center(window)
  {
  }

  /** The `x`-th of five equal horizontal bands of the side panel. */
  function BandBox(panel: Box, x: int): Box {
    var h := (panel.y1 - panel.y0) / 5;
    Box(panel.x0, panel.y0 + x * h, panel.x1, panel.y0 + (x + 1) * h)
  }

  /** The tried bands lie inside the panel, one fifth of its height (rounded down) each. */
  lemma BandsInsidePanel(panel: Box, x: int)
    requires Ordered(panel) && x in SideBands
    ensures var b := BandBox(panel, x);
            b.x0 == panel.x0 && b.x1 == panel.x1
            && b.y1 - b.y0 == (panel.y1 - panel.y0) / 5
            && panel.y0 <= b.y0 <= b.y1 <= panel.y1
  {
    var h := (panel.y1 - panel.y0) / 5;
    assert 0 <= h && 5 * h <= panel.y1 - panel.y0;
    assert x == 0 || x == 1 || x == 2 || x == 4;
  }

  /** The clicks of the side-panel loop over `bands`: one per band not seen pressed, in order. */
  function SideClicks(panel: Box, isGreen: Box -> bool, bands: seq<int>): (acts: seq<Action>)
    ensures |acts| <= |bands|
    ensures forall k :: 0 <= k < |acts| ==> acts[k].Click?
  {
    if |bands| == 0 then []
    else
      var band := BandBox(panel, bands[|bands| - 1]);
      SideClicks(panel, isGreen, bands[..|bands| - 1]) + (if isGreen(band) then [] else [Click(band)])
  }

  /** `green_count` after the loop over `bands`, starting from `g`: reset by an unpressed band, raised by a pressed one. */
  function CountAfter(g: int, panel: Box, isGreen: Box -> bool, bands: seq<int>): int {
    if |bands| == 0 then g
    else if isGreen(BandBox(panel, bands[|bands| - 1])) then CountAfter(g, panel, isGreen, bands[..|bands| - 1]) + 1
    else 0
  }

  /** One more band of the loop: the counter and the clicks after a prefix of `bands` one longer. */
  lemma SideBandStep(g: int, panel: Box, isGreen: Box -> bool, bands: seq<int>, k: nat)
    requires k < |bands|
    ensures var band := BandBox(panel, bands[k]);
            CountAfter(g, panel, isGreen, bands[..k + 1])
              == (if isGreen(band) then CountAfter(g, panel, isGreen, bands[..k]) + 1 else 0)
            && SideClicks(panel, isGreen, bands[..k + 1])
              == SideClicks(panel, isGreen, bands[..k]) + (if isGreen(band) then [] else [Click(band)])
  {
    assert bands[..k + 1][..k] == bands[..k];
  }

  predicate Pressed(panel: Box, isGreen: Box -> bool, x: int) {
    isGreen(BandBox(panel, x))
  }

  /** When every band was pressed, the counter ends at its start plus their number. */
  lemma {:induction false} CounterAllPressed(g: int, panel: Box, isGreen: Box -> bool, bands: seq<int>)
    requires forall k :: 0 <= k < |bands| ==> Pressed(panel, isGreen, bands[k])
    ensures CountAfter(g, panel, isGreen, bands) == g + |bands|
  {
    if |bands| > 0 {
      var init := bands[..|bands| - 1];
      assert forall k :: 0 <= k < |init| ==> init[k] == bands[k];
      CounterAllPressed(g, panel, isGreen, init);
    }
  }

  /** Otherwise it ends as the number of pressed bands after the last unpressed one, `k`. */
  lemma {:induction false} CounterTrailing(g: int, panel: Box, isGreen: Box -> bool, bands: seq<int>, k: nat)
    requires k < |bands| && !Pressed(panel, isGreen, bands[k])
    requires forall j :: k < j < |bands| ==> Pressed(panel, isGreen, bands[j])
    ensures CountAfter(g, panel, isGreen, bands) == |bands| - 1 - k
  {
    if k < |bands| - 1 {
      var init := bands[..|bands| - 1];
      assert forall j :: 0 <= j < |init| ==> init[j] == bands[j];
      CounterTrailing(g, panel, isGreen, init, k);
    }
  }

  /** So the counter never goes below zero and grows by at most one per band. */
  lemma {:induction false} CounterBounds(g: int, panel: Box, isGreen: Box -> bool, bands: seq<int>)
    requires 0 <= g
    ensures 0 <= CountAfter(g, panel, isGreen, bands) <= g + |bands|
  {
    if |bands| > 0 {
      CounterBounds(g, panel, isGreen, bands[..|bands| - 1]);
    }
  }

  /** The side panel's clicks are exactly its unpressed bands: none when all are pressed, all when none is. */
  lemma SideClicksUnpressed(panel: Box, isGreen: Box -> bool, bands: seq<int>)
    ensures forall a :: a in SideClicks(panel, isGreen, bands) ==>
              exists k :: 0 <= k < |bands| && !Pressed(panel, isGreen, bands[k]) && a == Click(BandBox(panel, bands[k]))
    ensures forall k :: 0 <= k < |bands| && !Pressed(panel, isGreen, bands[k]) ==>
              Click(BandBox(panel, bands[k])) in SideClicks(panel, isGreen, bands)
    ensures (forall k :: 0 <= k < |bands| ==> Pressed(panel, isGreen, bands[k])) ==> SideClicks(panel, isGreen, bands) == []
    ensures (forall k :: 0 <= k < |bands| ==> !Pressed(panel, isGreen, bands[k]))
            ==> SideClicks(panel, isGreen, bands) == seq(|bands|, k requires 0 <= k < |bands| => Click(BandBox(panel, bands[k])))
  {
    ClicksOnUnpressed(panel, isGreen, bands);
    UnpressedClicked(panel, isGreen, bands);
  }

  /** Every click of the side panel is on a band not seen pressed; none when all are, every band when none is. */
  lemma {:induction false} ClicksOnUnpressed(panel: Box, isGreen: Box -> bool, bands: seq<int>)
    ensures forall a :: a in SideClicks(panel, isGreen, bands) ==>
              exists k :: 0 <= k < |bands| && !Pressed(panel, isGreen, bands[k]) && a == Click(BandBox(panel, bands[k]))
    ensures (forall k :: 0 <= k < |bands| ==> Pressed(panel, isGreen, bands[k])) ==> SideClicks(panel, isGreen, bands) == []
    ensures (forall k :: 0 <= k < |bands| ==> !Pressed(panel, isGreen, bands[k]))
            ==> SideClicks(panel, isGreen, bands) == seq(|bands|, k requires 0 <= k < |bands| => Click(BandBox(panel, bands[k])))
  {
    if |bands| > 0 {
      var n := |bands| - 1;
      var init := bands[..n];
      ClicksOnUnpressed(panel, isGreen, init);
      assert forall k :: 0 <= k < n ==> init[k] == bands[k];
    }
  }

  /** Every band not seen pressed is clicked. */
  lemma {:induction false} UnpressedClicked(panel: Box, isGreen: Box -> bool, bands: seq<int>)
    ensures forall k :: 0 <= k < |bands| && !Pressed(panel, isGreen, bands[k]) ==>
              Click(BandBox(panel, bands[k])) in SideClicks(panel, isGreen, bands)
  {
    if |bands| > 0 {
      var n := |bands| - 1;
      var init := bands[..n];
      UnpressedClicked(panel, isGreen, init);
      var front := SideClicks(panel, isGreen, init);
      assert SideClicks(panel, isGreen, bands) == front + (if Pressed(panel, isGreen, bands[n]) then [] else [Click(BandBox(panel, bands[n]))]);
      forall k | 0 <= k < |bands| && !Pressed(panel, isGreen, bands[k])
        ensures Click(BandBox(panel, bands[k])) in SideClicks(panel, isGreen, bands)
      {
        if k < n {
          assert init[k] == bands[k];
        }
      }
    }
  }

  /** `handle_side_buttons`: the panel is tried only when its keyword was read and fewer than five bands were seen pressed in a row. */
  function SideStep(c: Ctl, m: Markers, isGreen: Box -> bool): (o: Outcome)
    ensures forall k :: 0 <= k < |o.actions| ==> o.actions[k].Click?
    ensures o.ctl.waiting == c.waiting && o.ctl.queuing == c.queuing
    ensures o.ctl.waitTime == c.waitTime && o.ctl.queueTime == c.queueTime
  {
    if m.lhmqb.None? || c.greenCount >= GreenLimit then Outcome(c, [], false)
    else
      var panel := m.lhmqb.value;
      Outcome(c.(greenCount := CountAfter(c.greenCount, panel, isGreen, SideBands)), SideClicks(panel, isGreen, SideBands), false)
  }

  /** The counter stays within 0..8: below five it gains at most four. */
  lemma SideKeepsCounter(c: Ctl, m: Markers, isGreen: Box -> bool)
    requires Inv(c)
    ensures Inv(SideStep(c, m, isGreen).ctl)
    ensures m.lhmqb.None? || c.greenCount >= GreenLimit ==> SideStep(c, m, isGreen) == Outcome(c, [], false)
  {
    if m.lhmqb.Some? && c.greenCount < GreenLimit {
      CounterBounds(c.greenCount, m.lhmqb.value, isGreen, SideBands);
    }
  }

  /** The clicks for the strategy's answer: its button if shown; its tile twice, then the centre, if held. */
  function ChoiceClicks(v: View, choice: Choice, window: Box): (acts: seq<Action>)
    requires WellFormed(v)
    ensures forall k :: 0 <= k < |acts| ==> acts[k].Click?
    ensures var pressed := Truthy(choice.button) && choice.button.value in v.buttons;
            var played := Truthy(choice.tile) && choice.tile.value in v.tiles;
            |acts| == (if pressed then 1 else 0) + (if played then 3 else 0)
            && (pressed ==> acts[0] == Click(v.buttonBoxes[IndexOf(v.buttons, choice.button.value)]))
  {
    var buttonPart := if Truthy(choice.button) && choice.button.value in v.buttons
                      then [Click(v.buttonBoxes[IndexOf(v.buttons, choice.button.value)])] else [];
    var tilePart := if Truthy(choice.tile) && choice.tile.value in v.tiles
                    then var b := v.tileBoxes[IndexOf(v.tiles, choice.tile.value)]; [Click(b), Click(b), Click(Center(window))]
                    else [];
    buttonPart + tilePart
  }

  /** `handle_game_buttons`. */
  function GameButtonsStep(c: Ctl, v: View, choice: Choice, window: Box): (o: Outcome)
    requires WellFormed(v)
    ensures forall k :: 0 <= k < |o.actions| ==> o.actions[k].Click?
    ensures o.ctl == c.(waiting := false)
  {
    var c1 := c.(waiting := false);
    var simple := FirstPresent(v.buttons, SimpleButtons);
    if simple.Some? then Outcome(c1, Press(v.buttons, simple.value, v.buttonBoxes), true)
    else if AnyPresent(v.buttons, CallButtons) && !AnyPresent(v.buttons, CallBlockers) then
      Outcome(c1, Press(v.buttons, Tiaoguo, v.buttonBoxes), true)
    else if |v.tiles| == 14 then Outcome(c1, ChoiceClicks(v, choice, window), true)
    else Outcome(c1, [], false)
  }

  /**
   * The in-game rules: an agari or kita button is clicked alone, first
   * present of 'zimo', 'he', 'babei'; a call offer without riichi or kita is
   * declined through 'tiaoguo' when shown; a full hand of 14 plays the
   * strategy's answer and counts as handled even when nothing was clicked;
   * anything else is not handled.
   */
  lemma GameButtonsOutcome(c: Ctl, v: View, choice: Choice, window: Box)
    requires WellFormed(v)
    ensures var o := GameButtonsStep(c, v, choice, window);
            var simple := FirstPresent(v.buttons, SimpleButtons);
            var call := AnyPresent(v.buttons, CallButtons) && !AnyPresent(v.buttons, CallBlockers);
            (simple.Some? ==> o.done && |o.actions| == 1
                              && o.actions[0] == Click(v.buttonBoxes[IndexOf(v.buttons, simple.value)]))
            && (simple.None? && call ==> o.done && o.actions == Press(v.buttons, Tiaoguo, v.buttonBoxes))
            && (simple.None? && !call ==> (o.done <==> |v.tiles| == 14))
            && (simple.None? && !call && |v.tiles| == 14 ==> o.actions == ChoiceClicks(v, choice, window))
            && (!o.done ==> o.actions == [])
  {
  }

  /** The strategy's tile, when held, is clicked twice on its first box and the pointer then goes back to the centre. */
  lemma ChoicePlaysTile(v: View, choice: Choice, window: Box)
    requires WellFormed(v)
    requires Truthy(choice.tile) && choice.tile.value in v.tiles
    ensures var acts := ChoiceClicks(v, choice, window);
            exists i :: 0 <= i < |v.tiles| && v.tiles[i] == choice.tile.value
                        && (forall j :: 0 <= j < i ==> v.tiles[j] != choice.tile.value)
                        && acts[|acts| - 3..] == [Click(v.tileBoxes[i]), Click(v.tileBoxes[i]), Click(Center(window))]
  {
    var i := IndexOf(v.tiles, choice.tile.value);
    var acts := ChoiceClicks(v, choice, window);
    assert acts[|acts| - 3..] == [Click(v.tileBoxes[i]), Click(v.tileBoxes[i]), Click(Center(window))];
  }

  /** `n` copies of one action. */
  function Repeat(a: Action, n: nat): (r: seq<Action>)
    ensures |r| == n
    ensures forall k :: 0 <= k < n ==> r[k] == a
  {
    if n == 0 then [] else Repeat(a, n - 1) + [a]
  }

  /** The wait timer of `run`, used when the in-game handler did nothing. */
  function WaitStep(cfg: Config, c: Ctl, window: Box, now: int): (o: Outcome)
    requires Inv(c)
    ensures forall k :: 0 <= k < |o.actions| ==> o.actions[k].Click?
  {
    if !c.waiting then Outcome(c.(waiting := true, waitTime := Some(now)), [], false)
    else if now - c.waitTime.value > cfg.maxWaitTime then
      Outcome(c.(waiting := false), Repeat(Click(Center(window)), RecoveryClicks), false)
    else Outcome(c, [], false)
  }

  /**
   * The timer starts when waiting begins; once it has run longer than the
   * wait limit, waiting ends with seven clicks on the middle of the window;
   * in between nothing happens. It never touches the queue or the counter.
   */
  lemma WaitOutcome(cfg: Config, c: Ctl, window: Box, now: int)
    requires Inv(c)
    ensures var o := WaitStep(cfg, c, window, now);
            (!c.waiting ==> o.ctl.waiting && o.ctl.waitTime == Some(now) && o.actions == [])
            && (c.waiting && now - c.waitTime.value > cfg.maxWaitTime ==>
                  !o.ctl.waiting && |o.actions| == RecoveryClicks
                  && forall k :: 0 <= k < |o.actions| ==> o.actions[k] == Click(Center(window)))
            && (c.waiting && now - c.waitTime.value <= cfg.maxWaitTime ==> o.ctl == c && o.actions == [])
            && o.ctl.queuing == c.queuing && o.ctl.queueTime == c.queueTime && o.ctl.greenCount == c.greenCount
  {
  }

  /**
   * One iteration of `run` on a window that was found. `done` is set when it
   * was cut short by the matching handler's `continue`; otherwise the
   * pointer is finally moved, without a click, to the window's centre.
   */
  function TickStep(cfg: Config, c: Ctl, window: Box, v: View, choice: Choice, isGreen: Box -> bool, now: int): (o: Outcome)
    requires Inv(c) && WellFormed(v)
    ensures Inv(o.ctl)
    ensures o.done <==> Classify(v.buttons, v.markers) == Matching
                        && c.queuing && now - c.queueTime.value < cfg.maxQueueTime
    ensures o.done ==> o.actions == []
    ensures !o.done ==> |o.actions| > 0 && o.actions[|o.actions| - 1] == Move(Center(window))
                        && forall k :: 0 <= k < |o.actions| - 1 ==> o.actions[k].Click?
  {
    var d := DispatchStep(cfg, c, window, v, choice, isGreen, now);
    if d.done then d else Outcome(d.ctl, d.actions + [Move(Center(window))], false)
  }

  /** The handler `run` picks for the frame; `done` when the matching handler asked to skip the rest. */
  function DispatchStep(cfg: Config, c: Ctl, window: Box, v: View, choice: Choice, isGreen: Box -> bool, now: int): (o: Outcome)
    requires Inv(c) && WellFormed(v)
    ensures Inv(o.ctl)
    ensures forall k :: 0 <= k < |o.actions| ==> o.actions[k].Click?
  {
    match Classify(v.buttons, v.markers)
    case Matching => MatchingStep(cfg, c, v.buttons, v.buttonBoxes, now)
    case GameEnd =>
      var e := GameEndStep(cfg, c, v.markers, window);
      Outcome(e.ctl.(greenCount := 0), e.actions, false)
    case Playing =>
      var p := PlayingStep(cfg, c, window, v, choice, isGreen, now);
      Outcome(p.ctl, p.actions, false)
  }

  /**
   * The playing branch of `run`, before the final move: the side panel, the
   * in-game buttons and, when those did nothing, the wait timer, which sees
   * `waiting` as it was before the in-game handler cleared it. `done` tells
   * whether the in-game handler acted.
   */
  function PlayingStep(cfg: Config, c: Ctl, window: Box, v: View, choice: Choice, isGreen: Box -> bool, now: int): (o: Outcome)
    requires Inv(c) && WellFormed(v)
    ensures Inv(o.ctl)
    ensures forall k :: 0 <= k < |o.actions| ==> o.actions[k].Click?
  {
    var s := SideStep(c, v.markers, isGreen);
    SideKeepsCounter(c, v.markers, isGreen);
    var i := InGameStep(cfg, s.ctl, window, v, choice, now);
    Outcome(i.ctl, s.actions + i.actions, i.done)
  }

  /** The in-game handler and, when it did nothing, the wait timer on the `waiting` saved before the handler. */
  function InGameStep(cfg: Config, c: Ctl, window: Box, v: View, choice: Choice, now: int): (o: Outcome)
    requires Inv(c) && WellFormed(v)
    ensures Inv(o.ctl)
    ensures forall k :: 0 <= k < |o.actions| ==> o.actions[k].Click?
  {
    var g := GameButtonsStep(c, v, choice, window);
    if g.done then g
    else
      var w := WaitStep(cfg, g.ctl.(waiting := c.waiting), window, now);
      Outcome(w.ctl, g.actions + w.actions, false)
  }

  /** At the end of a game the state is reset: not waiting, not queuing, counter zero; one click, then the move home. */
  lemma GameEndTick(cfg: Config, c: Ctl, window: Box, v: View, choice: Choice, isGreen: Box -> bool, now: int)
    requires Inv(c) && WellFormed(v)
    requires Classify(v.buttons, v.markers) == GameEnd
    ensures var o := TickStep(cfg, c, window, v, choice, isGreen, now);
            o.actions == [Click(EndTarget(cfg, v.markers, window)), Move(Center(window))]
            && !o.ctl.waiting && !o.ctl.queuing && o.ctl.greenCount == 0
            && o.ctl.waitTime == c.waitTime && o.ctl.queueTime == c.queueTime
  {
  }

  /** In play, a handled frame leaves `waiting` cleared; an unhandled one hands the saved `waiting` to the timer. */
  lemma PlayingOutcome(cfg: Config, c: Ctl, window: Box, v: View, choice: Choice, isGreen: Box -> bool, now: int)
    requires Inv(c) && WellFormed(v)
    ensures var o := PlayingStep(cfg, c, window, v, choice, isGreen, now);
            var s := SideStep(c, v.markers, isGreen);
            var g := GameButtonsStep(s.ctl, v, choice, window);
            (g.done ==> !o.ctl.waiting && o.actions == s.actions + g.actions)
            && (!g.done ==> o.ctl == WaitStep(cfg, s.ctl, window, now).ctl
                            && o.actions == s.actions + WaitStep(cfg, s.ctl, window, now).actions)
  {
    var s := SideStep(c, v.markers, isGreen);
    var g := GameButtonsStep(s.ctl, v, choice, window);
    SideKeepsCounter(c, v.markers, isGreen);
    assert g.ctl.(waiting := s.ctl.waiting) == s.ctl;
    GameButtonsOutcome(s.ctl, v, choice, window);
    if !g.done {
      assert g.actions + WaitStep(cfg, s.ctl, window, now).actions == WaitStep(cfg, s.ctl, window, now).actions;
    }
  }

  /** The gestures produced by a sequence of calls on `MyClick`, all aimed at box centres. */
  function Render(origin: Pointer.Point, hasPage: bool, actions: seq<Action>): (g: seq<Pointer.Gesture>)
    ensures |g| == if hasPage then |actions| else 0
    ensures hasPage ==> forall k :: 0 <= k < |actions| ==>
              [g[k]] == Pointer.Effect(origin, hasPage, actions[k].box, actions[k].Click?, true)
  {
    if hasPage then seq(|actions|, k requires 0 <= k < |actions| => Pointer.Gesture(Pointer.Target(actions[k].box, true, origin), actions[k].Click?))
    else []
  }

  /**
   * What a tick does to the page's mouse once the origin is the window's
   * top-left corner: one gesture per call, each aimed at its box's centre;
   * unless the tick was cut short, every gesture presses except the last,
   * which only moves to the middle of the window.
   */
  lemma TickGestures(cfg: Config, c: Ctl, window: Box, v: View, choice: Choice, isGreen: Box -> bool, now: int)
    requires Inv(c) && WellFormed(v)
    ensures var o := TickStep(cfg, c, window, v, choice, isGreen, now);
            var origin := Pointer.Point(window.x0, window.y0);
            var g := Render(origin, true, o.actions);
            |g| == |o.actions|
            && (forall k :: 0 <= k < |g| ==> g[k].at == Pointer.Target(o.actions[k].box, true, origin))
            && (o.done ==> g == [])
            && (!o.done ==> g[|g| - 1] == Pointer.Gesture(Pointer.Point(window.x0 + (window.x1 - window.x0) / 2,
                                                                        window.y0 + (window.y1 - window.y0) / 2), false)
                            && forall k :: 0 <= k < |g| - 1 ==> g[k].press)
  {
  }
}
