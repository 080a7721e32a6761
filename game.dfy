/**
 * `MajsoulGame` (main.py): the five fields that persist between iterations,
 * the handlers that update them and click, and one iteration of `run`. The
 * detector's passes, the strategy's answer, the pressed-band test and the
 * clock are inputs of `Tick`. Every call on `MyClick` is also appended to
 * `log`, so each method's effect can be stated as the `Control` function it
 * implements.
 */
module Game {
  import opened Wrappers
  import opened Geometry
  import opened Keywords
  import Tiles
  import Buttons
  import Pointer
  import opened Control

  /** What the detector makes of one screenshot of size `width` x `height`. */
  function Perceive(tileDets: seq<Detection>, buttonDets: seq<Detection>, lines: seq<OcrLine>, width: nat, height: nat): (v: View)
    requires Tiles.OrderedWidths(tileDets)
    ensures WellFormed(v)
    ensures |v.tiles| <= Tiles.SlotCount && |v.buttons| <= |buttonDets|
  {
    var hand := Tiles.Layout(tileDets, width, height);
    var kept := Buttons.Kept(buttonDets);
    View(hand.names, hand.boxes, Buttons.NamesOf(kept), Buttons.BoxesOf(kept), Match(lines, height))
  }

  class MajsoulGame {
    const cfg: Config
    const click: Pointer.MyClick

    var waiting: bool
    var queuing: bool
    var waitTime: Option<int>
    var queueTime: Option<int>
    var greenCount: int
    /** Every call made on `click`, oldest first. */
    var log: seq<Action>
    /** Where the current iteration began: the length of `log` then, and the mouse events by then. */
    ghost var since: nat
    ghost var base: seq<Pointer.Gesture>

    function State(): Ctl
      reads this`waiting, this`queuing, this`waitTime, this`queueTime, this`greenCount
    {
      Ctl(waiting, queuing, waitTime, queueTime, greenCount)
    }

    predicate Valid()
      reads this`waiting, this`queuing, this`waitTime, this`queueTime, this`greenCount
    {
      Inv(State())
    }

    /** The mouse events since the iteration began are exactly those of the calls logged since then. */
    ghost predicate Echo()
      reads this`since, this`base, this`log, click`origin, click`mouse
    {
      since <= |log| && click.mouse == base + Render(click.origin, click.hasPage, log[since..])
    }

    constructor (cfg: Config, hasPage: bool)
      ensures this.cfg == cfg && State() == Initial && log == []
      ensures fresh(click) && click.hasPage == hasPage
      ensures click.origin == Pointer.Point(0, 0) && click.mouse == []
      ensures Valid() && Echo()
    {
      this.cfg := cfg;
      click := new Pointer.MyClick(hasPage);
      waiting := false;
      queuing := false;
      waitTime := None;
      queueTime := None;
      greenCount := 0;
      log := [];
      since := 0;
      base := [];
    }

    /** One call on `click`, recorded in the log. */
    method Do(a: Action)
      requires Echo()
      modifies this`log, click`mouse
      ensures log == old(log) + [a]
      ensures Echo()
    {
      ghost var before := log[since..];
      log := log + [a];
      assert log[since..] == before + [a];
      assert (before + [a])[..|before|] == before;
      click.Click(a.box, a.Click?, true);
    }

    /** `click_if_exists`. */
    method ClickIfExists(buttons: seq<string>, name: string, boxes: seq<Box>) returns (found: bool)
      requires Echo() && |boxes| == |buttons|
      modifies this`log, click`mouse
      ensures found <==> name in buttons
      ensures log == old(log) + Press(buttons, name, boxes)
      ensures Echo()
    {
      if name in buttons {
        Do(Click(boxes[IndexOf(buttons, name)]));
        found := true;
      } else {
        found := false;
      }
    }

    /** `handle_matching`; the answer is whether the iteration stops here. */
    method HandleMatching(buttons: seq<string>, boxes: seq<Box>, now: int) returns (handled: bool)
      requires Valid() && Echo() && |boxes| == |buttons|
      modifies this`waiting, this`queuing, this`queueTime, this`greenCount, this`log, click`mouse
      ensures var o := MatchingStep(cfg, old(State()), buttons, boxes, now);
              State() == o.ctl && handled == o.done && log == old(log) + o.actions
      ensures Echo()
    {
      waiting := false;
      if queuing && now - queueTime.value < cfg.maxQueueTime {
        return true;
      }
      var hit := ClickIfExists(buttons, ThreePEast, boxes);
      if hit {
        queuing := true;
        queueTime := Some(now);
        greenCount := 0;
      } else {
        hit := ClickIfExists(buttons, MatchButton, boxes);
        if !hit {
          hit := ClickIfExists(buttons, cfg.matchRank, boxes);
        }
      }
      handled := false;
    }

    /** `handle_game_end`. */
    method HandleGameEnd(m: Markers, window: Box)
      requires Echo()
      modifies this`waiting, this`queuing, this`log, click`mouse
      ensures var o := GameEndStep(cfg, old(State()), m, window);
              State() == o.ctl && log == old(log) + o.actions
      ensures Echo()
    {
      waiting := false;
      queuing := false;
      var target;
      if m.twoQueren && m.queren.Some? {
        target := m.queren.value;
      } else if m.zailaiyichang.Some? && cfg.autoContinue {
        target := m.zailaiyichang.value;
      } else if m.queren.Some? {
        target := m.queren.value;
      } else {
        target := Center(window);
      }
      Do(Click(target));
    }

    /** One band of the side panel: clicked when not shown pressed, which resets the counter; counted otherwise. */
    method VisitBand(band: Box, isGreen: Box -> bool)
      requires Echo()
      modifies this`greenCount, this`log, click`mouse
      ensures greenCount == if isGreen(band) then old(greenCount) + 1 else 0
      ensures log == old(log) + if isGreen(band) then [] else [Click(band)]
      ensures Echo()
    {
      if !isGreen(band) {
        Do(Click(band));
        greenCount := 0;
      } else {
        greenCount := greenCount + 1;
      }
    }

    /** The loop of `handle_side_buttons` over the four bands of the panel. */
    method VisitBands(panel: Box, isGreen: Box -> bool)
      requires Echo()
      modifies this`greenCount, this`log, click`mouse
      ensures greenCount == CountAfter(old(greenCount), panel, isGreen, SideBands)
      ensures log == old(log) + SideClicks(panel, isGreen, SideBands)
      ensures Echo()
    {
      for k := 0 to |SideBands|
        invariant greenCount == CountAfter(old(greenCount), panel, isGreen, SideBands[..k])
        invariant log == old(log) + SideClicks(panel, isGreen, SideBands[..k])
        invariant Echo()
      {
        SideBandStep(old(greenCount), panel, isGreen, SideBands, k);
        VisitBand(BandBox(panel, SideBands[k]), isGreen);
      }
      assert SideBands[..|SideBands|] == SideBands;
    }

    /** `handle_side_buttons`; `isGreen` tells whether a band is shown pressed. */
    method HandleSideButtons(m: Markers, isGreen: Box -> bool)
      requires Echo()
      modifies this`greenCount, this`log, click`mouse
      ensures var o := SideStep(old(State()), m, isGreen);
              State() == o.ctl && log == old(log) + o.actions
      ensures Echo()
    {
      if m.lhmqb.Some? && greenCount < GreenLimit {
        VisitBands(m.lhmqb.value, isGreen);
      }
    }

    /** `handle_game_buttons`; the answer is whether the frame was handled. */
    method HandleGameButtons(v: View, choice: Choice, window: Box) returns (handled: bool)
      requires Echo() && WellFormed(v)
      modifies this`waiting, this`log, click`mouse
      ensures var o := GameButtonsStep(old(State()), v, choice, window);
              State() == o.ctl && handled == o.done && log == old(log) + o.actions
      ensures Echo()
    {
      waiting := false;
      for i := 0 to |SimpleButtons|
        invariant forall j :: 0 <= j < i ==> SimpleButtons[j] !in v.buttons
        invariant !waiting && log == old(log) && Echo()
      {
        var hit := ClickIfExists(v.buttons, SimpleButtons[i], v.buttonBoxes);
        if hit {
          FirstPresentAt(v.buttons, SimpleButtons, i);
          return true;
        }
      }
      if AnyPresent(v.buttons, CallButtons) && !AnyPresent(v.buttons, CallBlockers) {
        if Tiaoguo in v.buttons {
          Do(Click(v.buttonBoxes[IndexOf(v.buttons, Tiaoguo)]));
        }
        return true;
      }
      if |v.tiles| == 14 {
        PlayChoice(v, choice, window);
        return true;
      }
      return false;
    }

    /** The full-hand rule of `handle_game_buttons`: the strategy's button, then its tile twice and the centre. */
    method PlayChoice(v: View, choice: Choice, window: Box)
      requires Echo() && WellFormed(v)
      modifies this`log, click`mouse
      ensures log == old(log) + ChoiceClicks(v, choice, window)
      ensures Echo()
    {
      if Truthy(choice.button) && choice.button.value in v.buttons {
        Do(Click(v.buttonBoxes[IndexOf(v.buttons, choice.button.value)]));
      }
      if Truthy(choice.tile) && choice.tile.value in v.tiles {
        var b := v.tileBoxes[IndexOf(v.tiles, choice.tile.value)];
        ClickRepeatedly(b, 2);
        assert Repeat(Click(b), 2) == [Click(b), Click(b)];
        Do(Click(Center(window)));
      }
    }

    /** `n` clicks on one box. */
    method ClickRepeatedly(box: Box, n: nat)
      requires Echo()
      modifies this`log, click`mouse
      ensures log == old(log) + Repeat(Click(box), n)
      ensures Echo()
    {
      for r := 0 to n
        invariant log == old(log) + Repeat(Click(box), r)
        invariant Echo()
      {
        Do(Click(box));
      }
    }

    /** The wait timer of `run`, for a frame the in-game handler left alone. */
    method WaitTimer(window: Box, now: int)
      requires Valid() && Echo()
      modifies this`waiting, this`waitTime, this`log, click`mouse
      ensures var w := WaitStep(cfg, old(State()), window, now);
              State() == w.ctl && log == old(log) + w.actions
      ensures Echo()
    {
      if !waiting {
        waiting := true;
        waitTime := Some(now);
      } else if now - waitTime.value > cfg.maxWaitTime {
        waiting := false;
        ClickRepeatedly(Center(window), RecoveryClicks);
      }
    }

    /** The in-game handler, then the wait timer of `run` when the handler did nothing. */
    method HandleInGame(window: Box, v: View, choice: Choice, now: int)
      requires Valid() && Echo() && WellFormed(v)
      modifies this`waiting, this`waitTime, this`log, click`mouse
      ensures var i := InGameStep(cfg, old(State()), window, v, choice, now);
              State() == i.ctl && log == old(log) + i.actions
      ensures Echo()
    {
      var prevWaiting := waiting;
      var handled := HandleGameButtons(v, choice, window);
      if !handled {
        waiting := prevWaiting;
        WaitTimer(window, now);
      }
    }

    /** The playing branch of `run`, before the final move. */
    method PlayFrame(window: Box, v: View, choice: Choice, isGreen: Box -> bool, now: int)
      requires Valid() && Echo() && WellFormed(v)
      modifies this`waiting, this`waitTime, this`greenCount, this`log, click`mouse
      ensures var p := PlayingStep(cfg, old(State()), window, v, choice, isGreen, now);
              State() == p.ctl && log == old(log) + p.actions
      ensures Echo()
    {
      HandleSideButtons(v.markers, isGreen);
      SideKeepsCounter(old(State()), v.markers, isGreen);
      HandleInGame(window, v, choice, now);
    }

    /** The branch of `run` chosen by what the frame shows. */
    method Dispatch(window: Box, v: View, choice: Choice, isGreen: Box -> bool, now: int) returns (handled: bool)
      requires Valid() && Echo() && WellFormed(v)
      modifies this`waiting, this`queuing, this`waitTime, this`queueTime, this`greenCount, this`log, click`mouse
      ensures var o := DispatchStep(cfg, old(State()), window, v, choice, isGreen, now);
              State() == o.ctl && handled == o.done && log == old(log) + o.actions
      ensures Echo()
    {
      if ThreePEast in v.buttons || MatchButton in v.buttons || Silver in v.buttons {
        handled := HandleMatching(v.buttons, v.buttonBoxes, now);
      } else if v.markers.zhongju.Some? || v.markers.queren.Some? {
        HandleGameEnd(v.markers, window);
        greenCount := 0;
        handled := false;
      } else {
        PlayFrame(window, v, choice, isGreen, now);
        handled := false;
      }
    }

    /** One frame's response: the chosen branch, then the pointer back to the window's centre. */
    method Respond(window: Box, v: View, choice: Choice, isGreen: Box -> bool, now: int)
      requires Valid() && Echo() && WellFormed(v)
      modifies this`waiting, this`queuing, this`waitTime, this`queueTime, this`greenCount, this`log, click`mouse
      ensures var o := TickStep(cfg, old(State()), window, v, choice, isGreen, now);
              State() == o.ctl && log == old(log) + o.actions
      ensures Echo()
    {
      var handled := Dispatch(window, v, choice, isGreen, now);
      if !handled {
        ghost var mid := log;
        Do(Move(Center(window)));
        assert log == old(log) + (mid[|old(log)|..] + [Move(Center(window))]);
      }
    }

    /**
     * One iteration of `run`. `window` is the game window's box, or `None`
     * when it is gone, which ends the loop; the detections and OCR lines are
     * those of its screenshot of size `width` x `height`; `choice` is what
     * the strategy answers for the hand; `now` is the clock.
     */
    method Tick(window: Option<Box>, tileDets: seq<Detection>, buttonDets: seq<Detection>, lines: seq<OcrLine>,
                width: nat, height: nat, choice: Choice, isGreen: Box -> bool, now: int) returns (running: bool)
      requires Valid() && Tiles.OrderedWidths(tileDets)
      modifies this, click
      ensures Valid()
      ensures running <==> window.Some?
      ensures window.None? ==> State() == old(State()) && log == old(log)
                               && click.origin == old(click.origin) && click.mouse == old(click.mouse)
      ensures window.Some? ==>
                click.origin == Pointer.Point(window.value.x0, window.value.y0)
                && var o := TickStep(cfg, old(State()), window.value, Perceive(tileDets, buttonDets, lines, width, height),
                                     choice, isGreen, now);
                   State() == o.ctl && log == old(log) + o.actions
                   && click.mouse == old(click.mouse) + Render(click.origin, click.hasPage, o.actions)
    {
      if window.None? {
        return false;
      }
      var box := window.value;
      click.SetTopLeftCorner(box);
      since, base := |log|, click.mouse;
      assert log[since..] == [];
      var tileBoxes, tiles := Tiles.DetectTiles(tileDets, width, height);
      var buttonBoxes, buttons := Buttons.DetectFrame(buttonDets);
      var markers := DetectCharacters(lines, height);
      var v := View(tiles, tileBoxes, buttons, buttonBoxes, markers);
      assert v == Perceive(tileDets, buttonDets, lines, width, height);
      Respond(box, v, choice, isGreen, now);
      assert log[since..] == TickStep(cfg, old(State()), box, v, choice, isGreen, now).actions;
      running := true;
    }
  }
}
