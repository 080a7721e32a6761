# MajsoulBot core in Dafny

A model of the decision core of a bot that plays three-player Mahjong Soul in
a browser. Each iteration of the bot's loop reads three things from a
screenshot of the game window. The first is the tiles in hand, with their
boxes. The second is the UI buttons on screen. The third is a few keywords
read by OCR. From these the bot decides where to click. The model covers:

- the geometry the detector shares: box area and intersection over union
  (`Geometry`);
- the post-inference logic of the three detector passes:
  - `Tiles`: the tile reconciler of `detect_tiles`. It drops outliers by
    comparing four shape features with their medians, places the survivors
    into 160 slots by left edge, fills a single missing tile between two equal
    neighbours, then compacts the slots and shifts them into frame
    coordinates.
  - `Buttons`: the de-duplicator of `detect_frame`. It builds a pairwise IoU
    matrix and drops a detection that overlaps a strictly more confident one.
  - `Keywords`: the keyword matcher of `detect_characters`.
- the numeric conventions these passes rely on: numpy's median, Python's
  round-half-to-even and boolean-mask selection (`Numeric`);
- `MyClick`, which turns a box into a pointer gesture on the page, relative
  to the game window's top-left corner (`Pointer`);
- the `MajsoulGame` state machine (`Control`, `Game`). It covers
  `click_if_exists`, the matching, game-end, side-panel and in-game handlers,
  and one iteration of `run` as `MajsoulGame.Tick`.

## How the model is built

- **Methods proved against functions.** The detector passes and the game's
  handlers are methods that update arrays, the game's fields and the
  pointer's event list. Each is proved equal to a pure function:
  - `Tiles.Layout`, `Buttons.Kept` and `Keywords.Match` for the detector
    passes;
  - `Control.MatchingStep`, `Control.GameButtonsStep`,
    `Control.TickStep` and the other step functions for the game's handlers.

  The lemmas then state what the source promises about those functions.
- **The click log.** `MajsoulGame` keeps the source's five state fields.
  It also keeps `log`, the calls it has made on `MyClick`. Every method
  states its new state and the calls it appended. `Tick` additionally
  states the gestures the page's mouse received.
- **Exact arithmetic.** Coordinates are integers and confidences are reals.
  Division and rounding are exact: floor division `//`, true division,
  numpy's median (the mean of the two middle values for even counts) and
  Python's `round` (ties go to the even integer).
- **Inputs of `Tick`.** Everything the bot obtains from outside is a
  parameter of `Tick`:
  - the window box, or none when the window is gone;
  - the raw tile and button detections and the OCR lines;
  - the frame size;
  - the strategy's answer for the hand;
  - a predicate saying whether a band of the side panel shows pressed;
  - the clock reading.

The code guards the "play again" OCR line with a lower-half test, but both
branches record the box. The model follows the code, and
`Keywords.HeightIrrelevant` proves that the frame height has no effect on
the result.

## Model

| member | source | states |
|---|---|---|
| Geometry.Area | detector/detector.py:10-11 | the area is never negative; a box with a reversed edge has none; it is positive exactly when both sides are |
| Geometry.IouRatio | detector/detector.py:13-17 | the ratio lies in [0, 1] and is positive exactly when the intersection has area, so the division never divides by zero |
| Geometry.OverlapWithin | detector/detector.py:13-17 | an intersection with area is no larger than either box, and both boxes have area |
| Geometry.IouSymmetric | detector/detector.py:13-17 | the ratio does not depend on argument order, which is what mirroring the matrix relies on |
| Geometry.IouIdentical | detector/detector.py:13-17 | a box with area has ratio 1 with itself |
| Geometry.IouOverlapping | detector/detector.py:13-17 | with an overlap the denominator is positive and the ratio is overlap / union, in (0, 1] |
| Numeric.Insert | detector/detector.py:53 | inserting into a sorted list keeps it sorted and adds exactly one occurrence of the value |
| Numeric.Sort | detector/detector.py:53 | the result is sorted and a permutation of the input |
| Numeric.Median | detector/detector.py:53 | the median lies between the least and the greatest value |
| Numeric.RoundHalfEven | detector/detector.py:72 | the result is within one half of the input, and even on a tie |
| Numeric.Least | detector/detector.py:65 | the minimum is an element and bounds every element from below |
| Numeric.Greatest | detector/detector.py:53 | the maximum is an element and bounds every element from above; it serves as the upper bound of the median |
| Numeric.Where | detector/detector.py:86 | mask selection yields exactly the set positions, in ascending order |
| Numeric.WhereCount | detector/detector.py:86-88 | it selects as many positions as there are set flags |
| Numeric.WherePrefixOf | detector/detector.py:59-61 | selecting with a prefix of the mask gives a prefix of the selection |
| Numeric.SelectMask | detector/detector.py:59-61 | boolean-mask selection keeps as many elements as set flags, and the element at a set flag comes out after exactly the set flags before it, so the kept elements are the flagged ones in input order |
| Tiles.RelCloseCases | detector/detector.py:56-57 | the relative test `RelClose` fails on a zero denominator (NaN or infinity), passes on a negative one, and otherwise passes exactly when the distance is below a fifth of the larger value |
| Tiles.ZeroNeverClose | detector/detector.py:56-57 | a zero feature is never close to its median, whatever the median |
| Tiles.Survivors | detector/detector.py:55-61 | the survivors are detections of the input, no more than it, and each has all four features close to the medians over all detections |
| Tiles.SurvivorsInOrder | detector/detector.py:46-61 | detection i survives (its `KeepMask` flag is set) if and only if its width, height, y0 + y1 and area are all close to their medians; survivors keep input order, with box, name and confidence together |
| Tiles.SurvivorsHaveWidth | detector/detector.py:56-61 | a zero-width box never survives, so every survivor of ordered boxes has positive width |
| Tiles.TileWidth | detector/detector.py:64 | the median width is positive when every box has positive width |
| Tiles.LeftMargin | detector/detector.py:65 | the margin is the least left edge: at or left of every survivor's left edge, and equal to one of them |
| Tiles.Positions | detector/detector.py:72 | one slot per survivor, none negative |
| Tiles.SlotsNonNegative | detector/detector.py:72 | no box at or right of the margin gets a negative slot |
| Tiles.RoundMonotone | detector/detector.py:72 | Python's round never maps a larger value to a smaller integer |
| Tiles.SlotMonotone | detector/detector.py:72 | slots follow left edges: a box not right of another never gets a later slot |
| Tiles.Holder | detector/detector.py:73-77 | the survivor holding a slot after the first n were placed is one of those n, and is placed at that slot |
| Tiles.HolderIsFirstMostConfident | detector/detector.py:73-77 | a slot holds survivor k exactly when k is placed there, beats -1.0, is strictly more confident than every earlier survivor there and at least as confident as every later one |
| Tiles.HolderConfidence | detector/detector.py:73-77 | the confidence a slot keeps bounds every survivor placed there |
| Tiles.AssignSlots | detector/detector.py:67-77 | the in-place slot loop leaves every slot with the box and name of its holder |
| Tiles.AssignedNames | detector/detector.py:67-77 | box slots and name slots are filled together, 160 of each |
| Tiles.GapsApart | detector/detector.py:79-84 | two gaps are never adjacent |
| Tiles.FillGaps | detector/detector.py:79-84 | the in-place gap loop has the effect of filling every gap of the original slots at once |
| Tiles.FilledNames | detector/detector.py:79-84 | an occupied slot keeps its tile; a slot is occupied afterwards exactly when it was before or it is a gap |
| Tiles.FilledBoxes | detector/detector.py:79-84 | gap filling keeps box and name slots paired |
| Tiles.FillOnlyGaps | detector/detector.py:79-84 | an occupied slot is never changed; a changed slot is an empty one among slots 1 to 11 that takes the tile its two equal neighbours share |
| Tiles.OccupiedNames | detector/detector.py:86-88 | compaction keeps as many names as boxes |
| Tiles.Collect | detector/detector.py:86-94 | compaction then shift gives the occupied slots in slot order, moved by the hand region's offset |
| Tiles.Layout | detector/detector.py:32-102 | the hand has as many boxes as names, at most 160 |
| Tiles.EmptyLayout | detector/detector.py:57-63 | no detections, or none surviving the outlier test, give an empty hand |
| TileRow.RowLayout | detector/detector.py:44-100 | a row of at most 160 equal tiles laid edge to edge comes back whole: the same names left to right, the same boxes moved by the hand region's offset |
| TileRow.RowSurvives | detector/detector.py:46-61 | no tile of such a row is an outlier |
| TileRow.RowPositions | detector/detector.py:64-72 | tile k of such a row lands in slot k |
| TileRow.RowSlots | detector/detector.py:67-84 | the first n slots hold the row in order, the rest are empty, and no gap is filled |
| Tiles.DetectTiles | detector/detector.py:44-102 | the post-inference code returns exactly the layout of the detections |
| Buttons.Kept | detector/detector.py:129-130 | no more survivors than detections |
| Buttons.IouMatrix | detector/detector.py:114-120 | the matrix holds the pairwise ratio off the diagonal, mirrored, and 0 on it |
| Buttons.SuppressionMask | detector/detector.py:122-127 | the mask clears exactly the detections overlapping a strictly more confident one |
| Buttons.DetectFrame | detector/detector.py:113-135 | the boxes and names returned are those of the survivors, in order |
| Buttons.KeptInOrder | detector/detector.py:122-130 | a detection survives if and only if no other detection overlaps it by more than half with strictly higher confidence (the `Suppressed` test the `KeepMask` negates), and the survivors keep input order |
| Buttons.MostConfidentKept | detector/detector.py:122-127 | the most confident detection always survives |
| Buttons.KeptOverlapsTie | detector/detector.py:122-127 | two survivors overlapping more than half are equally confident |
| Buttons.OverlappingPair | detector/detector.py:122-130 | of two boxes overlapping more than half, only the more confident survives, in either input order |
| Buttons.PairBothKept | detector/detector.py:122-130 | two boxes overlapping at most half, or equally confident, both survive |
| Keywords.Scan | detector/detector.py:155-168 | one line changes at most the entry of its own keyword, records that entry when the line is a keyword, and never sets the duplicate flag without a confirm box |
| Keywords.Match | detector/detector.py:152-168 | the duplicate flag never shows without a confirm box, and every recorded keyword was read on some line |
| Keywords.Record | detector/detector.py:166-168 | recording a keyword sets its box and leaves every other key and the duplicate-confirm flag alone |
| Keywords.DetectCharacters | detector/detector.py:152-170 | the loop over the OCR lines returns the dictionary of the line-by-line scan |
| Keywords.HeightIrrelevant | detector/detector.py:165-168 | the result does not depend on the frame height |
| Keywords.OthersIgnored | detector/detector.py:157 | lines whose text is not a keyword change nothing |
| Keywords.KeywordedAppend | detector/detector.py:157 | filtering keyword lines distributes over appending a line |
| Keywords.DuplicateConfirm | detector/detector.py:158-164 | '2queren' is set iff at least two confirm lines were read; 'queren' iff at least one |
| Keywords.ConfirmLeftmost | detector/detector.py:158-164 | the confirm box is that of the left-most confirm line, the first among equally left ones |
| Keywords.ConfirmAbsent | detector/detector.py:158-164 | no confirm box iff no line reads confirm |
| Keywords.LastSeenWins | detector/detector.py:165-168 | for the other keywords the box is that of the last line reading it, and absent iff none does |
| Pointer.Target | utils/click.py:23-28 | centre mode aims at the box's centre rounded down, corner mode at its top-left corner, both moved by the origin |
| Pointer.CenterInside | utils/click.py:23-25 | the centre target of an ordered box lies inside the moved box |
| Pointer.Effect | utils/click.py:30-36 | a page receives one gesture at the target, pressing iff asked; without a page nothing happens |
| Pointer.MyClick.constructor | utils/click.py:2-9 | the origin starts at (0, 0) with no gestures |
| Pointer.MyClick.SetTopLeftCorner | utils/click.py:11-13 | the origin becomes the box's left and top edges |
| Pointer.MyClick.Click | utils/click.py:15-36 | the mouse receives exactly the gesture of the call |
| Control.CenterTarget | main.py:122 | the box `(0, 0, w, h)`, aimed at by its centre from the window's corner, is the middle of the window and lies inside it |
| Control.IndexOf | main.py:90 | `list.index` is the first position holding the value |
| Control.FirstPresent | main.py:130-132 | the first of the names present among the buttons, none iff no name is present |
| Control.FirstPresentAt | main.py:130-132 | a present name after absent ones is the one picked |
| Control.Press | main.py:88-92 | one click iff the name is present, on the box at its first position |
| Control.Classify | main.py:204-212 | the lobby's buttons take priority, then the end-of-game keywords, else the game is in play |
| Control.MatchingStep | main.py:94-108 | the matching handler only clicks |
| Control.MatchingOutcome | main.py:94-108 | waiting is cleared; a running queue stops the iteration without clicks; otherwise the first present lobby button is clicked at most once, and only '3p-east' restarts the queue and resets the counter |
| Control.GameEndStep | main.py:110-122 | the end handler clicks its target once and clears waiting and queuing |
| Control.EndTarget | main.py:110-122 | the end-of-game click goes to the confirm box, the 'play again' box only when continuing automatically, or the window's middle, and to the middle when neither is usable |
| Control.EndTargetPriority | main.py:115-122 | the duplicated confirm, then 'play again' when continuing automatically, then confirm, else the window's middle |
| Control.BandsInsidePanel | main.py:163-170 | each tried band (`BandBox`) spans the panel's width, one fifth of its height rounded down, inside the panel |
| Control.SideClicks | main.py:166-176 | the side loop only clicks, at most once per band |
| Control.SideBandStep | main.py:166-178 | one more band updates the counter and the clicks as the loop body does |
| Control.CounterAllPressed | main.py:165-178 | when all bands show pressed, the counter after the loop (`CountAfter`) grows by their number |
| Control.CounterTrailing | main.py:165-178 | otherwise it ends as the number of pressed bands after the last unpressed one |
| Control.CounterBounds | main.py:165-178 | the counter stays non-negative and grows at most by one per band |
| Control.SideClicksUnpressed | main.py:166-176 | the clicks are exactly on unpressed bands: every click is on an unpressed band, every unpressed band is clicked; none when all are pressed, every band in order when none is |
| Control.SideStep | main.py:157-179 | the side handler only clicks and touches only the counter |
| Control.SideKeepsCounter | main.py:157-178 | the counter stays within 0..8, and nothing happens without the panel or at five or more |
| Control.ChoiceClicks | main.py:142-153 | the strategy's answer is played with clicks only: one click on the button's first box when the button is non-empty and shown, and it comes first; three tile clicks when the tile is non-empty and held, none otherwise |
| Control.GameButtonsStep | main.py:125-155 | the in-game handler only clicks and only clears waiting |
| Control.GameButtonsOutcome | main.py:125-155 | 'zimo', 'he', 'babei' win alone; an unblocked call offer is declined via 'tiaoguo'; a hand of 14 is handled even without clicks; nothing else is handled, and then nothing is clicked |
| Control.ChoicePlaysTile | main.py:147-152 | the held tile is clicked twice on its first box, then the window's middle |
| Control.Repeat | main.py:233-235 | n copies of the action |
| Control.WaitStep | main.py:224-235 | the wait timer only clicks |
| Control.WaitOutcome | main.py:224-235 | the timer starts when waiting begins; past the limit waiting ends with seven clicks on the middle; in between nothing happens; queue and counter untouched |
| Control.TickStep | main.py:186-238 | the invariant is kept; the iteration is cut short iff a queue is running on the lobby screen, then without clicks; otherwise it ends by moving to the window's middle after clicks only |
| Control.DispatchStep | main.py:203-235 | the chosen branch keeps the invariant and only clicks |
| Control.PlayingStep | main.py:212-235 | the playing branch keeps the invariant and only clicks |
| Control.InGameStep | main.py:218-235 | the in-game handler, then the timer on the saved waiting flag, keeps the invariant and only clicks |
| Control.GameEndTick | main.py:208-238 | at the end of a game one click then the move home; waiting, queuing and the counter reset, timers kept |
| Control.PlayingOutcome | main.py:216-235 | a handled frame leaves waiting cleared; an unhandled one runs the timer on the waiting flag saved before the handler |
| Control.Render | utils/click.py:15-36 | one gesture per call with a page, each the single gesture of `click` on the call's box at its centre, pressing exactly for a click; none without a page |
| Control.TickGestures | main.py:186-238 | one gesture per call, aimed at box centres relative to the window; all press except the final move to the window's middle |
| Game.Perceive | main.py:197-199 | the perceived frame pairs boxes with names, with at most 160 tiles and no more buttons than detections |
| Game.MajsoulGame.constructor | main.py:40-45 | the state starts not waiting, not queuing, timers unset, counter 0, and satisfies the invariant |
| Game.MajsoulGame.Do | utils/click.py:15-36 | one call on the pointer, logged, with its gesture sent to the page |
| Game.MajsoulGame.ClickIfExists | main.py:88-92 | answers whether the name is present and logs exactly its click |
| Game.MajsoulGame.HandleMatching | main.py:94-108 | new state, answer and clicks are those of the matching step |
| Game.MajsoulGame.HandleGameEnd | main.py:110-122 | new state and click are those of the end step |
| Game.MajsoulGame.VisitBand | main.py:166-178 | an unpressed band is clicked and resets the counter; a pressed one raises it |
| Game.MajsoulGame.VisitBands | main.py:166-178 | the loop leaves the counter and clicks of the whole band sequence |
| Game.MajsoulGame.HandleSideButtons | main.py:157-179 | new counter and clicks are those of the side step |
| Game.MajsoulGame.HandleGameButtons | main.py:125-155 | new state, answer and clicks are those of the in-game step |
| Game.MajsoulGame.PlayChoice | main.py:142-153 | logs exactly the clicks of the strategy's answer |
| Game.MajsoulGame.ClickRepeatedly | main.py:148-150 | logs n clicks on the box |
| Game.MajsoulGame.WaitTimer | main.py:224-235 | new state and clicks are those of the wait step |
| Game.MajsoulGame.HandleInGame | main.py:218-235 | new state and clicks are those of the in-game step with the saved waiting flag |
| Game.MajsoulGame.PlayFrame | main.py:212-235 | new state and clicks are those of the playing step |
| Game.MajsoulGame.Dispatch | main.py:203-235 | new state, answer and clicks are those of the chosen branch |
| Game.MajsoulGame.Respond | main.py:203-238 | new state and clicks are those of the whole iteration |
| Game.MajsoulGame.Tick | main.py:186-238 | the loop continues iff the window is found; without it nothing changes; with it the origin is the window's corner, and state, log and mouse gestures are those of the iteration on what the detector perceives; the invariant holds throughout |

## Left out

- Window management (utils/window.py), login and configuration loading (config.py) are not part of this model. The configuration values become a `Config` record.
- Model inference: YOLO prediction, PaddleOCR and the conversion of their outputs. The detections and OCR lines are inputs. The OCR result's list of pages is flattened into one sequence of lines.
- Screenshots and image decoding. The crop to the hand region decides what the tile detector sees; its output is an input of the model.
- The blanking of part of the image before OCR. It changes the frame in place, and the side-panel handler later crops bands from that same frame for the colour test. The colour test is the free predicate `isGreen` of `Tick`, so any effect of the blanking on it is covered by leaving the predicate arbitrary.
- `is_green`, the colour test on a cropped band: a predicate parameter of `Tick`, since it works on pixel averages in floating point.
- `strategy.step`: the strategy's answer for a hand of 14 is a parameter of `Tick`.
- The clock: each iteration reads one integer `now`. The source calls `time()` separately in each test, in floating point.
- Sleeps, prints, colour output, and the infinite loop of `run` with its `try/except`. `Tick` is one iteration; the loop ends when the window is gone.
- Floating-point rounding of coordinates, medians and ratios: all arithmetic is exact.
- Pointer.MyClick.Click: the page's `mouse.move` followed by an optional `mouse.click` is recorded as one gesture `(point, press)`, not as two separate events.
- Tiles.DetectTiles: requires every tile box to have its right edge at or right of its left edge, as the detector's `xyxy` boxes do. Zero-width boxes are accepted; they always fail the outlier test (`Tiles.SurvivorsHaveWidth`). Boxes with reversed edges can make the median width negative. The source then computes negative slots, and Python's indexing wraps those to the end of the slot array. The model does not follow that case.
- Tiles.Layout, Tiles.EmptyLayout and Game.Perceive: the same requirement, for the same reason.
- Game.MajsoulGame.Tick: requires the same of the tile detections, for the same reason.
- The handlers require the invariant `Valid` (a timer is set whenever its flag is). The source would raise on an unset timer. The constructor establishes the invariant and `Tick` preserves it, so the source never takes that path.
