/**
 * The keyword matcher: `Detector.detect_characters` (detector/detector.py)
 * after the OCR engine has returned its text lines. Four texts of the game's
 * interface are recognised and the box of each is recorded under its key; a
 * second confirm button sets a flag and the left-most confirm box is kept.
 */
module Keywords {
  import opened Wrappers
  import opened Geometry

  /** The recognised texts: round end, confirm, play again, and the side panel's label. */
  const Zhongju: string := "终局"
  const Queren: string := "确认"
  const Zailaiyichang: string := "再来一场"
  const Lhmqb: string := "理和鸣切拔"

  /** The keys of `keyword_map`. */
  predicate IsKeyword(text: string) {
    text == Zhongju || text == Queren || text == Zailaiyichang || text == Lhmqb
  }

  datatype Corner = Corner(x: int, y: int)

  /** One recognised line: its quadrilateral's four corners, starting at the top left, and its text. */
  datatype OcrLine = OcrLine(q0: Corner, q1: Corner, q2: Corner, q3: Corner, text: string)

  /**
   * `return_dict`: the box recorded under each key ('zhongju', 'queren',
   * 'zailaiyichang', 'lhmqb'), and whether '2queren' was set.
   */
  datatype Markers = Markers(zhongju: Option<Box>, queren: Option<Box>, twoQueren: bool,
                             zailaiyichang: Option<Box>, lhmqb: Option<Box>)

  const NoMarkers: Markers := Markers(None, None, false, None, None)

  /** A line's box: the first corner as top left, the third as bottom right. */
  function LineBox(line: OcrLine): Box {
    Box(line.q0.x, line.q0.y, line.q2.x, line.q2.y)
  }

  /** The box recorded under the key that `keyword_map` gives `text`. */
  function Recorded(m: Markers, text: string): Option<Box> {
    if text == Zhongju then m.zhongju
    else if text == Queren then m.queren
    else if text == Zailaiyichang then m.zailaiyichang
    else if text == Lhmqb then m.lhmqb
    else None
  }

  /** `return_dict[keyword_map[text]] = box`. */
  function Record(m: Markers, text: string, b: Box): (r: Markers)
    requires IsKeyword(text)
    ensures Recorded(r, text) == Some(b)
    ensures forall t :: t != text ==> Recorded(r, t) == Recorded(m, t)
    ensures r.twoQueren == m.twoQueren
  {
    if text == Zhongju then m.(zhongju := Some(b))
    else if text == Queren then m.(queren := Some(b))
    else if text == Zailaiyichang then m.(zailaiyichang := Some(b))
    else m.(lhmqb := Some(b))
  }

  /** One iteration of the loop over the lines, for a frame `height` pixels high. */
  function Scan(m: Markers, line: OcrLine, height: nat): (r: Markers)
    ensures (m.twoQueren ==> m.queren.Some?) ==> (r.twoQueren ==> r.queren.Some?)
    ensures line.text != Zhongju ==> r.zhongju == m.zhongju
    ensures line.text != Queren ==> r.queren == m.queren && r.twoQueren == m.twoQueren
    ensures line.text != Zailaiyichang ==> r.zailaiyichang == m.zailaiyichang
    ensures line.text != Lhmqb ==> r.lhmqb == m.lhmqb
    ensures IsKeyword(line.text) ==> Recorded(r, line.text).Some?
  {
    var b := LineBox(line);
    if !IsKeyword(line.text) then m
    else if line.text == Queren then
      if m.queren.Some? then
        m.(twoQueren := true, queren := if b.x0 < m.queren.value.x0 then Some(b) else m.queren)
      else m.(queren := Some(b))
    else if line.text == Zailaiyichang && b.y0 > height / 2 then Record(m, line.text, b)
    else Record(m, line.text, b)
  }

  /** The dictionary after the lines have been scanned in order. */
  function Match(lines: seq<OcrLine>, height: nat): (r: Markers)
    ensures r.twoQueren ==> r.queren.Some?
    ensures r.zhongju.Some? ==> Reads(lines, Zhongju)
    ensures r.queren.Some? ==> Reads(lines, Queren)
    ensures r.zailaiyichang.Some? ==> Reads(lines, Zailaiyichang)
    ensures r.lhmqb.Some? ==> Reads(lines, Lhmqb)
  {
    if |lines| == 0 then NoMarkers
    else Scan(Match(lines[..|lines| - 1], height), lines[|lines| - 1], height)
  }

  /** Some line reads `text`. */
  predicate Reads(lines: seq<OcrLine>, text: string) {
    exists k :: 0 <= k < |lines| && lines[k].text == text
  }

  /** The post-OCR part of `detect_characters`; the OCR's pages are given as one sequence of lines. */
  method DetectCharacters(lines: seq<OcrLine>, height: nat) returns (found: Markers)
    ensures found == Match(lines, height)
  {
    found := NoMarkers;
    for i := 0 to |lines|
      invariant found == Match(lines[..i], height)
    {
      assert lines[..i + 1][..i] == lines[..i];
      var line := lines[i];
      var b := LineBox(line);
      if IsKeyword(line.text) {
        if line.text == Queren {
          if found.queren.Some? {
            found := found.(twoQueren := true);
            if b.x0 < found.queren.value.x0 {
              found := found.(queren := Some(b));
            }
          } else {
            found := found.(queren := Some(b));
          }
        } else if line.text == Zailaiyichang && b.y0 > height / 2 {
          found := Record(found, line.text, b);
        } else {
          found := Record(found, line.text, b);
        }
      }
    }
    assert lines[..|lines|] == lines;
  }

  /**
   * The lower-half test on 'play again' has no effect: both of its branches
   * record the box, so the result does not depend on the frame's height.
   */
  lemma {:induction false} HeightIrrelevant(lines: seq<OcrLine>, h1: nat, h2: nat)
    ensures Match(lines, h1) == Match(lines, h2)
  {
    if |lines| > 0 {
      HeightIrrelevant(lines[..|lines| - 1], h1, h2);
    }
  }

  /** Lines with a text other than the four keywords change nothing. */
  lemma {:induction false} OthersIgnored(lines: seq<OcrLine>, height: nat)
    ensures Match(lines, height) == Match(Keyworded(lines), height)
  {
    if |lines| > 0 {
      var n := |lines| - 1;
      OthersIgnored(lines[..n], height);
      assert lines == lines[..n] + [lines[n]];
      KeywordedAppend(lines[..n], lines[n]);
      var kept := Keyworded(lines[..n]);
      assert Match(lines, height) == Scan(Match(kept, height), lines[n], height);
      if IsKeyword(lines[n].text) {
        assert Keyworded(lines) == kept + [lines[n]];
        assert (kept + [lines[n]])[..|kept|] == kept;
        assert Match(kept + [lines[n]], height) == Scan(Match(kept, height), lines[n], height);
      } else {
        assert Keyworded(lines) == kept;
      }
    }
  }

  /** The lines whose text is a keyword, in order. */
  function Keyworded(lines: seq<OcrLine>): (r: seq<OcrLine>)
    ensures |r| <= |lines|
  {
    if |lines| == 0 then []
    else Keyworded(lines[..|lines| - 1]) + (if IsKeyword(lines[|lines| - 1].text) then [lines[|lines| - 1]] else [])
  }

  lemma KeywordedAppend(lines: seq<OcrLine>, line: OcrLine)
    ensures Keyworded(lines + [line]) == Keyworded(lines) + (if IsKeyword(line.text) then [line] else [])
  {
    assert (lines + [line])[..|lines|] == lines;
  }

  /** The number of lines reading `text`. */
  function Occurrences(lines: seq<OcrLine>, text: string): nat {
    if |lines| == 0 then 0
    else Occurrences(lines[..|lines| - 1], text) + (if lines[|lines| - 1].text == text then 1 else 0)
  }

  /** '2queren' is set exactly when at least two confirm lines were read. */
  lemma {:induction false} DuplicateConfirm(lines: seq<OcrLine>, height: nat)
    ensures Match(lines, height).twoQueren <==> Occurrences(lines, Queren) >= 2
    ensures Match(lines, height).queren.Some? <==> Occurrences(lines, Queren) >= 1
  {
    if |lines| > 0 {
      DuplicateConfirm(lines[..|lines| - 1], height);
    }
  }

  /**
   * Line `k` is a confirm line left of or level with every confirm line, and
   * strictly left of every earlier one.
   */
  predicate LeftmostFirstConfirm(lines: seq<OcrLine>, k: int) {
    0 <= k < |lines| && lines[k].text == Queren
    && (forall j :: 0 <= j < |lines| && lines[j].text == Queren ==> LineBox(lines[k]).x0 <= LineBox(lines[j]).x0)
    && (forall j :: 0 <= j < k && lines[j].text == Queren ==> LineBox(lines[k]).x0 < LineBox(lines[j]).x0)
  }

  /**
   * The confirm box is that of the left-most confirm line, and of the first
   * one among equally left ones: a later confirm line replaces the recorded
   * box only when its left edge is strictly smaller.
   */
  lemma {:induction false} ConfirmLeftmost(lines: seq<OcrLine>, height: nat)
    ensures Match(lines, height).queren.Some? ==>
              exists k :: LeftmostFirstConfirm(lines, k) && Match(lines, height).queren.value == LineBox(lines[k])
  {
    if |lines| > 0 {
      var n := |lines| - 1;
      var front := lines[..n];
      ConfirmLeftmost(front, height);
      var before := Match(front, height);
      var after := Match(lines, height);
      assert after == Scan(before, lines[n], height);
      var b := LineBox(lines[n]);
      if lines[n].text == Queren {
        if before.queren.Some? && !(b.x0 < before.queren.value.x0) {
          var k :| LeftmostFirstConfirm(front, k) && before.queren.value == LineBox(front[k]);
          assert after.queren == before.queren;
          KeepLeftmost(lines, k);
        } else {
          assert after.queren == Some(b);
          if before.queren.Some? {
            var k :| LeftmostFirstConfirm(front, k) && before.queren.value == LineBox(front[k]);
            NewLeftmost(lines, k);
          } else {
            ConfirmAbsent(front, height);
            assert LeftmostFirstConfirm(lines, n);
          }
        }
      } else {
        assert after.queren == before.queren;
        if before.queren.Some? {
          var k :| LeftmostFirstConfirm(front, k) && before.queren.value == LineBox(front[k]);
          KeepLeftmost(lines, k);
        }
      }
    }
  }

  /** A confirm box is recorded exactly when some line reads confirm. */
  lemma {:induction false} ConfirmAbsent(lines: seq<OcrLine>, height: nat)
    ensures Match(lines, height).queren.None? <==> forall j :: 0 <= j < |lines| ==> lines[j].text != Queren
  {
    if |lines| > 0 {
      var n := |lines| - 1;
      ConfirmAbsent(lines[..n], height);
      assert forall j :: 0 <= j < n ==> lines[j] == lines[..n][j];
    }
  }

  /** The front's left-most confirm line stays so when the last line is not a confirm line further left. */
  lemma KeepLeftmost(lines: seq<OcrLine>, k: int)
    requires |lines| > 0 && LeftmostFirstConfirm(lines[..|lines| - 1], k)
    requires lines[|lines| - 1].text == Queren ==> LineBox(lines[k]).x0 <= LineBox(lines[|lines| - 1]).x0
    ensures LeftmostFirstConfirm(lines, k)
  {
    assert forall j :: 0 <= j < |lines| - 1 ==> lines[j] == lines[..|lines| - 1][j];
  }

  /** A last confirm line strictly left of the front's left-most one becomes the left-most. */
  lemma NewLeftmost(lines: seq<OcrLine>, k: int)
    requires |lines| > 0 && LeftmostFirstConfirm(lines[..|lines| - 1], k)
    requires lines[|lines| - 1].text == Queren && LineBox(lines[|lines| - 1]).x0 < LineBox(lines[k]).x0
    ensures LeftmostFirstConfirm(lines, |lines| - 1)
  {
    assert forall j :: 0 <= j < |lines| - 1 ==> lines[j] == lines[..|lines| - 1][j];
  }

  /**
   * Round end, play again and the side panel: the last line reading the
   * keyword decides the box; none is recorded when no line reads it.
   */
  lemma LastSeenWins(lines: seq<OcrLine>, height: nat, text: string)
    requires text == Zhongju || text == Zailaiyichang || text == Lhmqb
    ensures Recorded(Match(lines, height), text).None? <==> forall j :: 0 <= j < |lines| ==> lines[j].text != text
    ensures Recorded(Match(lines, height), text).Some? ==>
              exists k :: LastReading(lines, text, k) && Recorded(Match(lines, height), text).value == LineBox(lines[k])
  {
    KeyAbsent(lines, height, text);
    LastKeyLine(lines, height, text);
  }

  /** A key other than confirm is recorded exactly when some line reads it. */
  lemma {:induction false} KeyAbsent(lines: seq<OcrLine>, height: nat, text: string)
    requires text == Zhongju || text == Zailaiyichang || text == Lhmqb
    ensures Recorded(Match(lines, height), text).None? <==> forall j :: 0 <= j < |lines| ==> lines[j].text != text
  {
    if |lines| > 0 {
      var n := |lines| - 1;
      KeyAbsent(lines[..n], height, text);
      assert forall j :: 0 <= j < n ==> lines[j] == lines[..n][j];
      ScanOneKey(Match(lines[..n], height), lines[n], height, text);
    }
  }

  /** Line `k` reads `text` and no later line does. */
  predicate LastReading(lines: seq<OcrLine>, text: string, k: int) {
    0 <= k < |lines| && lines[k].text == text && forall j :: k < j < |lines| ==> lines[j].text != text
  }

  /** The box recorded under a key other than confirm is that of the last line reading it. */
  lemma {:induction false} LastKeyLine(lines: seq<OcrLine>, height: nat, text: string)
    requires text == Zhongju || text == Zailaiyichang || text == Lhmqb
    ensures Recorded(Match(lines, height), text).Some? ==>
              exists k :: LastReading(lines, text, k) && Recorded(Match(lines, height), text).value == LineBox(lines[k])
  {
    if |lines| > 0 {
      var n := |lines| - 1;
      var front := lines[..n];
      LastKeyLine(front, height, text);
      var before := Recorded(Match(front, height), text);
      var after := Recorded(Match(lines, height), text);
      ScanOneKey(Match(front, height), lines[n], height, text);
      assert after == if lines[n].text == text then Some(LineBox(lines[n])) else before;
      if lines[n].text == text {
        assert LastReading(lines, text, n);
      } else if before.Some? {
        var k :| LastReading(front, text, k) && before.value == LineBox(front[k]);
        ExtendLastReading(lines, text, k);
      }
    }
  }

  /** A line that does not read `text` appended after the last line reading it leaves that line the last. */
  lemma ExtendLastReading(lines: seq<OcrLine>, text: string, k: int)
    requires |lines| > 0 && LastReading(lines[..|lines| - 1], text, k)
    requires lines[|lines| - 1].text != text
    ensures LastReading(lines, text, k)
  {
    assert forall j :: 0 <= j < |lines| - 1 ==> lines[j] == lines[..|lines| - 1][j];
  }

  /** For a key other than confirm, one scanned line records its own box under its text and leaves the key alone otherwise. */
  lemma ScanOneKey(m: Markers, line: OcrLine, height: nat, text: string)
    requires text == Zhongju || text == Zailaiyichang || text == Lhmqb
    ensures Recorded(Scan(m, line, height), text) == if line.text == text then Some(LineBox(line)) else Recorded(m, text)
  {
  }
}
