/** Gameplay recording: a getevent touch stream is turned into the label of
    the player's last move, which decays to "running" after half a second
    without one, and every captured screenshot is filed under the current
    label. The event process, the clocks, the capture and the image files
    are inputs; see `Cycle` and `TimedLine`. */
module GatherData {
  import opened Errors
  import Text
  import Paths
  import AdbController

  /** The label directories created under BASE_DIR, in creation order. */
  const ACTIONS: seq<string> := ["down", "left", "running", "right", "up"]
  const BASE_DIR := "data/gameplay_images"
  const SCREENSHOT_PATH := "temp/current_screenshot.png"
  const X_TOKEN := "ABS_MT_POSITION_X"
  const Y_TOKEN := "ABS_MT_POSITION_Y"
  /** Half a second, in the milliseconds the model's clocks count. */
  const IDLE_MS := 500

  // ---------------------------------------------------------------------
  // Touch events
  // ---------------------------------------------------------------------

  /** The zone of coordinate `v` on an axis of length `size`: `low` for the
      first third, `high` for the last, compared as Python does against the
      true quotients `size / 3` and `2 * size / 3`; nothing in between. A
      value exactly on `size / 3` is not in the first third. */
  function Zone(v: int, size: int, low: string, high: string): (r: Option<string>)
    ensures 3 * v < size ==> r == Some(low)
    ensures size <= 3 * v && 3 * v > 2 * size ==> r == Some(high)
    ensures size <= 3 * v <= 2 * size ==> r == None
    ensures r.Some? ==> r.value == low || r.value == high
  {
    if v as real < size as real / 3.0 then Some(low)
    else if v as real > (2 * size) as real / 3.0 then Some(high)
    else None
  }

  /** `parse_touch_event` on a screen of `width` by `height`: the hex value
      after the last position token, placed in a third of the screen. An X
      token takes precedence over a Y token. */
  function ParseTouchEvent(line: string, width: int, height: int): (r: Result<Option<string>>)
    ensures r.Err? ==> r.error == ValueError
    ensures r.Ok? && r.value.Some? ==> r.value.value in {"left", "right", "up", "down"}
  {
    if Text.Contains(line, X_TOKEN) then
      match Coordinate(line, X_TOKEN)
      case Ok(x) => Ok(Zone(x, width, "left", "right"))
      case Err(e) => Err(e)
    else if Text.Contains(line, Y_TOKEN) then
      match Coordinate(line, Y_TOKEN)
      case Ok(y) => Ok(Zone(y, height, "up", "down"))
      case Err(e) => Err(e)
    else
      Ok(None)
  }

  /** Which token decides: an X token wins over a Y token, a line with
      neither is no move, and only a line with a token can raise. */
  lemma TokenPrecedence(line: string, width: int, height: int)
    ensures var r := ParseTouchEvent(line, width, height);
      (r.Err? ==> Text.Contains(line, X_TOKEN) || Text.Contains(line, Y_TOKEN))
      && (!Text.Contains(line, X_TOKEN) && !Text.Contains(line, Y_TOKEN) ==> r == Ok(None))
      && (Text.Contains(line, X_TOKEN) && r.Ok? && r.value.Some? ==> r.value.value in {"left", "right"})
      && (!Text.Contains(line, X_TOKEN) && r.Ok? && r.value.Some? ==> r.value.value in {"up", "down"})
  {
    var r := ParseTouchEvent(line, width, height);
    if Text.Contains(line, X_TOKEN) {
      var c := Coordinate(line, X_TOKEN);
      if c.Ok? {
        assert r == Ok(Zone(c.value, width, "left", "right"));
        ZoneIn(c.value, width, "left", "right");
      }
    } else if Text.Contains(line, Y_TOKEN) {
      var c := Coordinate(line, Y_TOKEN);
      if c.Ok? {
        assert r == Ok(Zone(c.value, height, "up", "down"));
        ZoneIn(c.value, height, "up", "down");
      }
    } else {
      assert r == Ok(None);
    }
  }

  lemma ZoneIn(v: int, size: int, low: string, high: string)
    ensures Zone(v, size, low, high).Some? ==> Zone(v, size, low, high).value in {low, high}
  {
  }

  /** `int(line.split(token)[-1].strip(), 16)`. */
  function Coordinate(line: string, token: string): (r: Result<int>)
    requires token != []
    ensures r.Err? ==> r.error == ValueError
  {
    Text.ParseInt(Text.Strip(Text.LastPiece(line, token)), 16)
  }

  /** Text that can follow a position token on a getevent line: padding,
      eight lower-case hex digits, trailing whitespace. */
  function ValueField(pad: string, v: nat, trail: string): string
    requires v < Text.Pow(16, 8)
  {
    pad + Text.HexDigits(v, 8) + trail
  }

  /** The value field holds neither upper-case letter of the tokens. */
  lemma ValueFieldLetters(pad: string, v: nat, trail: string)
    requires v < Text.Pow(16, 8)
    requires Text.AllSpace(pad) && Text.AllSpace(trail)
    ensures 'A' !in ValueField(pad, v, trail) && 'X' !in ValueField(pad, v, trail)
  {
    var hex := Text.HexDigits(v, 8);
    var f := ValueField(pad, v, trail);
    forall i | 0 <= i < |f| ensures f[i] != 'A' && f[i] != 'X' {
      if i < |pad| {
        assert f[i] == pad[i];
      } else if i < |pad| + 8 {
        assert f[i] == hex[i - |pad|];
      } else {
        assert f[i] == trail[i - |pad| - 8];
      }
    }
  }

  /** The value field strips and parses back to `v`. */
  lemma ValueFieldParses(pad: string, v: nat, trail: string)
    requires v < Text.Pow(16, 8)
    requires Text.AllSpace(pad) && Text.AllSpace(trail)
    ensures Text.ParseInt(Text.Strip(ValueField(pad, v, trail)), 16) == Ok(v)
  {
    var hex := Text.HexDigits(v, 8);
    assert !Text.IsSpace(hex[0]) && !Text.IsSpace(hex[7]);
    Text.StripSurrounded(pad, hex, trail);
    Text.ParseHex(v, 8);
  }

  /** An X line whose prefix holds no 'X' yields the horizontal zone of
      the value it carries. */
  lemma TouchLineX(p: string, pad: string, v: nat, trail: string, width: int, height: int)
    requires 'X' !in p
    requires v < Text.Pow(16, 8)
    requires Text.AllSpace(pad) && Text.AllSpace(trail)
    ensures ParseTouchEvent(p + X_TOKEN + ValueField(pad, v, trail), width, height) == Ok(Zone(v, width, "left", "right"))
  {
    var rest := ValueField(pad, v, trail);
    ValueFieldLetters(pad, v, trail);
    ValueFieldParses(pad, v, trail);
    TokenThenField(p, X_TOKEN, rest);
  }

  /** A Y line whose prefix holds neither 'X' nor 'Y' yields the vertical
      zone of the value it carries. */
  lemma TouchLineY(p: string, pad: string, v: nat, trail: string, width: int, height: int)
    requires 'X' !in p && 'Y' !in p
    requires v < Text.Pow(16, 8)
    requires Text.AllSpace(pad) && Text.AllSpace(trail)
    ensures ParseTouchEvent(p + Y_TOKEN + ValueField(pad, v, trail), width, height) == Ok(Zone(v, height, "up", "down"))
  {
    var rest := ValueField(pad, v, trail);
    ValueFieldLetters(pad, v, trail);
    ValueFieldParses(pad, v, trail);
    TokenThenField(p, Y_TOKEN, rest);
    NoXToken(p, rest);
  }

  /** A position token after a prefix free of its final letter, followed
      by text without an 'A', is found and split off exactly there. */
  lemma TokenThenField(p: string, token: string, rest: string)
    requires token == X_TOKEN || token == Y_TOKEN
    requires token[16] !in p && 'A' !in rest
    ensures Text.Contains(p + token + rest, token)
    ensures Text.LastPiece(p + token + rest, token) == rest
  {
    Text.NotContainsByChar(rest, token, 0);
    Text.FindAfterPrefix(p, token, rest);
    Text.LastPieceAfterPrefix(p, token, rest);
  }

  /** With no 'X' in the prefix or the value field, a Y line cannot
      contain the X token. */
  lemma NoXToken(p: string, rest: string)
    requires 'X' !in p && 'X' !in rest
    ensures !Text.Contains(p + Y_TOKEN + rest, X_TOKEN)
  {
    var line := p + Y_TOKEN + rest;
    forall i | 0 <= i < |line| ensures line[i] != X_TOKEN[16] {
      if i < |p| {
        assert line[i] == p[i];
      } else if i < |p| + |Y_TOKEN| {
        assert line[i] == Y_TOKEN[i - |p|];
      } else {
        assert line[i] == rest[i - |p| - |Y_TOKEN|];
      }
    }
    Text.NotContainsByChar(line, X_TOKEN, 16);
  }

  // ---------------------------------------------------------------------
  // Screen size
  // ---------------------------------------------------------------------

  /** The width and height in the output of `wm size`: the last
      whitespace-separated word, split on 'x' into exactly two integers. */
  function ParseScreenSize(output: string): (r: Result<(int, int)>)
    ensures r.Err? ==> r.error == IndexError || r.error == ValueError
    ensures r == Err(IndexError) <==> Text.AllSpace(output)
  {
    Text.StripBlank(output);
    match Text.LastWord(Text.Strip(output))
    case None => Err(IndexError)
    case Some(word) =>
      var parts := Text.SplitChar(word, 'x');
      if |parts| != 2 then Err(ValueError)
      else
        var width :- Text.ParseInt(parts[0], 10);
        var height :- Text.ParseInt(parts[1], 10);
        Ok((width, height))
  }

  /** What reading the screen size gives: CalledProcessError when `wm size`
      exits non-zero, otherwise the parse of its output. */
  function ScreenSize(wmExitStatus: int, output: string): Result<(int, int)> {
    if wmExitStatus != 0 then Err(CalledProcessError) else ParseScreenSize(output)
  }

  /** `Physical size: <w>x<h>` and similar outputs give back the two
      numbers, whatever text precedes the last word. */
  lemma ScreenSizeOf(p: string, width: nat, height: nat, q: string)
    requires p == [] || (!Text.IsSpace(p[0]) && Text.IsSpace(p[|p| - 1]))
    requires Text.AllSpace(q)
    ensures ParseScreenSize(p + (Text.Dec(width) + "x" + Text.Dec(height)) + q) == Ok((width, height))
  {
    var dw, dh := Text.Dec(width), Text.Dec(height);
    var word := dw + "x" + dh;
    SizeWordShape(width, height);
    LastWordAmidSpace(p, word, q);
    Text.SplitTwo(dw, 'x', dh);
    Text.ParseDec(width);
    Text.ParseDec(height);
    ScreenSizeOfWord(p + word + q, word, dw, dh, width, height);
  }

  /** `<w>x<h>` is one word, and 'x' occurs in it only as the separator. */
  lemma SizeWordShape(width: nat, height: nat)
    ensures var dw, dh := Text.Dec(width), Text.Dec(height);
      Text.NoSpace(dw + "x" + dh) && 'x' !in dw && 'x' !in dh
  {
    var dw, dh := Text.Dec(width), Text.Dec(height);
    var word := dw + "x" + dh;
    Text.DecDigits(width);
    Text.DecDigits(height);
    forall i | 0 <= i < |word| ensures !Text.IsSpace(word[i]) {
      if i < |dw| {
        assert word[i] == dw[i];
      } else if i > |dw| {
        assert word[i] == dh[i - |dw| - 1];
      }
    }
  }

  /** A word after a prefix that ends in whitespace, followed only by
      whitespace, is the last word of the stripped text. */
  lemma LastWordAmidSpace(p: string, word: string, q: string)
    requires p == [] || (!Text.IsSpace(p[0]) && Text.IsSpace(p[|p| - 1]))
    requires word != [] && Text.NoSpace(word) && Text.AllSpace(q)
    ensures Text.LastWord(Text.Strip(p + word + q)) == Some(word)
  {
    var core := p + word;
    assert core[|core| - 1] == word[|word| - 1];
    assert core[0] == if p == [] then word[0] else p[0];
    Text.StripSurrounded([], core, q);
    assert [] + core + q == p + word + q;
    Text.LastWordOf(p, word, []);
    assert p + word + [] == core;
  }

  /** The parse succeeds once its last word splits into two numbers. */
  lemma ScreenSizeOfWord(output: string, word: string, dw: string, dh: string, width: int, height: int)
    requires Text.LastWord(Text.Strip(output)) == Some(word)
    requires Text.SplitChar(word, 'x') == [dw, dh]
    requires Text.ParseInt(dw, 10) == Ok(width) && Text.ParseInt(dh, 10) == Ok(height)
    ensures ParseScreenSize(output) == Ok((width, height))
  {
  }

  // ---------------------------------------------------------------------
  // The recording loop
  // ---------------------------------------------------------------------

  /** How the loop reads one line of getevent output. The loop's own
      properties hold for any such reader; `Touch` is the one in use. */
  type LineReader = string -> Result<Option<string>>

  /** `parse_touch_event` with the screen size read at start-up. */
  function Touch(width: int, height: int): LineReader {
    line => ParseTouchEvent(line, width, height)
  }

  /** A reader whose moves are all among the label directories. */
  ghost predicate MovesInActions(read: LineReader) {
    forall line :: read(line).Ok? && read(line).value.Some? ==> read(line).value.value in ACTIONS
  }

  lemma TouchMovesInActions(width: int, height: int)
    ensures MovesInActions(Touch(width, height))
  {
  }

  /** A line read from the getevent process, with the clock reading (ms)
      taken if the line turns out to be a move. The empty text is the end
      of the stream; `readline` keeps returning it from then on. */
  datatype TimedLine = TimedLine(text: string, clock: int)

  /** `last_action` and `last_action_time`. */
  datatype Tracker = Tracker(action: string, stamp: int)

  /** What one pass of the event loop meets: the end of the stream at
      `pos`, with the tracker it leaves; no end before the supplied lines
      run out, so `readline` blocks; or an exception from the reader. */
  datatype Drained = Eof(pos: nat, tracker: Tracker) | Blocked | Raised(error: Error)

  /** One line: a move replaces the tracker, anything else leaves it. */
  function Observe(t: Tracker, line: TimedLine, read: LineReader): (r: Result<Tracker>)
    ensures r.Ok? && read(line.text).Ok? && read(line.text).value.Some? ==>
      r.value == Tracker(read(line.text).value.value, line.clock)
    ensures r.Ok? && read(line.text) == Ok(None) ==> r.value == t
    ensures r.Err? <==> read(line.text).Err?
  {
    match read(line.text)
    case Err(e) => Err(e)
    case Ok(None) => Ok(t)
    case Ok(Some(a)) => Ok(Tracker(a, line.clock))
  }

  /** Line `j` of the stream reads as a move. */
  predicate IsMove(stream: seq<TimedLine>, j: int, read: LineReader)
    requires 0 <= j < |stream|
  {
    read(stream[j].text).Ok? && read(stream[j].text).value.Some?
  }

  /** Line `j` is the last move among lines `from` up to `end`. */
  predicate LastMove(stream: seq<TimedLine>, from: int, end: int, j: int, read: LineReader)
    requires 0 <= from && end <= |stream|
  {
    from <= j < end && IsMove(stream, j, read) &&
    forall k :: j < k < end ==> !IsMove(stream, k, read)
  }

  /** The inner `while` loop from position `pos`: read lines until the
      empty one, folding every move into the tracker. */
  function Drain(stream: seq<TimedLine>, pos: nat, t: Tracker, read: LineReader): (d: Drained)
    decreases |stream| - pos
    ensures d.Eof? ==> pos <= d.pos < |stream| && stream[d.pos].text == ""
    ensures d.Eof? ==> forall j :: pos <= j < d.pos ==> stream[j].text != ""
    ensures d.Blocked? ==> forall j :: pos <= j < |stream| ==> stream[j].text != ""
    ensures d.Raised? ==> exists j :: pos <= j < |stream| && read(stream[j].text) == Err(d.error)
  {
    if pos >= |stream| then Blocked
    else if stream[pos].text == "" then Eof(pos, t)
    else
      match Observe(t, stream[pos], read)
      case Err(e) => Raised(e)
      case Ok(t') => Drain(stream, pos + 1, t', read)
  }

  /** A pass that reached the end of the stream read every line without
      an exception. */
  lemma {:induction false} DrainReadsOk(stream: seq<TimedLine>, pos: nat, t: Tracker, read: LineReader)
    requires pos <= |stream|
    decreases |stream| - pos
    ensures var d := Drain(stream, pos, t, read);
      d.Eof? ==> forall j :: pos <= j < d.pos ==> read(stream[j].text).Ok?
  {
    if pos < |stream| && stream[pos].text != "" {
      var r := Observe(t, stream[pos], read);
      if r.Ok? {
        DrainReadsOk(stream, pos + 1, r.value, read);
      }
    }
  }

  /** After a pass that reached the end of the stream, the tracker holds
      the last move read and the clock reading taken with it, and without
      a move it is unchanged. */
  lemma {:induction false} DrainLastMoveWins(stream: seq<TimedLine>, pos: nat, t: Tracker, read: LineReader)
    requires pos <= |stream|
    decreases |stream| - pos
    ensures var d := Drain(stream, pos, t, read);
      d.Eof? && (forall j :: pos <= j < d.pos ==> !IsMove(stream, j, read)) ==> d.tracker == t
    ensures var d := Drain(stream, pos, t, read);
      d.Eof? ==> forall j :: LastMove(stream, pos, d.pos, j, read) ==>
        d.tracker == Tracker(read(stream[j].text).value.value, stream[j].clock)
  {
    if pos < |stream| && stream[pos].text != "" {
      var r := Observe(t, stream[pos], read);
      if r.Ok? {
        DrainLastMoveWins(stream, pos + 1, r.value, read);
        var d := Drain(stream, pos, t, read);
        assert d == Drain(stream, pos + 1, r.value, read);
        if d.Eof? {
          forall j | LastMove(stream, pos, d.pos, j, read)
            ensures d.tracker == Tracker(read(stream[j].text).value.value, stream[j].clock)
          {
            if j > pos {
              assert LastMove(stream, pos + 1, d.pos, j, read);
            } else {
              assert forall k :: pos + 1 <= k < d.pos ==> !IsMove(stream, k, read);
            }
          }
          if forall j :: pos <= j < d.pos ==> !IsMove(stream, j, read) {
            assert !IsMove(stream, pos, read);
          }
        }
      }
    }
  }

  /** A pass that starts at the end of the stream reads nothing and changes
      nothing, so after the process exits every round keeps its tracker. */
  lemma DrainAtEof(stream: seq<TimedLine>, pos: nat, t: Tracker, u: Tracker, read: LineReader)
    requires Drain(stream, pos, t, read).Eof?
    ensures var e := Drain(stream, pos, t, read).pos;
      Drain(stream, e, u, read) == Eof(e, u)
  {
  }

  /** A pass keeps the label among the label directories. */
  lemma {:induction false} DrainKeepsActions(stream: seq<TimedLine>, pos: nat, t: Tracker, read: LineReader)
    requires t.action in ACTIONS && MovesInActions(read)
    decreases |stream| - pos
    ensures var d := Drain(stream, pos, t, read);
      d.Eof? ==> d.tracker.action in ACTIONS
  {
    if pos < |stream| && stream[pos].text != "" {
      var r := Observe(t, stream[pos], read);
      if r.Ok? {
        DrainKeepsActions(stream, pos + 1, r.value, read);
      }
    }
  }

  /** The idle rule: more than IDLE_MS since the last move (strictly)
      makes the label "running"; the move's time stays as it was. */
  function Decay(t: Tracker, now: int): (r: Tracker)
    ensures r.stamp == t.stamp
    ensures r.action == "running" || r.action == t.action
    ensures r.action != t.action ==> now - t.stamp > IDLE_MS
    ensures now - t.stamp > IDLE_MS ==> r.action == "running"
  {
    if now - t.stamp > IDLE_MS then t.(action := "running") else t
  }

  /** Decaying twice is decaying at the later time: since the move's time
      is kept, an idle label stays "running" until the next move. */
  lemma DecayLater(t: Tracker, now: int, later: int)
    requires now <= later
    ensures Decay(Decay(t, now), later) == Decay(t, later)
    ensures Decay(t, now).action == "running" ==> Decay(t, later).action == "running"
  {
  }

  /** Exactly IDLE_MS after a move the label is kept; one ms later it is
      "running". */
  lemma DecayIsStrict(a: string, stamp: int)
    ensures Decay(Tracker(a, stamp), stamp + IDLE_MS).action == a
    ensures Decay(Tracker(a, stamp), stamp + IDLE_MS + 1).action == "running"
  {
  }

  /** The inputs of one round of the outer loop: the clock reading (ms)
      used by the idle rule, the `strftime` timestamp of the frame name,
      and whether the pulled screenshot could be read. */
  datatype Cycle = Cycle(now: int, timestamp: string, readable: bool)

  /** A screenshot written to disk under a label. */
  datatype SavedFrame = SavedFrame(action: string, timestamp: string) {
    /** `base_dir / last_action / f"frame_{timestamp}.jpg"`. */
    function Path(): string {
      Paths.Join(Paths.Join(BASE_DIR, action), "frame_" + timestamp + ".jpg")
    }
  }

  /** What a recording session amounts to: the frames saved, the number
      of screenshots pulled, and how it ended. */
  datatype Session = Session(frames: seq<SavedFrame>, screenshots: nat, outcome: Outcome)

  /** The outer loop over the supplied rounds, from event position `pos`
      and tracker `t`. The interrupt that ends the loop arrives after the
      last round, or while `readline` blocks. */
  function Record(stream: seq<TimedLine>, pos: nat, t: Tracker, cycles: seq<Cycle>, read: LineReader): (s: Session)
    decreases |cycles|
    ensures s.screenshots <= |cycles|
    ensures |s.frames| <= s.screenshots
    ensures cycles != [] ==> s.screenshots >= 1
  {
    if cycles == [] then Session([], 0, Pass)
    else
      match Drain(stream, pos, t, read)
      case Blocked => Session([], 1, Pass)
      case Raised(e) => Session([], 1, Fail(e))
      case Eof(e, t') =>
        var t2 := Decay(t', cycles[0].now);
        var saved := if cycles[0].readable then [SavedFrame(t2.action, cycles[0].timestamp)] else [];
        var rest := Record(stream, e, t2, cycles[1..], read);
        Session(saved + rest.frames, 1 + rest.screenshots, rest.outcome)
  }

  /** Every frame is filed under one of the label directories. */
  predicate InActionDirs(frames: seq<SavedFrame>) {
    forall k :: 0 <= k < |frames| ==> frames[k].action in ACTIONS
  }

  /** Every saved frame lies in one of the label directories created at
      start-up. */
  lemma {:induction false} RecordLabelsInActions(stream: seq<TimedLine>, pos: nat, t: Tracker, cycles: seq<Cycle>, read: LineReader)
    requires t.action in ACTIONS && MovesInActions(read)
    decreases |cycles|
    ensures InActionDirs(Record(stream, pos, t, cycles, read).frames)
  {
    if cycles != [] {
      DrainKeepsActions(stream, pos, t, read);
      match Drain(stream, pos, t, read)
      case Blocked =>
      case Raised(e) =>
      case Eof(e, t') =>
        var t2 := Decay(t', cycles[0].now);
        assert t2.action in ACTIONS by {
          assert "running" == ACTIONS[2];
        }
        RecordLabelsInActions(stream, e, t2, cycles[1..], read);
        var rest := Record(stream, e, t2, cycles[1..], read);
        var saved := if cycles[0].readable then [SavedFrame(t2.action, cycles[0].timestamp)] else [];
        assert Record(stream, pos, t, cycles, read).frames == saved + rest.frames;
    }
  }

  /** The number of rounds whose screenshot could be read. */
  function Readable(cycles: seq<Cycle>): (n: nat)
    ensures n <= |cycles|
  {
    if cycles == [] then 0 else (if cycles[0].readable then 1 else 0) + Readable(cycles[1..])
  }

  /** Once the event process has ended, the remaining rounds all complete:
      one screenshot per round and one frame per readable screenshot. */
  lemma {:induction false} RecordAfterEof(stream: seq<TimedLine>, pos: nat, t: Tracker, cycles: seq<Cycle>, read: LineReader)
    requires Drain(stream, pos, t, read).Eof?
    decreases |cycles|
    ensures var s := Record(stream, pos, t, cycles, read);
      s.outcome == Pass && s.screenshots == |cycles| && |s.frames| == Readable(cycles)
  {
    if cycles != [] {
      var d := Drain(stream, pos, t, read);
      var t2 := Decay(d.tracker, cycles[0].now);
      DrainAtEof(stream, pos, t, t2, read);
      RecordAfterEof(stream, d.pos, t2, cycles[1..], read);
    }
  }

  /** `adb shell wm size`, which prints the screen size. */
  function WmSizeCommand(adb: string): AdbController.Command {
    [adb, "shell", "wm", "size"]
  }

  /** `adb shell getevent -l`, the touch-event monitor. */
  function GeteventCommand(adb: string): AdbController.Command {
    [adb, "shell", "getevent", "-l"]
  }

  lemma AppendTwo<T>(a: seq<T>, x: T, y: T)
    ensures a + [x] + [y] == a + [x, y]
  {
  }

  /** `n` runs of the screenshot commands. */
  function Screenshots(adb: string, n: nat): (cs: seq<AdbController.Command>)
    ensures |cs| == 3 * n
  {
    if n == 0 then [] else Screenshots(adb, n - 1) + AdbController.ScreenshotCommands(adb, SCREENSHOT_PATH)
  }

  /** `DataGatherer`: the controller it drives, the screen size it reads,
      and the frames it has saved so far. */
  class DataGatherer {
    const adb: AdbController.ADBController
    var screenWidth: int
    var screenHeight: int
    var saved: seq<SavedFrame>

    constructor (adb: AdbController.ADBController)
      ensures this.adb == adb && saved == []
    {
      this.adb := adb;
      saved := [];
    }

    /** The inner event loop of one round: read until the empty line,
        keeping the last move and its time. `parse` is the bound
        `self.parse_touch_event`. */
    method DrainEvents(stream: seq<TimedLine>, pos: nat, t: Tracker, parse: LineReader) returns (d: Drained)
      requires pos <= |stream|
      ensures d == Drain(stream, pos, t, parse)
    {
      var i := pos;
      var lastAction := t.action;
      var lastActionTime := t.stamp;
      while true
        invariant pos <= i <= |stream|
        invariant Drain(stream, i, Tracker(lastAction, lastActionTime), parse) == Drain(stream, pos, t, parse)
        decreases |stream| - i
      {
        if i == |stream| {
          return Blocked;
        }
        var line := stream[i];
        if line.text == "" {
          return Eof(i, Tracker(lastAction, lastActionTime));
        }
        var action := parse(line.text);
        if action.Err? {
          return Raised(action.error);
        }
        if action.value.Some? {
          lastAction := action.value.value;
          lastActionTime := line.clock;
        }
        i := i + 1;
      }
    }

    /** `gather_data`: read the screen size, start the event monitor, then
        run the recording loop. `wm size` runs under `check_output`, so a
        non-zero exit status raises before anything else happens. */
    method GatherData(wmExitStatus: int, wmSize: string, startClock: int, stream: seq<TimedLine>, cycles: seq<Cycle>)
      returns (o: Outcome)
      modifies this, adb
      ensures ScreenSize(wmExitStatus, wmSize).Err? ==>
        o == Fail(ScreenSize(wmExitStatus, wmSize).error) && saved == old(saved)
        && screenWidth == old(screenWidth) && screenHeight == old(screenHeight)
        && adb.log == old(adb.log) + [WmSizeCommand(adb.adbPath)]
      ensures ScreenSize(wmExitStatus, wmSize).Ok? ==>
        var (w, h) := ScreenSize(wmExitStatus, wmSize).value;
        var s := Record(stream, 0, Tracker("running", startClock), cycles, Touch(w, h));
        screenWidth == w && screenHeight == h && o == s.outcome && saved == old(saved) + s.frames
        && adb.log == old(adb.log) + [WmSizeCommand(adb.adbPath), GeteventCommand(adb.adbPath)]
          + Screenshots(adb.adbPath, s.screenshots)
    {
      var size := ReadScreenSize(wmExitStatus, wmSize, ParseScreenSize);
      if size.Err? {
        return Fail(size.error);
      }
      adb.Issue(GeteventCommand(adb.adbPath));
      var parse := Touch(screenWidth, screenHeight);
      ghost var logBefore := adb.log;
      AppendTwo(old(adb.log), WmSizeCommand(adb.adbPath), GeteventCommand(adb.adbPath));
      o := RecordingLoop(startClock, stream, cycles, parse);
      ghost var s := Record(stream, 0, Tracker("running", startClock), cycles, parse);
      assert adb.log == logBefore + Screenshots(adb.adbPath, s.screenshots);
      assert parse == Touch(size.value.0, size.value.1);
    }

    /** `wm size` under `check_output` and the parse of its output into the
        screen fields; `sizeOf` is the parse, passed in as a value. The
        fields change only when both succeed. */
    method ReadScreenSize(wmExitStatus: int, wmSize: string, sizeOf: string -> Result<(int, int)>)
      returns (size: Result<(int, int)>)
      modifies this, adb
      ensures wmExitStatus != 0 ==> size == Err(CalledProcessError)
      ensures wmExitStatus == 0 ==> size == sizeOf(wmSize)
      ensures saved == old(saved)
      ensures size.Ok? ==> screenWidth == size.value.0 && screenHeight == size.value.1
      ensures size.Err? ==> screenWidth == old(screenWidth) && screenHeight == old(screenHeight)
      ensures adb.log == old(adb.log) + [WmSizeCommand(adb.adbPath)]
    {
      adb.Issue(WmSizeCommand(adb.adbPath));
      if wmExitStatus != 0 {
        return Err(CalledProcessError);
      }
      size := sizeOf(wmSize);
      if size.Ok? {
        screenWidth, screenHeight := size.value.0, size.value.1;
      }
    }

    /** The `while True` loop of `gather_data`, starting from "running" at
        the start-up clock reading, parsing lines with `parse`. */
    method RecordingLoop(startClock: int, stream: seq<TimedLine>, cycles: seq<Cycle>, parse: LineReader) returns (o: Outcome)
      modifies this, adb
      ensures screenWidth == old(screenWidth) && screenHeight == old(screenHeight)
      ensures var s := Record(stream, 0, Tracker("running", startClock), cycles, parse);
        o == s.outcome && saved == old(saved) + s.frames
        && adb.log == old(adb.log) + Screenshots(adb.adbPath, s.screenshots)
    {
      ghost var whole := Record(stream, 0, Tracker("running", startClock), cycles, parse);
      var pos: nat := 0;
      var tracker := Tracker("running", startClock);
      var k := 0;
      ghost var frames: seq<SavedFrame> := [];
      ProgressStart(stream, tracker, cycles, parse);
      while k < |cycles|
        invariant pos <= |stream|
        invariant screenWidth == old(screenWidth) && screenHeight == old(screenHeight)
        invariant saved == old(saved) + frames
        invariant adb.log == old(adb.log) + Screenshots(adb.adbPath, k)
        invariant Progress(stream, cycles, parse, whole, k, pos, tracker, frames)
        decreases |cycles| - k
      {
        var r;
        r, frames := LoopRound(stream, pos, tracker, cycles, k, parse, whole, frames, old(saved), old(adb.log));
        if !r.Eof? {
          return RoundOutcome(r);
        }
        pos, tracker := r.pos, r.tracker;
        k := k + 1;
      }
      ProgressDone(stream, cycles, parse, whole, k, pos, tracker, frames);
      return Pass;
    }

    /** Round `k` of the recording loop, carrying the loop's invariant: the
        frames saved so far and the commands issued so far, measured from
        `start` and `startLog`, account for rounds before `k`. */
    method LoopRound(stream: seq<TimedLine>, pos: nat, t: Tracker, cycles: seq<Cycle>, k: nat, parse: LineReader,
                     ghost whole: Session, ghost frames: seq<SavedFrame>,
                     ghost start: seq<SavedFrame>, ghost startLog: seq<AdbController.Command>)
      returns (r: Drained, ghost frames': seq<SavedFrame>)
      requires k < |cycles| && pos <= |stream|
      requires saved == start + frames && adb.log == startLog + Screenshots(adb.adbPath, k)
      requires Progress(stream, cycles, parse, whole, k, pos, t, frames)
      modifies this, adb
      ensures screenWidth == old(screenWidth) && screenHeight == old(screenHeight)
      ensures saved == start + frames' && adb.log == startLog + Screenshots(adb.adbPath, k + 1)
      ensures r.Eof? ==> r.pos <= |stream| && Progress(stream, cycles, parse, whole, k + 1, r.pos, r.tracker, frames')
      ensures !r.Eof? ==> whole == Session(frames', k + 1, RoundOutcome(r))
    {
      ghost var savedBefore := saved;
      ghost var logBefore := adb.log;
      r := RecordRound(stream, pos, t, cycles[k..], parse);
      ScreenshotsStep(adb.adbPath, k, startLog, logBefore, adb.log);
      RoundStep(stream, pos, t, cycles, k, parse, whole, frames, start, savedBefore, saved, r);
      frames' := if r.Eof? then frames + saved[|savedBefore|..] else frames;
    }

    /** One round of the loop over the remaining rounds `cycles`:
        screenshot, drain the events, apply the idle rule, and save the
        frame under the label if it could be read. An `Eof` result carries
        the tracker after the idle rule. */
    method RecordRound(stream: seq<TimedLine>, pos: nat, t: Tracker, cycles: seq<Cycle>, parse: LineReader) returns (r: Drained)
      requires pos <= |stream| && cycles != []
      modifies this, adb
      ensures screenWidth == old(screenWidth) && screenHeight == old(screenHeight)
      ensures adb.log == old(adb.log) + AdbController.ScreenshotCommands(adb.adbPath, SCREENSHOT_PATH)
      ensures |old(saved)| <= |saved| && saved[..|old(saved)|] == old(saved)
      ensures r.Eof? ==> r.pos <= |stream|
      ensures r.Eof? ==> (Record(stream, pos, t, cycles, parse)
        == Prepend(saved[|old(saved)|..], 1, Record(stream, r.pos, r.tracker, cycles[1..], parse)))
      ensures !r.Eof? ==> saved == old(saved)
      ensures !r.Eof? ==> Record(stream, pos, t, cycles, parse) == Session([], 1, RoundOutcome(r))
    {
      adb.TakeScreenshot(SCREENSHOT_PATH);
      var d := DrainEvents(stream, pos, t, parse);
      if !d.Eof? {
        RecordStops(stream, pos, t, cycles, parse);
        return d;
      }
      RecordStep(stream, pos, t, cycles, parse);
      var lastAction, lastActionTime := d.tracker.action, d.tracker.stamp;
      if cycles[0].now - lastActionTime > IDLE_MS {
        lastAction := "running";
      }
      assert Tracker(lastAction, lastActionTime) == Decay(d.tracker, cycles[0].now);
      var added: seq<SavedFrame> := [];
      if cycles[0].readable {
        added := [SavedFrame(lastAction, cycles[0].timestamp)];
      }
      saved := saved + added;
      assert saved[|old(saved)|..] == added;
      return Eof(d.pos, Tracker(lastAction, lastActionTime));
    }
  }

  /** How a round that met no end of stream ends the loop. */
  function RoundOutcome(r: Drained): Outcome {
    if r.Raised? then Fail(r.error) else Pass
  }

  /** A session preceded by `n` completed rounds that saved `frames`. */
  function Prepend(frames: seq<SavedFrame>, n: nat, s: Session): Session {
    Session(frames + s.frames, n + s.screenshots, s.outcome)
  }

  lemma PrependTwice(a: seq<SavedFrame>, m: nat, b: seq<SavedFrame>, n: nat, s: Session)
    ensures Prepend(a, m, Prepend(b, n, s)) == Prepend(a + b, m + n, s)
  {
    assert a + (b + s.frames) == (a + b) + s.frames;
  }

  /** One completed round of the recording loop. */
  lemma RecordStep(stream: seq<TimedLine>, pos: nat, t: Tracker, cycles: seq<Cycle>, read: LineReader)
    requires cycles != [] && Drain(stream, pos, t, read).Eof?
    ensures var d := Drain(stream, pos, t, read);
      var t2 := Decay(d.tracker, cycles[0].now);
      var saved := if cycles[0].readable then [SavedFrame(t2.action, cycles[0].timestamp)] else [];
      Record(stream, pos, t, cycles, read) == Prepend(saved, 1, Record(stream, d.pos, t2, cycles[1..], read))
  {
  }

  /** A round that meets no end of stream is the last one. */
  lemma RecordStops(stream: seq<TimedLine>, pos: nat, t: Tracker, cycles: seq<Cycle>, read: LineReader)
    requires cycles != [] && !Drain(stream, pos, t, read).Eof?
    ensures Record(stream, pos, t, cycles, read) == Session([], 1, RoundOutcome(Drain(stream, pos, t, read)))
  {
  }

  /** The recording loop after `k` rounds: the whole session `whole` is
      the frames saved so far, then the session the remaining rounds give
      from stream position `pos` and tracker `t`. */
  ghost predicate Progress(stream: seq<TimedLine>, cycles: seq<Cycle>, read: LineReader, whole: Session,
                           k: nat, pos: nat, t: Tracker, frames: seq<SavedFrame>)
  {
    k <= |cycles| && whole == Prepend(frames, k, Record(stream, pos, t, cycles[k..], read))
  }

  lemma ProgressStart(stream: seq<TimedLine>, t: Tracker, cycles: seq<Cycle>, read: LineReader)
    ensures Progress(stream, cycles, read, Record(stream, 0, t, cycles, read), 0, 0, t, [])
  {
    assert cycles[0..] == cycles;
    var s := Record(stream, 0, t, cycles, read);
    assert [] + s.frames == s.frames;
  }

  lemma ProgressDone(stream: seq<TimedLine>, cycles: seq<Cycle>, read: LineReader, whole: Session,
                     k: nat, pos: nat, t: Tracker, frames: seq<SavedFrame>)
    requires Progress(stream, cycles, read, whole, k, pos, t, frames) && k >= |cycles|
    ensures whole == Session(frames, k, Pass)
  {
    assert cycles[k..] == [] && frames + [] == frames;
  }

  /** The recording loop's invariant carried across one round: `whole` is
      the session from the start, `frames` the frames saved before round
      `k`, and `before`/`after` the saved list around the round. */
  lemma RoundStep(stream: seq<TimedLine>, pos: nat, t: Tracker, cycles: seq<Cycle>, k: nat, read: LineReader,
                  whole: Session, frames: seq<SavedFrame>, start: seq<SavedFrame>,
                  before: seq<SavedFrame>, after: seq<SavedFrame>, r: Drained)
    requires k < |cycles| && before == start + frames
    requires whole == Prepend(frames, k, Record(stream, pos, t, cycles[k..], read))
    requires |before| <= |after| && after[..|before|] == before
    requires r.Eof? ==> (Record(stream, pos, t, cycles[k..], read)
      == Prepend(after[|before|..], 1, Record(stream, r.pos, r.tracker, cycles[k..][1..], read)))
    requires !r.Eof? ==> after == before
    requires !r.Eof? ==> Record(stream, pos, t, cycles[k..], read) == Session([], 1, RoundOutcome(r))
    ensures r.Eof? ==> after == start + (frames + after[|before|..])
    ensures r.Eof? ==> whole == Prepend(frames + after[|before|..], k + 1, Record(stream, r.pos, r.tracker, cycles[k + 1..], read))
    ensures !r.Eof? ==> whole == Session(frames, k + 1, RoundOutcome(r)) && after == start + frames
  {
    var added := after[|before|..];
    assert after == before + added;
    if r.Eof? {
      assert cycles[k..][1..] == cycles[k + 1..];
      PrependTwice(frames, k, added, 1, Record(stream, r.pos, r.tracker, cycles[k + 1..], read));
      AppendAssoc(start, frames, added);
    } else {
      assert frames + [] == frames;
    }
  }

  lemma AppendAssoc(a: seq<SavedFrame>, b: seq<SavedFrame>, c: seq<SavedFrame>)
    ensures (a + b) + c == a + (b + c)
  {
  }

  /** One more screenshot round extends the command log by one run. */
  lemma ScreenshotsStep(adb: string, k: nat, start: seq<AdbController.Command>, before: seq<AdbController.Command>, after: seq<AdbController.Command>)
    requires before == start + Screenshots(adb, k)
    requires after == before + AdbController.ScreenshotCommands(adb, SCREENSHOT_PATH)
    ensures after == start + Screenshots(adb, k + 1)
  {
    assert Screenshots(adb, k + 1) == Screenshots(adb, k) + AdbController.ScreenshotCommands(adb, SCREENSHOT_PATH);
  }
}
