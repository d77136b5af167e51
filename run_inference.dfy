/** The inference agent: a classifier's output row becomes a label by
    argmax and the action map, and the agent loop captures, predicts and
    dispatches once per iteration between starting and stopping the game. */
module RunInference {
  import opened Errors
  import AdbController

  /** `self.action_map`: class index to label. */
  const ACTION_MAP: map<int, string> := map[0 := "left", 1 := "right", 2 := "jump", 3 := "down", 4 := "running"]

  /** Where the agent pulls each screenshot to: `Path("temp") / "screenshot.png"`. */
  const SCREENSHOT_PATH := "temp/screenshot.png"

  /** `i` is the first index holding the maximum of `row`: nothing is
      larger anywhere, and everything before it is strictly smaller. */
  predicate FirstMax(row: seq<real>, i: int) {
    0 <= i < |row|
    && (forall j :: 0 <= j < |row| ==> row[j] <= row[i])
    && (forall j :: 0 <= j < i ==> row[j] < row[i])
  }

  /** `np.argmax` of a non-empty row, ties going to the lowest index. */
  function ArgMax(row: seq<real>): (i: nat)
    requires row != []
    decreases |row|
    ensures FirstMax(row, i)
  {
    if |row| == 1 then 0
    else
      var k := ArgMax(row[..|row| - 1]);
      if row[|row| - 1] > row[k] then |row| - 1 else k
  }

  /** There is only one first maximum. */
  lemma FirstMaxUnique(row: seq<real>, i: int, j: int)
    requires FirstMax(row, i) && FirstMax(row, j)
    ensures i == j
  {
    assert row[i] == row[j];
    assert !(i < j) && !(j < i);
  }

  /** `predict_action` on the classifier's output row: the label at the
      first maximum. An empty row makes `np.argmax` raise ValueError; an
      index the action map lacks raises KeyError. */
  function PredictAction(row: seq<real>): (r: Result<string>)
    ensures row == [] ==> r == Err(ValueError)
    ensures forall i :: FirstMax(row, i) ==> if i in ACTION_MAP then r == Ok(ACTION_MAP[i]) else r == Err(KeyError)
    ensures r.Ok? ==> r.value in AdbController.DISPATCHED
  {
    if row == [] then Err(ValueError)
    else
      var i := ArgMax(row);
      assert forall j :: FirstMax(row, j) ==> j == i by {
        forall j | FirstMax(row, j) ensures j == i {
          FirstMaxUnique(row, i, j);
        }
      }
      if i in ACTION_MAP then Ok(ACTION_MAP[i]) else Err(KeyError)
  }

  /** A five-way output row always gives a label that `perform_action`
      accepts. */
  lemma FiveWayPredictionDispatches(row: seq<real>)
    requires |row| == 5
    ensures PredictAction(row).Ok? && PredictAction(row).value in AdbController.DISPATCHED
  {
    var i := ArgMax(row);
    assert i in ACTION_MAP;
  }

  /** The documented example: the third class wins, so the agent jumps. */
  lemma PredictJumpExample()
    ensures PredictAction([0.1, 0.05, 0.7, 0.1, 0.05]) == Ok("jump")
  {
    var row := [0.1, 0.05, 0.7, 0.1, 0.05];
    assert FirstMax(row, 2);
  }

  /** Ties go to the lower index: an even row is read as "left". */
  lemma PredictTieGoesLeft(p: real)
    ensures PredictAction([p, p, p, p, p]) == Ok("left")
  {
    assert FirstMax([p, p, p, p, p], 0);
  }

  /** What a capture amounts to: the classifier's output row for the
      screenshot, or a screenshot that could not be read (`cv2.imread`
      gives None, and `preprocess_frame` raises on it). */
  datatype Capture = Unreadable | Predicted(row: seq<real>)

  /** The commands and outcome of the loop over the given captures; the
      interrupt arrives after the last of them. */
  datatype Episode = Episode(commands: seq<AdbController.Command>, outcome: Outcome)

  /** The `while True` loop of `run`: screenshot, classify, dispatch. */
  function Iterations(adb: string, captures: seq<Capture>): (r: Episode)
    decreases |captures|
    ensures r.outcome.Fail? ==> r.outcome.error in {ForeignCallError, ValueError, KeyError}
    ensures captures == [] ==> r == Episode([], Pass)
  {
    if captures == [] then Episode([], Pass)
    else
      var shot := AdbController.ScreenshotCommands(adb, SCREENSHOT_PATH);
      match captures[0]
      case Unreadable => Episode(shot, Fail(ForeignCallError))
      case Predicted(row) =>
        match PredictAction(row)
        case Err(e) => Episode(shot, Fail(e))
        case Ok(action) =>
          // `perform_action` accepts every label the action map produces
          var rest := Iterations(adb, captures[1..]);
          Episode(shot + AdbController.ActionCommands(adb, action) + rest.commands, rest.outcome)
  }

  /** A capture the agent can act on: readable, with a five-way row. */
  predicate FiveWay(c: Capture) {
    c.Predicted? && |c.row| == 5
  }

  /** The number of captures whose label swipes. */
  function Swipes(captures: seq<Capture>): (n: nat)
    requires forall k :: 0 <= k < |captures| ==> FiveWay(captures[k])
    ensures n <= |captures|
  {
    if captures == [] then 0
    else
      assert FiveWay(captures[0]);
      FiveWayPredictionDispatches(captures[0].row);
      (if PredictAction(captures[0].row).value == "running" then 0 else 1) + Swipes(captures[1..])
  }

  /** With every capture readable and five-way, the loop never raises: it
      runs until interrupted, issuing three screenshot commands and at most
      one swipe per iteration. */
  lemma {:induction false} FiveWayRunsToInterrupt(adb: string, captures: seq<Capture>)
    requires forall k :: 0 <= k < |captures| ==> FiveWay(captures[k])
    decreases |captures|
    ensures Iterations(adb, captures).outcome == Pass
    ensures |Iterations(adb, captures).commands| == 3 * |captures| + Swipes(captures)
  {
    if captures != [] {
      var row := captures[0].row;
      FiveWayPredictionDispatches(row);
      var action := PredictAction(row).value;
      assert action in {"left", "right", "jump", "down", "running"};
      FiveWayRunsToInterrupt(adb, captures[1..]);
      var rest := Iterations(adb, captures[1..]);
      assert Iterations(adb, captures)
        == Episode(AdbController.ScreenshotCommands(adb, SCREENSHOT_PATH) + AdbController.ActionCommands(adb, action) + rest.commands, rest.outcome);
    }
  }

  /** Each iteration starts with a screenshot: the loop's log opens with the
      three screenshot commands whenever there is a capture. */
  lemma IterationStartsWithScreenshot(adb: string, captures: seq<Capture>)
    requires captures != []
    ensures |Iterations(adb, captures).commands| >= 3
    ensures Iterations(adb, captures).commands[..3] == AdbController.ScreenshotCommands(adb, SCREENSHOT_PATH)
  {
  }

  /** `SubwaySurferAI`: the controller it drives (the loaded model is
      replaced by the rows it produces). */
  class SubwaySurferAI {
    const adb: AdbController.ADBController

    constructor (adb: AdbController.ADBController)
      ensures this.adb == adb
    {
      this.adb := adb;
    }

    /** `run`: start the game, loop over the captures, and stop the game in
        `finally` on every way out. */
    method Run(captures: seq<Capture>) returns (o: Outcome)
      modifies adb
      ensures var r := Iterations(adb.adbPath, captures);
        o == r.outcome
        && adb.log == old(adb.log) + [[adb.adbPath, "shell", "am", "start", "-n", AdbController.GAME_ACTIVITY]]
          + r.commands + [[adb.adbPath, "shell", "am", "force-stop", AdbController.GAME_PACKAGE]]
    {
      adb.StartGame();
      o := Loop(captures);
      adb.StopGame();
    }

    /** The `while True` loop: one screenshot, one prediction and one
        dispatch per iteration, until the interrupt or an exception. */
    method Loop(captures: seq<Capture>) returns (o: Outcome)
      modifies adb
      ensures var r := Iterations(adb.adbPath, captures);
        o == r.outcome && adb.log == old(adb.log) + r.commands
    {
      ghost var total := Iterations(adb.adbPath, captures);
      var k := 0;
      assert captures[0..] == captures;
      while k < |captures|
        invariant 0 <= k <= |captures|
        invariant old(adb.log) + total.commands == adb.log + Iterations(adb.adbPath, captures[k..]).commands
        invariant total.outcome == Iterations(adb.adbPath, captures[k..]).outcome
        decreases |captures| - k
      {
        ghost var logBefore := adb.log;
        adb.TakeScreenshot(SCREENSHOT_PATH);
        if captures[k].Unreadable? {
          IterationsStop(adb.adbPath, captures[k..]);
          return Fail(ForeignCallError);
        }
        var action := PredictAction(captures[k].row);
        if action.Err? {
          IterationsStop(adb.adbPath, captures[k..]);
          return Fail(action.error);
        }
        o := adb.PerformAction(action.value);
        IterationsStep(adb.adbPath, captures[k..], action.value, logBefore, adb.log);
        assert captures[k..][1..] == captures[k + 1..];
        k := k + 1;
      }
      return Pass;
    }
  }

  /** A capture the loop cannot act on ends it after the screenshot. */
  lemma IterationsStop(adb: string, captures: seq<Capture>)
    requires captures != []
    requires captures[0].Unreadable? || PredictAction(captures[0].row).Err?
    ensures Iterations(adb, captures).commands == AdbController.ScreenshotCommands(adb, SCREENSHOT_PATH)
    ensures Iterations(adb, captures).outcome
      == Fail(if captures[0].Unreadable? then ForeignCallError else PredictAction(captures[0].row).error)
  {
  }

  /** A dispatched capture adds its screenshot and action commands to the
      log and leaves the rest of the loop to the remaining captures. */
  lemma IterationsStep(adb: string, captures: seq<Capture>, action: string, before: seq<AdbController.Command>, after: seq<AdbController.Command>)
    requires captures != [] && captures[0].Predicted? && PredictAction(captures[0].row) == Ok(action)
    requires after == before + AdbController.ScreenshotCommands(adb, SCREENSHOT_PATH) + AdbController.ActionCommands(adb, action)
    ensures before + Iterations(adb, captures).commands == after + Iterations(adb, captures[1..]).commands
    ensures Iterations(adb, captures).outcome == Iterations(adb, captures[1..]).outcome
  {
    var shot := AdbController.ScreenshotCommands(adb, SCREENSHOT_PATH);
    var act := AdbController.ActionCommands(adb, action);
    var rest := Iterations(adb, captures[1..]).commands;
    assert Iterations(adb, captures).commands == shot + act + rest;
    Regroup(before, shot, act, rest);
  }

  lemma Regroup<T>(a: seq<T>, b: seq<T>, c: seq<T>, d: seq<T>)
    ensures a + (b + c + d) == a + b + c + d
  {
  }
}
