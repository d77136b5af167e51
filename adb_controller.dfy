/** The ADB controller: locating the adb executable, checking the device
    connection, and turning game actions into `adb` command lines. Every
    subprocess call is modelled as the argument vector it passes, appended
    to the controller's command log; the process itself is not run. */
module AdbController {
  import opened Errors
  import Text
  import Paths

  /** One `subprocess.run` argument vector. */
  type Command = seq<string>

  /** An `adb shell input swipe x1 y1 x2 y2 duration` gesture. */
  datatype Swipe = Swipe(x1: nat, y1: nat, x2: nat, y2: nat, durationMs: nat)

  const SWIPE_LEFT := Swipe(500, 1000, 100, 1000, 100)
  const SWIPE_RIGHT := Swipe(100, 1000, 500, 1000, 100)
  const SWIPE_UP := Swipe(300, 1000, 300, 500, 100)
  const SWIPE_DOWN := Swipe(300, 500, 300, 1000, 100)

  const GAME_PACKAGE := "com.kiloo.subwaysurf"
  const GAME_ACTIVITY := "com.kiloo.subwaysurf/.SubwaySurf"
  const DEVICE_SCREENSHOT := "/sdcard/screenshot.png"

  /** The labels `perform_action` accepts. */
  const DISPATCHED: set<string> := {"left", "right", "jump", "down", "running"}

  predicate MovesLeft(s: Swipe) { s.x2 < s.x1 && s.y2 == s.y1 }
  predicate MovesRight(s: Swipe) { s.x2 > s.x1 && s.y2 == s.y1 }
  predicate MovesUp(s: Swipe) { s.y2 < s.y1 && s.x2 == s.x1 }
  predicate MovesDown(s: Swipe) { s.y2 > s.y1 && s.x2 == s.x1 }

  /** The argument vector of a swipe, numbers written in decimal. */
  function SwipeCommand(adb: string, s: Swipe): (c: Command)
    ensures |c| == 9 && c[0] == adb && c[1..4] == ["shell", "input", "swipe"]
  {
    [adb, "shell", "input", "swipe",
     Text.Dec(s.x1), Text.Dec(s.y1), Text.Dec(s.x2), Text.Dec(s.y2), Text.Dec(s.durationMs)]
  }

  /** The decimal renderings the four gestures use. */
  lemma DecLiterals()
    ensures Text.Dec(100) == "100" && Text.Dec(300) == "300"
    ensures Text.Dec(500) == "500" && Text.Dec(1000) == "1000"
  {
    assert Text.Dec(1) == "1" && Text.Dec(3) == "3" && Text.Dec(5) == "5";
    assert Text.Dec(10) == "10" && Text.Dec(30) == "30" && Text.Dec(50) == "50";
    assert Text.Dec(100) == "100";
  }

  /** The argument vectors of the four gestures, written out. */
  lemma SwipeCommandLiterals(adb: string)
    ensures SwipeCommand(adb, SWIPE_LEFT) == [adb, "shell", "input", "swipe", "500", "1000", "100", "1000", "100"]
    ensures SwipeCommand(adb, SWIPE_RIGHT) == [adb, "shell", "input", "swipe", "100", "1000", "500", "1000", "100"]
    ensures SwipeCommand(adb, SWIPE_UP) == [adb, "shell", "input", "swipe", "300", "1000", "300", "500", "100"]
    ensures SwipeCommand(adb, SWIPE_DOWN) == [adb, "shell", "input", "swipe", "300", "500", "300", "1000", "100"]
  {
    DecLiterals();
  }

  /** The numeric arguments of a swipe command read back as the swipe. */
  lemma SwipeCommandArguments(adb: string, s: Swipe)
    ensures var c := SwipeCommand(adb, s);
      Text.ParseInt(c[4], 10) == Ok(s.x1) && Text.ParseInt(c[5], 10) == Ok(s.y1) &&
      Text.ParseInt(c[6], 10) == Ok(s.x2) && Text.ParseInt(c[7], 10) == Ok(s.y2) &&
      Text.ParseInt(c[8], 10) == Ok(s.durationMs)
  {
    var c := SwipeCommand(adb, s);
    assert Text.ParseInt(c[4], 10) == Ok(s.x1) by { ArgumentReadsBack(c[4], s.x1); }
    assert Text.ParseInt(c[5], 10) == Ok(s.y1) by { ArgumentReadsBack(c[5], s.y1); }
    assert Text.ParseInt(c[6], 10) == Ok(s.x2) by { ArgumentReadsBack(c[6], s.x2); }
    assert Text.ParseInt(c[7], 10) == Ok(s.y2) by { ArgumentReadsBack(c[7], s.y2); }
    assert Text.ParseInt(c[8], 10) == Ok(s.durationMs) by { ArgumentReadsBack(c[8], s.durationMs); }
  }

  lemma ArgumentReadsBack(arg: string, n: nat)
    requires arg == Text.Dec(n)
    ensures Text.ParseInt(arg, 10) == Ok(n)
  {
    Text.ParseDec(n);
  }

  /** Swipe commands are one-to-one: distinct gestures give distinct
      command lines. */
  lemma SwipeCommandInjective(adb: string, s: Swipe, t: Swipe)
    requires SwipeCommand(adb, s) == SwipeCommand(adb, t)
    ensures s == t
  {
    SwipeCommandArguments(adb, s);
    SwipeCommandArguments(adb, t);
  }

  /** What `perform_action` does with a label: the swipe it issues, no swipe
      for "running", or ValueError for any other label. */
  function ActionSwipe(action: string): (r: Result<Option<Swipe>>)
    ensures r.Ok? <==> action in DISPATCHED
    ensures r.Err? ==> r.error == ValueError
    ensures r == Ok(None) <==> action == "running"
    ensures action == "left" ==> r.Ok? && r.value.Some? && MovesLeft(r.value.value)
    ensures action == "right" ==> r.Ok? && r.value.Some? && MovesRight(r.value.value)
    ensures action == "jump" ==> r.Ok? && r.value.Some? && MovesUp(r.value.value)
    ensures action == "down" ==> r.Ok? && r.value.Some? && MovesDown(r.value.value)
  {
    if action == "left" then Ok(Some(SWIPE_LEFT))
    else if action == "right" then Ok(Some(SWIPE_RIGHT))
    else if action == "jump" then Ok(Some(SWIPE_UP))
    else if action == "down" then Ok(Some(SWIPE_DOWN))
    else if action == "running" then Ok(None)
    else Err(ValueError)
  }

  /** The commands `perform_action` issues for a label. */
  function ActionCommands(adb: string, action: string): (cs: seq<Command>)
    ensures |cs| <= 1
    ensures |cs| == 1 <==> action in {"left", "right", "jump", "down"}
    ensures |cs| == 1 ==> |cs[0]| == 9 && cs[0][..4] == [adb, "shell", "input", "swipe"]
  {
    match ActionSwipe(action)
    case Ok(Some(s)) => [SwipeCommand(adb, s)]
    case _ => []
  }

  /** The three commands of `take_screenshot`, in order. */
  function ScreenshotCommands(adb: string, outputPath: string): (cs: seq<Command>)
    ensures |cs| == 3 && |cs[0]| == 5 && |cs[1]| == 4 && |cs[2]| == 4
    ensures cs[0][1..4] == ["shell", "screencap", "-p"] && cs[1][1] == "pull" && cs[2][1..3] == ["shell", "rm"]
    ensures cs[1][2] == cs[0][4] == cs[2][3] && cs[1][3] == outputPath
    ensures forall k :: 0 <= k < 3 ==> cs[k][0] == adb
  {
    [[adb, "shell", "screencap", "-p", DEVICE_SCREENSHOT],
     [adb, "pull", DEVICE_SCREENSHOT, outputPath],
     [adb, "shell", "rm", DEVICE_SCREENSHOT]]
  }

  /** The components below an SDK root that lead to adb. */
  const SDK_ADB: seq<string> := ["Android", "Sdk", "platform-tools", "adb.exe"]

  /** The components below the home directory where the SDK root sits. */
  const HOME_LOCAL: seq<string> := ["AppData", "Local"]

  /** `Path(root) / "Android" / "Sdk" / "platform-tools" / "adb.exe"`. */
  function SdkAdb(root: string): (p: string)
    ensures Paths.Name(p) == "adb.exe"
  {
    SdkAdbComponents();
    Paths.NameOfJoinAll(root, SDK_ADB);
    Paths.JoinAll(root, SDK_ADB)
  }

  lemma SdkAdbComponents()
    ensures forall k :: 0 <= k < |SDK_ADB| ==> Paths.IsComponent(SDK_ADB[k])
    ensures SDK_ADB[|SDK_ADB| - 1] == "adb.exe"
  {
  }

  /** The location under a root, spelled out: the root's lead (its
      normalised text and a separator, or nothing for an empty or "."
      root) followed by the fixed components. */
  lemma SdkAdbPath(root: string)
    ensures SdkAdb(root) ==
      Paths.Lead(root) + "Android" + "/" + "Sdk" + "/" + "platform-tools" + "/" + "adb.exe"
    ensures Paths.Normal(root) == "." ==>
      SdkAdb(root) == "Android" + "/" + "Sdk" + "/" + "platform-tools" + "/" + "adb.exe"
    ensures Paths.Parts(root) != [] ==>
      SdkAdb(root) == Paths.Normal(root) + "/" + "Android" + "/" + "Sdk" + "/" + "platform-tools" + "/" + "adb.exe"
  {
    SdkAdbComponents();
    Paths.JoinAllPlain(root, SDK_ADB);
    Paths.JoinCharFour("Android", "Sdk", "platform-tools", "adb.exe");
    Paths.AppendFour(Paths.Lead(root), "Android", "Sdk", "platform-tools", "adb.exe");
    Paths.LeadOfNormal(root);
  }

  /** The candidate locations of adb, in search order: under LOCALAPPDATA
      (the empty path when the variable is unset), then under the home
      directory's AppData/Local. */
  function PossibleLocations(localAppData: Option<string>, home: string): (ps: seq<string>)
    ensures |ps| == 2
    ensures Paths.Name(ps[0]) == "adb.exe" && Paths.Name(ps[1]) == "adb.exe"
  {
    var root := match localAppData case Some(v) => v case None => "";
    [SdkAdb(root), SdkAdb(Paths.JoinAll(home, HOME_LOCAL))]
  }

  /** The second candidate, spelled out under the home directory. */
  lemma HomeCandidate(localAppData: Option<string>, home: string)
    ensures PossibleLocations(localAppData, home)[1] ==
      Paths.Lead(home) + "AppData" + "/" + "Local" + "/" +
      "Android" + "/" + "Sdk" + "/" + "platform-tools" + "/" + "adb.exe"
  {
    var local := Paths.JoinAll(home, HOME_LOCAL);
    assert Paths.Lead(local) == Paths.Lead(home) + "AppData" + "/" + "Local" + "/" by {
      HomeLocalComponents();
      Paths.JoinAllPlain(home, HOME_LOCAL);
      Paths.JoinCharTwo("AppData", "Local");
      Paths.RegroupLast(Paths.Lead(home), "AppData", "Local");
    }
    SdkAdbPath(local);
  }

  lemma HomeLocalComponents()
    ensures forall k :: 0 <= k < |HOME_LOCAL| ==> Paths.IsComponent(HOME_LOCAL[k])
  {
  }

  /** `path` is candidate `i`, and no earlier candidate exists. */
  predicate FirstExisting(candidates: seq<string>, existing: set<string>, i: int, path: string) {
    0 <= i < |candidates| && candidates[i] == path &&
    forall j :: 0 <= j < i ==> candidates[j] !in existing
  }

  /** With LOCALAPPDATA unset the first candidate is a path relative to the
      working directory. */
  lemma UnsetLocalAppData(home: string)
    ensures PossibleLocations(None, home)[0] == "Android" + "/" + "Sdk" + "/" + "platform-tools" + "/" + "adb.exe"
  {
    Paths.PartsEmpty();
    SdkAdbPath("");
  }

  /** `_find_adb_path`: the first candidate, in list order, that exists;
      FileNotFoundError when none does. */
  method FindAdbPath(candidates: seq<string>, existing: set<string>) returns (r: Result<string>)
    ensures r.Ok? ==> r.value in existing && exists i :: FirstExisting(candidates, existing, i, r.value)
    ensures r.Err? ==> r.error == FileNotFoundError
    ensures r.Err? <==> forall j :: 0 <= j < |candidates| ==> candidates[j] !in existing
  {
    for i := 0 to |candidates|
      invariant forall j :: 0 <= j < i ==> candidates[j] !in existing
    {
      if candidates[i] in existing {
        assert FirstExisting(candidates, existing, i, candidates[i]);
        return Ok(candidates[i]);
      }
    }
    return Err(FileNotFoundError);
  }

  /** A controller bound to one adb executable. `log` holds every command
      line issued through it, oldest first. */
  class ADBController {
    const adbPath: string
    var log: seq<Command>

    constructor (adbPath: string)
      ensures this.adbPath == adbPath && log == []
    {
      this.adbPath := adbPath;
      log := [];
    }

    method Issue(c: Command)
      modifies this
      ensures log == old(log) + [c]
    {
      log := log + [c];
    }

    /** `check_adb_connection`: `adb devices` under check=True; a non-zero
        exit status becomes the "not properly connected" exception. */
    method CheckAdbConnection(devicesExitStatus: int) returns (o: Outcome)
      modifies this
      ensures log == old(log) + [[adbPath, "devices"]]
      ensures o == (if devicesExitStatus == 0 then Pass else Fail(AdbNotConnected))
    {
      Issue([adbPath, "devices"]);
      if devicesExitStatus != 0 {
        return Fail(AdbNotConnected);
      }
      return Pass;
    }

    method SwipeLeft()
      modifies this
      ensures log == old(log) + [SwipeCommand(adbPath, SWIPE_LEFT)]
    {
      SwipeCommandLiterals(adbPath);
      Issue([adbPath, "shell", "input", "swipe", "500", "1000", "100", "1000", "100"]);
    }

    method SwipeRight()
      modifies this
      ensures log == old(log) + [SwipeCommand(adbPath, SWIPE_RIGHT)]
    {
      SwipeCommandLiterals(adbPath);
      Issue([adbPath, "shell", "input", "swipe", "100", "1000", "500", "1000", "100"]);
    }

    method SwipeUp()
      modifies this
      ensures log == old(log) + [SwipeCommand(adbPath, SWIPE_UP)]
    {
      SwipeCommandLiterals(adbPath);
      Issue([adbPath, "shell", "input", "swipe", "300", "1000", "300", "500", "100"]);
    }

    method SwipeDown()
      modifies this
      ensures log == old(log) + [SwipeCommand(adbPath, SWIPE_DOWN)]
    {
      SwipeCommandLiterals(adbPath);
      Issue([adbPath, "shell", "input", "swipe", "300", "500", "300", "1000", "100"]);
    }

    method TakeScreenshot(outputPath: string)
      modifies this
      ensures log == old(log) + ScreenshotCommands(adbPath, outputPath)
    {
      Issue([adbPath, "shell", "screencap", "-p", DEVICE_SCREENSHOT]);
      Issue([adbPath, "pull", DEVICE_SCREENSHOT, outputPath]);
      Issue([adbPath, "shell", "rm", DEVICE_SCREENSHOT]);
    }

    /** `perform_action`: at most one swipe, none for "running"; any other
        label raises ValueError before issuing anything. */
    method PerformAction(action: string) returns (o: Outcome)
      modifies this
      ensures log == old(log) + ActionCommands(adbPath, action)
      ensures o == (if action in DISPATCHED then Pass else Fail(ValueError))
    {
      if action == "left" {
        SwipeLeft();
      } else if action == "right" {
        SwipeRight();
      } else if action == "jump" {
        SwipeUp();
      } else if action == "down" {
        SwipeDown();
      } else if action == "running" {
      } else {
        return Fail(ValueError);
      }
      return Pass;
    }

    method StartGame()
      modifies this
      ensures log == old(log) + [[adbPath, "shell", "am", "start", "-n", GAME_ACTIVITY]]
    {
      Issue([adbPath, "shell", "am", "start", "-n", GAME_ACTIVITY]);
    }

    method StopGame()
      modifies this
      ensures log == old(log) + [[adbPath, "shell", "am", "force-stop", GAME_PACKAGE]]
    {
      Issue([adbPath, "shell", "am", "force-stop", GAME_PACKAGE]);
    }
  }

  /** `ADBController()`: find adb among the possible locations, then check
      the connection; either step can raise out of the constructor. */
  method NewADBController(localAppData: Option<string>, home: string, existing: set<string>,
                          devicesExitStatus: int) returns (r: Result<ADBController>)
    ensures r.Err? ==> r.error in {FileNotFoundError, AdbNotConnected}
    ensures r.Err? && r.error == FileNotFoundError <==>
      forall k :: 0 <= k < 2 ==> PossibleLocations(localAppData, home)[k] !in existing
    ensures r.Ok? ==> fresh(r.value) && r.value.adbPath in existing
    ensures r.Ok? ==> exists k :: FirstExisting(PossibleLocations(localAppData, home), existing, k, r.value.adbPath)
    ensures r.Ok? ==> r.value.log == [[r.value.adbPath, "devices"]]
    ensures r.Ok? <==> (devicesExitStatus == 0 &&
      exists k :: 0 <= k < 2 && PossibleLocations(localAppData, home)[k] in existing)
  {
    var found := FindAdbPath(PossibleLocations(localAppData, home), existing);
    if found.Err? {
      return Err(found.error);
    }
    var controller := new ADBController(found.value);
    var o := controller.CheckAdbConnection(devicesExitStatus);
    if o.Fail? {
      return Err(o.error);
    }
    return Ok(controller);
  }
}
