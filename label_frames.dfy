/** The manual labelling tool: frames are shown one at a time and a key
    press stores a label for the shown frame's name, with a checkpoint save
    of the labels file every tenth label and a final save on the way out. */
module LabelFrames {
  import opened Errors
  import Paths

  /** `self.labels`: key code to label, with 'q' as the quit key. */
  const KEY_LABELS: map<int, string> := map[
    97 := "left", 100 := "right", 119 := "jump", 115 := "down", 114 := "running", 113 := "quit"]

  /** `ord('q')`. */
  const QUIT_KEY := 113

  /** The labels a key can store. */
  const STORED_LABELS: set<string> := {"left", "right", "jump", "down", "running"}

  /** The labels read back from `labels.json`, or written to it: frame name
      to label. */
  type Labels = map<string, string>

  /** The name a frame is labelled under: `frame_path.name`. */
  function FrameName(framePath: string): (n: string)
    ensures '/' !in n
  {
    Paths.Name(framePath)
  }

  /** Where labelling resumes: the first frame whose name has no label yet,
      or 0 when every frame has one. */
  predicate ResumesAt(frames: seq<string>, labelled: Labels, i: int) {
    if forall j :: 0 <= j < |frames| ==> FrameName(frames[j]) in labelled then i == 0
    else
      0 <= i < |frames| && FrameName(frames[i]) !in labelled
      && forall j :: 0 <= j < i ==> FrameName(frames[j]) in labelled
  }

  /** The resume search in `__init__`: a `for` over the sorted frames that
      stops at the first name missing from the loaded labels. */
  method FindResumeIndex(frames: seq<string>, labelled: Labels) returns (i: nat)
    ensures ResumesAt(frames, labelled, i)
    ensures i < |frames| || i == 0
  {
    i := 0;
    for j := 0 to |frames|
      invariant forall m :: 0 <= m < j ==> FrameName(frames[m]) in labelled
    {
      if FrameName(frames[j]) !in labelled {
        return j;
      }
    }
  }

  /** Resume-index facts: with no labels loaded the tool starts at the
      first frame, and it only skips frames that already have a label. */
  lemma ResumeIndexCases(frames: seq<string>, labelled: Labels, i: int)
    requires ResumesAt(frames, labelled, i)
    ensures labelled == map[] ==> i == 0
    ensures 0 <= i && (i < |frames| || i == 0)
    ensures forall j :: 0 <= j < i ==> FrameName(frames[j]) in labelled
  {
    if labelled == map[] && frames != [] {
      assert FrameName(frames[0]) !in labelled;
    }
  }

  /** The labelling state: the shown frame's index, the labels, and every
      labels file written, in order. */
  datatype Labeling = Labeling(current: nat, data: Labels, saves: seq<Labels>)

  /** How `label_frames` returns: no frames at all, the quit key, the last
      frame passed, or still waiting in `cv2.waitKey` when the supplied key
      presses run out. */
  datatype Ending = NoFrames | Quit | Finished | AwaitingKey

  /** A label key on the shown frame: `labeled_data[frame_path.name] =
      label`, one frame on, and a checkpoint save whenever the number of
      labels is a multiple of ten. */
  function Store(frames: seq<string>, s: Labeling, given: string): (t: Labeling)
    requires s.current < |frames|
    ensures t.current == s.current + 1
    ensures t.data == s.data[FrameName(frames[s.current]) := given]
    ensures t.saves == s.saves || (t.saves == s.saves + [t.data] && |t.data| % 10 == 0)
    ensures |t.data| % 10 == 0 ==> t.saves == s.saves + [t.data]
  {
    var data := s.data[FrameName(frames[s.current]) := given];
    Labeling(s.current + 1, data, if |data| % 10 == 0 then s.saves + [data] else s.saves)
  }

  /** The `while` loop of `label_frames` and the save after it. Frames
      whose index is in `unreadable` fail `cv2.imread`; `keys` are the key
      codes `cv2.waitKey` returns, one per shown frame. */
  function LabelLoop(frames: seq<string>, unreadable: set<int>, keys: seq<int>, s: Labeling): (r: (Labeling, Ending))
    decreases |keys|, |frames| - s.current
    ensures r.1 in {Quit, Finished, AwaitingKey}
    ensures s.current <= r.0.current
    ensures |s.saves| <= |r.0.saves| && r.0.saves[..|s.saves|] == s.saves
  {
    if s.current >= |frames| then
      (s.(saves := s.saves + [s.data]), Finished)
    else if s.current in unreadable then
      LabelLoop(frames, unreadable, keys, s.(current := s.current + 1))
    else if keys == [] then
      (s, AwaitingKey)
    else if keys[0] == QUIT_KEY then
      (s.(saves := s.saves + [s.data]), Quit)
    else if keys[0] in KEY_LABELS then
      LabelLoop(frames, unreadable, keys[1..], Store(frames, s, KEY_LABELS[keys[0]]))
    else
      LabelLoop(frames, unreadable, keys[1..], s)
  }

  /** An unrecognised key is dropped: the same frame waits for the next key. */
  lemma UnrecognisedKeyIgnored(frames: seq<string>, unreadable: set<int>, key: int, keys: seq<int>, s: Labeling)
    requires s.current < |frames| && s.current !in unreadable && key !in KEY_LABELS
    ensures LabelLoop(frames, unreadable, [key] + keys, s) == LabelLoop(frames, unreadable, keys, s)
  {
    assert ([key] + keys)[1..] == keys;
  }

  /** An unreadable frame is skipped without a label and without a key. */
  lemma UnreadableFrameSkipped(frames: seq<string>, unreadable: set<int>, keys: seq<int>, s: Labeling)
    requires s.current < |frames| && s.current in unreadable
    ensures LabelLoop(frames, unreadable, keys, s) == LabelLoop(frames, unreadable, keys, s.(current := s.current + 1))
  {
  }

  /** A label key stores the label under the shown frame's name and moves
      to the next frame. */
  lemma LabelKeyStores(frames: seq<string>, unreadable: set<int>, key: int, keys: seq<int>, s: Labeling)
    requires s.current < |frames| && s.current !in unreadable && key in KEY_LABELS && key != QUIT_KEY
    ensures LabelLoop(frames, unreadable, [key] + keys, s)
      == LabelLoop(frames, unreadable, keys, Store(frames, s, KEY_LABELS[key]))
  {
    var ks := [key] + keys;
    assert ks != [] && ks[0] == key && ks[1..] == keys;
  }

  /** Every key but 'q' stores one of the five labels. */
  lemma LabelKeysStoreLabels(key: int)
    requires key in KEY_LABELS && key != QUIT_KEY
    ensures KEY_LABELS[key] in STORED_LABELS
  {
    assert key in {97, 100, 119, 115, 114};
  }

  /** Every label the loop holds at the end was there at the start or is
      one of the five stored labels: "quit" is never stored. */
  predicate Extends(before: Labels, after: Labels) {
    forall n :: n in after ==> after[n] in STORED_LABELS || (n in before && after[n] == before[n])
  }

  lemma {:induction false} QuitNeverStored(frames: seq<string>, unreadable: set<int>, keys: seq<int>, s: Labeling)
    decreases |keys|, |frames| - s.current
    ensures Extends(s.data, LabelLoop(frames, unreadable, keys, s).0.data)
    ensures forall n :: n in s.data ==> n in LabelLoop(frames, unreadable, keys, s).0.data
  {
    if s.current >= |frames| {
    } else if s.current in unreadable {
      QuitNeverStored(frames, unreadable, keys, s.(current := s.current + 1));
    } else if keys == [] {
    } else if keys[0] == QUIT_KEY {
    } else if keys[0] in KEY_LABELS {
      var stored := KEY_LABELS[keys[0]];
      assert stored in STORED_LABELS;
      var next := Store(frames, s, stored);
      var data := next.data;
      QuitNeverStored(frames, unreadable, keys[1..], next);
      var final := LabelLoop(frames, unreadable, keys[1..], next).0.data;
      assert LabelLoop(frames, unreadable, keys, s).0.data == final;
      forall n | n in final
        ensures final[n] in STORED_LABELS || (n in s.data && final[n] == s.data[n])
      {
        if final[n] !in STORED_LABELS {
          assert n in data && final[n] == data[n];
        }
      }
    } else {
      QuitNeverStored(frames, unreadable, keys[1..], s);
    }
  }

  /** The shown frame's index never passes the number of frames. */
  lemma {:induction false} CurrentWithinFrames(frames: seq<string>, unreadable: set<int>, keys: seq<int>, s: Labeling)
    requires s.current <= |frames|
    decreases |keys|, |frames| - s.current
    ensures LabelLoop(frames, unreadable, keys, s).0.current <= |frames|
    ensures LabelLoop(frames, unreadable, keys, s).1 == Finished ==> LabelLoop(frames, unreadable, keys, s).0.current == |frames|
  {
    if s.current >= |frames| {
    } else if s.current in unreadable {
      CurrentWithinFrames(frames, unreadable, keys, s.(current := s.current + 1));
    } else if keys == [] {
    } else if keys[0] == QUIT_KEY {
    } else if keys[0] in KEY_LABELS {
      CurrentWithinFrames(frames, unreadable, keys[1..], Store(frames, s, KEY_LABELS[keys[0]]));
    } else {
      CurrentWithinFrames(frames, unreadable, keys[1..], s);
    }
  }

  /** Every save but the final one happens at a multiple of ten labels. */
  predicate Checkpoints(saves: seq<Labels>) {
    forall i :: 0 <= i < |saves| ==> |saves[i]| % 10 == 0
  }

  /** The files a run writes: checkpoints, then — unless the loop is
      still waiting for a key — the final save of the labels as they end. */
  predicate SaveLog(written: seq<Labels>, data: Labels, e: Ending) {
    if e == AwaitingKey then Checkpoints(written)
    else written != [] && written[|written| - 1] == data && Checkpoints(written[..|written| - 1])
  }

  lemma {:induction false} SavesAreCheckpointsThenFinal(frames: seq<string>, unreadable: set<int>, keys: seq<int>, s: Labeling)
    decreases |keys|, |frames| - s.current
    ensures var (t, e) := LabelLoop(frames, unreadable, keys, s);
      SaveLog(t.saves[|s.saves|..], t.data, e)
  {
    if s.current >= |frames| {
      assert (s.saves + [s.data])[|s.saves|..] == [s.data];
    } else if s.current in unreadable {
      SavesAreCheckpointsThenFinal(frames, unreadable, keys, s.(current := s.current + 1));
    } else if keys == [] {
      assert s.saves[|s.saves|..] == [];
    } else if keys[0] == QUIT_KEY {
      assert (s.saves + [s.data])[|s.saves|..] == [s.data];
    } else if keys[0] in KEY_LABELS {
      var next := Store(frames, s, KEY_LABELS[keys[0]]);
      SavesAreCheckpointsThenFinal(frames, unreadable, keys[1..], next);
      SaveLogLabelStep(s.saves, next, LabelLoop(frames, unreadable, keys[1..], next));
    } else {
      SavesAreCheckpointsThenFinal(frames, unreadable, keys[1..], s);
    }
  }

  /** The save log across one labelled frame, whose checkpoint (if any)
      is the one save `next` adds to `before`. */
  lemma SaveLogLabelStep(before: seq<Labels>, next: Labeling, r: (Labeling, Ending))
    requires next.saves == before || (next.saves == before + [next.data] && |next.data| % 10 == 0)
    requires |next.saves| <= |r.0.saves| && r.0.saves[..|next.saves|] == next.saves
    requires SaveLog(r.0.saves[|next.saves|..], r.0.data, r.1)
    ensures SaveLog(r.0.saves[|before|..], r.0.data, r.1)
  {
    if next.saves != before {
      assert r.0.saves[|before|..] == [next.data] + r.0.saves[|next.saves|..];
      SaveLogAfterCheckpoint(next.data, r.0.saves[|next.saves|..], r.0.data, r.1);
    }
  }

  lemma SaveLogAfterCheckpoint(checkpoint: Labels, written: seq<Labels>, data: Labels, e: Ending)
    requires |checkpoint| % 10 == 0 && SaveLog(written, data, e)
    ensures SaveLog([checkpoint] + written, data, e)
  {
    var all := [checkpoint] + written;
    if e != AwaitingKey {
      assert all[..|all| - 1] == [checkpoint] + written[..|written| - 1];
    }
  }

  /** `FrameLabeler`: the sorted frame paths, the index of the shown frame,
      the labels, and the labels files written so far. */
  class FrameLabeler {
    const frames: seq<string>
    var currentFrame: nat
    var labeledData: Labels
    var saves: seq<Labels>

    /** The labeller's invariant: the shown index never passes the frames. */
    predicate Valid()
      reads this
    {
      currentFrame <= |frames|
    }

    /** `__init__` over the collected and sorted frame paths and the labels
        file's contents, if the file exists. */
    constructor (frames: seq<string>, stored: Option<Labels>)
      ensures Valid() && this.frames == frames && saves == []
      ensures labeledData == (if stored.Some? then stored.value else map[])
      ensures ResumesAt(frames, labeledData, currentFrame)
    {
      var i := 0;
      if stored.Some? {
        i := FindResumeIndex(frames, stored.value);
      }
      this.frames := frames;
      currentFrame := i;
      labeledData := if stored.Some? then stored.value else map[];
      saves := [];
    }

    /** `label_frames`: the labelling loop, then the final save. */
    method LabelFrames(unreadable: set<int>, keys: seq<int>) returns (e: Ending)
      requires Valid()
      modifies this
      ensures Valid()
      ensures frames == [] ==> e == NoFrames
      ensures frames == [] ==> currentFrame == old(currentFrame) && labeledData == old(labeledData) && saves == old(saves)
      ensures frames != [] ==>
        (Labeling(currentFrame, labeledData, saves), e)
        == LabelLoop(frames, unreadable, keys, Labeling(old(currentFrame), old(labeledData), old(saves)))
    {
      if frames == [] {
        return NoFrames;
      }
      ghost var whole := LabelLoop(frames, unreadable, keys, Labeling(currentFrame, labeledData, saves));
      CurrentWithinFrames(frames, unreadable, keys, Labeling(currentFrame, labeledData, saves));
      var k := 0;
      e := Finished;
      assert keys[0..] == keys;
      while currentFrame < |frames|
        invariant Valid() && 0 <= k <= |keys|
        invariant whole == LabelLoop(frames, unreadable, keys[k..], Labeling(currentFrame, labeledData, saves))
        decreases |keys| - k, |frames| - currentFrame
      {
        if currentFrame in unreadable {
          currentFrame := currentFrame + 1;
          continue;
        }
        if k == |keys| {
          return AwaitingKey;
        }
        var key := keys[k];
        ghost var before := Labeling(currentFrame, labeledData, saves);
        assert keys[k..] == [key] + keys[k + 1..];
        k := k + 1;
        if key == QUIT_KEY {
          assert whole == (Labeling(currentFrame, labeledData, saves + [labeledData]), Quit);
          e := Quit;
          break;
        } else if key in KEY_LABELS {
          ghost var next := Store(frames, before, KEY_LABELS[key]);
          LabelKeyStores(frames, unreadable, key, keys[k..], before);
          labeledData := labeledData[FrameName(frames[currentFrame]) := KEY_LABELS[key]];
          currentFrame := currentFrame + 1;
          if |labeledData| % 10 == 0 {
            SaveLabels();
          }
          assert Labeling(currentFrame, labeledData, saves) == next;
        } else {
          UnrecognisedKeyIgnored(frames, unreadable, key, keys[k..], before);
        }
      }
      SaveLabels();
    }

    /** `save_labels`: write the labels as they are. */
    method SaveLabels()
      modifies this
      ensures saves == old(saves) + [labeledData]
      ensures currentFrame == old(currentFrame) && labeledData == old(labeledData)
    {
      saves := saves + [labeledData];
    }
  }
}
