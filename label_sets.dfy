/** How the label vocabularies of the stages fit together: the encoder's
    `label_map` and the agent's `action_map` are inverse, and the labelling
    tool, the dispatcher and the encoder agree on the same five labels —
    while the gatherer records "up", which neither the dispatcher nor the
    encoder accepts. */
module LabelSets {
  import opened Errors
  import AdbController
  import ExtractFrames
  import GatherData
  import LabelFrames
  import Paths
  import Preprocess
  import RunInference

  /** Encoding a predicted class's label gives back the class, and
      predicting an encoded label's class gives back the label. */
  lemma LabelMapInvertsActionMap()
    ensures forall i :: i in RunInference.ACTION_MAP ==>
      RunInference.ACTION_MAP[i] in Preprocess.LABEL_MAP
      && Preprocess.LABEL_MAP[RunInference.ACTION_MAP[i]] == i
    ensures forall l :: l in Preprocess.LABEL_MAP ==>
      Preprocess.LABEL_MAP[l] in RunInference.ACTION_MAP
      && RunInference.ACTION_MAP[Preprocess.LABEL_MAP[l]] == l
  {
  }

  /** The labels the manual labeller stores are exactly those the encoder
      knows and those `perform_action` dispatches. */
  lemma StoredLabelsAreEncodable()
    ensures LabelFrames.STORED_LABELS == Preprocess.LABEL_MAP.Keys
    ensures Preprocess.LABEL_MAP.Keys == AdbController.DISPATCHED
    ensures RunInference.ACTION_MAP.Values == AdbController.DISPATCHED
  {
    assert forall l :: l in Preprocess.LABEL_MAP.Keys <==> l in LabelFrames.STORED_LABELS;
    assert RunInference.ACTION_MAP[0] == "left" && RunInference.ACTION_MAP[1] == "right";
    assert RunInference.ACTION_MAP[2] == "jump" && RunInference.ACTION_MAP[3] == "down";
    assert RunInference.ACTION_MAP[4] == "running";
  }

  /** The gatherer's "up" directory holds frames no later stage can use:
      dispatching "up" raises ValueError, the encoder has no index for it,
      and the gatherer has no "jump" directory at all. */
  lemma GatheredUpIsRejected()
    ensures "up" in GatherData.ACTIONS && "jump" !in GatherData.ACTIONS
    ensures AdbController.ActionSwipe("up") == Err(ValueError)
    ensures "up" !in Preprocess.LABEL_MAP && "up" !in AdbController.DISPATCHED
  {
    assert GatherData.ACTIONS[4] == "up";
  }

  /** Every video's frames are numbered from zero, and the labelling tool
      keys a label by the frame's file name alone: the n-th kept frame of
      any two videos shares one entry in the labels file. */
  lemma LabelKeyIgnoresVideo(outputDir: string, video: string, n: nat)
    ensures LabelFrames.FrameName(ExtractFrames.FramePath(ExtractFrames.VideoOutputDir(outputDir, video), n))
      == ExtractFrames.FrameFileName(n)
  {
    ExtractFrames.FrameFileNameHasNoSlash(n);
    Paths.NameOfOsJoin(ExtractFrames.VideoOutputDir(outputDir, video), ExtractFrames.FrameFileName(n));
  }

  /** The encoder looks for a labelled frame directly under the frames
      directory, while extraction wrote it one level down, under the
      video's stem: whenever that stem is a proper directory name (not
      empty, not ".", free of separators) the two paths differ. */
  lemma EncodedPathMissesVideoDir(framesDir: string, video: string, n: nat)
    requires Paths.IsComponent(Paths.Stem(video))
    ensures Paths.Join(framesDir, ExtractFrames.FrameFileName(n))
      != ExtractFrames.FramePath(ExtractFrames.VideoOutputDir(framesDir, video), n)
  {
    var name, stem := ExtractFrames.FrameFileName(n), Paths.Stem(video);
    var lead := Paths.Lead(framesDir);
    assert Paths.IsComponent(name) by {
      ExtractFrames.FrameFileNameHasNoSlash(n);
      assert |name| > 1;
    }
    var dir := ExtractFrames.VideoOutputDir(framesDir, video);
    assert dir == lead + stem by {
      Paths.JoinPlain(framesDir, stem);
    }
    assert dir[|dir| - 1] != '/' by {
      assert dir[|dir| - 1] == stem[|stem| - 1];
    }
    assert |ExtractFrames.FramePath(dir, n)| == |lead| + |stem| + 1 + |name|;
    Paths.JoinPlain(framesDir, name);
  }
}
