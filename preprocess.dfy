/** Label encoding for training: the labels file's entries become a list of
    frame paths and a parallel list of class indices. */
module Preprocess {
  import opened Errors
  import Paths

  /** `label_map`: label to class index. */
  const LABEL_MAP: map<string, int> := map["left" := 0, "right" := 1, "jump" := 2, "down" := 3, "running" := 4]

  /** One entry of the labels file, in the file's order: frame name and
      label. */
  type Entry = (string, string)

  /** The list-building loop of `load_and_preprocess_data`: for each entry,
      append `str(Path(frames_dir) / frame_name)` and `label_map[label]`.
      The first label the map lacks raises KeyError. */
  method BuildLists(framesDir: string, entries: seq<Entry>) returns (r: Result<(seq<string>, seq<int>)>)
    ensures r.Err? <==> exists i :: 0 <= i < |entries| && entries[i].1 !in LABEL_MAP
    ensures r.Err? ==> r.error == KeyError
    ensures r.Ok? ==> |r.value.0| == |entries| && |r.value.1| == |entries|
    ensures r.Ok? ==> forall i :: 0 <= i < |entries| ==>
      r.value.0[i] == Paths.Join(framesDir, entries[i].0)
      && entries[i].1 in LABEL_MAP && r.value.1[i] == LABEL_MAP[entries[i].1]
    ensures r.Ok? ==> forall i :: 0 <= i < |entries| ==> 0 <= r.value.1[i] <= 4
  {
    var framePaths: seq<string> := [];
    var labelValues: seq<int> := [];
    for i := 0 to |entries|
      invariant |framePaths| == i && |labelValues| == i
      invariant forall j :: 0 <= j < i ==>
        framePaths[j] == Paths.Join(framesDir, entries[j].0)
        && entries[j].1 in LABEL_MAP && labelValues[j] == LABEL_MAP[entries[j].1]
    {
      var frameName, labelName := entries[i].0, entries[i].1;
      framePaths := framePaths + [Paths.Join(framesDir, frameName)];
      if labelName !in LABEL_MAP {
        return Err(KeyError);
      }
      labelValues := labelValues + [LABEL_MAP[labelName]];
    }
    assert forall i :: 0 <= i < |entries| ==> entries[i].1 in LABEL_MAP;
    return Ok((framePaths, labelValues));
  }
}
