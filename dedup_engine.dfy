/**
 * The three workflows of DedupEngine.cs, with their file-system effects as a
 * list of planned operations: DedupAsync acts on every photo of a group but
 * the best one, DedupCopyAsync copies the best photo of each source group
 * unless the destination already holds a near duplicate, and DedupPatchAsync
 * overwrites the destination members of a group with its best photo when
 * that photo lives in the source folder.
 */
module DedupEngine {
  import opened Wrappers
  import opened MappedImages
  import opened KeepPreferences
  import opened BestPhotoSelection
  import opened VpTrees
  import opened ImageGrouping

  /**
   * DuplicateAction: the five members the switch of DedupAsync names, and any
   * other value a cast can give the enum, which reaches the default arm.
   */
  datatype DuplicateAction = Delete | MoveToTrash | Nothing | MoveToTrashAndCreateLink | DeleteAndCreateLink
                           | OtherAction(value: int)

  predicate NamedAction(action: DuplicateAction)
  {
    !action.OtherAction?
  }

  /** A planned file-system effect. */
  datatype FileOp =
    | DeleteFile(path: string)
      /** FilesHelper.MoveToTrashAsync(photo, basePath, duplicateOf). */
    | MoveFileToTrash(path: string, basePath: string, duplicateOf: string)
      /** FilesHelper.CreateLink(actualFile, virtualFile): `virtualFile` becomes a link to `actualFile`. */
    | CreateLink(actualFile: string, virtualFile: string)
      /** File.Copy(source, destination, overwrite). */
    | CopyFile(source: string, destination: string, overwrite: bool)
      /** The copy of DedupCopyAsync into `folder`, under a destination name computed from file-system state. */
    | CopyToFolder(source: string, folder: string)

  /** The file an operation deletes, moves away, replaces or writes. */
  function Victim(op: FileOp): string
  {
    match op
    case DeleteFile(path) => path
    case MoveFileToTrash(path, _, _) => path
    case CreateLink(_, virtualFile) => virtualFile
    case CopyFile(_, destination, _) => destination
    case CopyToFolder(_, folder) => folder
  }

  // ---------------------------------------------------------------- DedupAsync

  /** Why DedupAsync stops: FindBestPhoto threw, or the action reached the default arm. */
  datatype DedupError = SelectFailed(cause: SelectError) | ActionOutOfRange(action: DuplicateAction)

  /** The operations planned so far, and the exception that ended the run, if any. */
  datatype Outcome = Outcome(ops: seq<FileOp>, error: Option<DedupError>)

  /** `group.Where(photo => photo != bestPhoto)`, in group order. */
  function Others(group: seq<Photo>, best: Photo): (r: seq<Photo>)
    ensures forall x :: x in r <==> x in group && x != best
  {
    if group == [] then []
    else
      var last := group[|group| - 1];
      assert group == group[..|group| - 1] + [last];
      Others(group[..|group| - 1], best) + (if last != best then [last] else [])
  }

  /** A group lists no photo twice and holds the best one: one photo fewer is acted on. */
  lemma {:induction false} OthersCount(group: seq<Photo>, best: Photo)
    requires NoRepeats(group) && best in group
    ensures |Others(group, best)| == |group| - 1
  {
    var n := |group|;
    var init := group[..n - 1];
    assert NoRepeats(init);
    if group[n - 1] == best {
      assert best !in init;
      OthersAbsent(init, best);
    } else {
      assert group == init + [group[n - 1]];
      assert best in init;
      OthersCount(init, best);
    }
  }

  /** Without the best photo, nothing is filtered out. */
  lemma {:induction false} OthersAbsent(group: seq<Photo>, best: Photo)
    requires best !in group
    ensures Others(group, best) == group
  {
    if group != [] {
      var init := group[..|group| - 1];
      assert group == init + [group[|group| - 1]];
      OthersAbsent(init, best);
    }
  }

  /** Scanning one more photo of the group adds it to the others unless it is the best. */
  lemma OthersStep(group: seq<Photo>, best: Photo, j: int)
    requires 0 <= j < |group|
    ensures Others(group[..j + 1], best) == Others(group[..j], best) + (if group[j] != best then [group[j]] else [])
  {
    assert group[..j + 1][..j] == group[..j];
  }

  /** How many operations an action plans for one photo. */
  function PerPhoto(action: DuplicateAction): nat
  {
    match action
    case Delete => 1
    case MoveToTrash => 1
    case Nothing => 0
    case MoveToTrashAndCreateLink => 2
    case DeleteAndCreateLink => 2
    case OtherAction(_) => 0
  }

  /**
   * `PerPhoto(action)` operations for each of `n` photos, written without a
   * product so that the counting proofs stay linear (OpsForIsProduct).
   */
  function OpsFor(action: DuplicateAction, n: int): int
  {
    match action
    case Delete => n
    case MoveToTrash => n
    case Nothing => 0
    case MoveToTrashAndCreateLink => n + n
    case DeleteAndCreateLink => n + n
    case OtherAction(_) => 0
  }

  lemma OpsForIsProduct(action: DuplicateAction, n: int)
    ensures OpsFor(action, n) == PerPhoto(action) * n
  {
  }

  /** One arm of the switch: the operations for `photo`, a duplicate of `best`, under `basePath`. */
  function PhotoOps(action: DuplicateAction, photo: Photo, best: Photo, basePath: string): (r: seq<FileOp>)
    requires NamedAction(action)
    ensures |r| == PerPhoto(action)
    ensures forall op :: op in r ==> Victim(op) == photo.physicalPath
    ensures forall op :: op in r ==> !op.CopyFile? && !op.CopyToFolder?
  {
    match action
    case Delete => [DeleteFile(photo.physicalPath)]
    case MoveToTrash => [MoveFileToTrash(photo.physicalPath, basePath, best.physicalPath)]
    case Nothing => []
    case MoveToTrashAndCreateLink =>
      [MoveFileToTrash(photo.physicalPath, basePath, best.physicalPath), CreateLink(best.physicalPath, photo.physicalPath)]
    case DeleteAndCreateLink => [DeleteFile(photo.physicalPath), CreateLink(best.physicalPath, photo.physicalPath)]
  }

  /** The inner loop of DedupAsync on the photos other than the best: their operations, one photo after another. */
  function GroupOps(photos: seq<Photo>, action: DuplicateAction, best: Photo, basePath: string): (r: seq<FileOp>)
    requires NamedAction(action)
    ensures |r| == OpsFor(action, |photos|)
  {
    if photos == [] then []
    else
      var prev := GroupOps(photos[..|photos| - 1], action, best, basePath);
      prev + PhotoOps(action, photos[|photos| - 1], best, basePath)
  }

  lemma GroupOpsAppend(photos: seq<Photo>, x: Photo, action: DuplicateAction, best: Photo, basePath: string)
    requires NamedAction(action)
    ensures GroupOps(photos + [x], action, best, basePath) == GroupOps(photos, action, best, basePath)
                                                            + PhotoOps(action, x, best, basePath)
  {
    assert (photos + [x])[..|photos|] == photos;
  }

  /** Every operation of a group acts on one of its photos; every photo gets all the operations of its arm. */
  lemma {:induction false} GroupOpsTargets(photos: seq<Photo>, action: DuplicateAction, best: Photo, basePath: string)
    requires NamedAction(action)
    ensures forall op :: op in GroupOps(photos, action, best, basePath) ==>
              exists x :: x in photos && op in PhotoOps(action, x, best, basePath)
    ensures forall x, op :: x in photos && op in PhotoOps(action, x, best, basePath) ==>
              op in GroupOps(photos, action, best, basePath)
  {
    if photos != [] {
      var init := photos[..|photos| - 1];
      var last := photos[|photos| - 1];
      assert photos == init + [last];
      GroupOpsTargets(init, action, best, basePath);
    }
  }

  /** The switch applied to the photos other than the best: their operations, or the default arm's exception. */
  function ActOnOthers(others: seq<Photo>, action: DuplicateAction, best: Photo, basePath: string)
    : Result<seq<FileOp>, DedupError>
  {
    if others == [] then Success([])
    else if !NamedAction(action) then Failure(ActionOutOfRange(action))
    else Success(GroupOps(others, action, best, basePath))
  }

  /** One pass of the outer loop of DedupAsync: the operations of a group, or the exception it raises. */
  function GroupStep(group: seq<Photo>, keepPreferences: seq<KeepPreference>, action: DuplicateAction,
                     basePath: string): Result<seq<FileOp>, DedupError>
  {
    var best := FindBestPhoto(group, keepPreferences);
    if best.Failure? then Failure(SelectFailed(best.error))
    else ActOnOthers(Others(group, best.value), action, best.value, basePath)
  }

  /** DedupAsync over the groups: groups in order, stopping at the first exception. */
  function DedupPlan(groups: seq<seq<Photo>>, keepPreferences: seq<KeepPreference>, action: DuplicateAction,
                     basePath: string): (o: Outcome)
  {
    if groups == [] then Outcome([], None)
    else
      var prev := DedupPlan(groups[..|groups| - 1], keepPreferences, action, basePath);
      if prev.error.Some? then prev
      else
        var step := GroupStep(groups[|groups| - 1], keepPreferences, action, basePath);
        if step.Failure? then Outcome(prev.ops, Some(step.error)) else Outcome(prev.ops + step.value, None)
  }

  /** Once a prefix of the groups has raised, the run is over: later groups add nothing. */
  lemma {:induction false} DedupErrorSticks(groups: seq<seq<Photo>>, keepPreferences: seq<KeepPreference>,
                                            action: DuplicateAction, basePath: string, k: int)
    requires 0 <= k <= |groups| && DedupPlan(groups[..k], keepPreferences, action, basePath).error.Some?
    ensures DedupPlan(groups, keepPreferences, action, basePath) == DedupPlan(groups[..k], keepPreferences, action, basePath)
    decreases |groups|
  {
    if k < |groups| {
      var init := groups[..|groups| - 1];
      assert init[..k] == groups[..k];
      DedupErrorSticks(init, keepPreferences, action, basePath, k);
    } else {
      assert groups[..k] == groups;
    }
  }

  /** With the action Nothing no file is touched, whatever the groups. */
  lemma {:induction false} NothingPlansNoOps(groups: seq<seq<Photo>>, keepPreferences: seq<KeepPreference>, basePath: string)
    ensures DedupPlan(groups, keepPreferences, Nothing, basePath).ops == []
  {
    if groups != [] {
      NothingPlansNoOps(groups[..|groups| - 1], keepPreferences, basePath);
    }
  }

  /** A group lets the run go on: it has a best photo, and the action is named or never reached. */
  predicate GroupProceeds(group: seq<Photo>, keepPreferences: seq<KeepPreference>, action: DuplicateAction)
  {
    FindBestPhoto(group, keepPreferences).Success?
    && (NamedAction(action) || Others(group, FindBestPhoto(group, keepPreferences).value) == [])
  }

  lemma GroupStepSucceeds(group: seq<Photo>, keepPreferences: seq<KeepPreference>, action: DuplicateAction,
                          basePath: string)
    ensures GroupStep(group, keepPreferences, action, basePath).Success? <==> GroupProceeds(group, keepPreferences, action)
  {
  }

  /** The run ends without exception exactly when every group lets it go on. */
  lemma {:induction false} DedupPlanSucceeds(groups: seq<seq<Photo>>, keepPreferences: seq<KeepPreference>,
                                             action: DuplicateAction, basePath: string)
    ensures DedupPlan(groups, keepPreferences, action, basePath).error.None? <==>
      forall k :: 0 <= k < |groups| ==> GroupProceeds(groups[k], keepPreferences, action)
  {
    if groups != [] {
      var init := groups[..|groups| - 1];
      var last := groups[|groups| - 1];
      DedupPlanSucceeds(init, keepPreferences, action, basePath);
      GroupStepSucceeds(last, keepPreferences, action, basePath);
      DedupPlanStep(groups, keepPreferences, action, basePath);
      ProceedsSplit(groups, init, keepPreferences, action);
    }
  }

  /** The run over the groups ends without exception when the run over all but the last does and the last step does. */
  lemma DedupPlanStep(groups: seq<seq<Photo>>, keepPreferences: seq<KeepPreference>, action: DuplicateAction,
                      basePath: string)
    requires groups != []
    ensures DedupPlan(groups, keepPreferences, action, basePath).error.None? <==>
      DedupPlan(groups[..|groups| - 1], keepPreferences, action, basePath).error.None?
      && GroupStep(groups[|groups| - 1], keepPreferences, action, basePath).Success?
  {
  }

  lemma ProceedsSplit(groups: seq<seq<Photo>>, init: seq<seq<Photo>>, keepPreferences: seq<KeepPreference>,
                      action: DuplicateAction)
    requires groups != [] && init == groups[..|groups| - 1]
    ensures (forall k :: 0 <= k < |groups| ==> GroupProceeds(groups[k], keepPreferences, action)) <==>
      (forall k :: 0 <= k < |init| ==> GroupProceeds(init[k], keepPreferences, action))
      && GroupProceeds(groups[|groups| - 1], keepPreferences, action)
  {
    assert forall k :: 0 <= k < |init| ==> init[k] == groups[k];
  }

  /** Unfolding the last group of a run that ended without exception. */
  lemma DedupPlanOpsStep(groups: seq<seq<Photo>>, keepPreferences: seq<KeepPreference>, action: DuplicateAction,
                         basePath: string)
    requires groups != [] && DedupPlan(groups, keepPreferences, action, basePath).error.None?
    ensures DedupPlan(groups[..|groups| - 1], keepPreferences, action, basePath).error.None?
    ensures FindBestPhoto(groups[|groups| - 1], keepPreferences).Success?
    ensures ActOnOthers(Others(groups[|groups| - 1], FindBestPhoto(groups[|groups| - 1], keepPreferences).value),
                        action, FindBestPhoto(groups[|groups| - 1], keepPreferences).value, basePath).Success?
    ensures DedupPlan(groups, keepPreferences, action, basePath).ops
         == DedupPlan(groups[..|groups| - 1], keepPreferences, action, basePath).ops
            + ActOnOthers(Others(groups[|groups| - 1], FindBestPhoto(groups[|groups| - 1], keepPreferences).value),
                          action, FindBestPhoto(groups[|groups| - 1], keepPreferences).value, basePath).value
  {
  }

  /** The switch plans the action's operations once per photo it reaches. */
  lemma ActOnOthersCount(others: seq<Photo>, action: DuplicateAction, best: Photo, basePath: string)
    requires ActOnOthers(others, action, best, basePath).Success?
    ensures |ActOnOthers(others, action, best, basePath).value| == PerPhoto(action) * |others|
  {
    OpsForIsProduct(action, |others|);
  }

  /**
   * A group that lets the run go on gets the action's operations for each of
   * its photos but the best one: `group.Length - 1` photos are acted on.
   */
  lemma GroupStepCount(group: seq<Photo>, keepPreferences: seq<KeepPreference>, action: DuplicateAction,
                       basePath: string)
    requires NoRepeats(group) && GroupStep(group, keepPreferences, action, basePath).Success?
    ensures |GroupStep(group, keepPreferences, action, basePath).value| == PerPhoto(action) * (|group| - 1)
  {
    var best := FindBestPhoto(group, keepPreferences).value;
    OthersCount(group, best);
    ActOnOthersCount(Others(group, best), action, best, basePath);
  }

  /** `op` is one of the operations the switch plans for `x`, a photo of `group` other than its best one. */
  predicate ActsOn(group: seq<Photo>, keepPreferences: seq<KeepPreference>, action: DuplicateAction,
                   basePath: string, x: Photo, op: FileOp)
  {
    FindBestPhoto(group, keepPreferences).Success? && x in group && x != FindBestPhoto(group, keepPreferences).value
    && NamedAction(action) && op in PhotoOps(action, x, FindBestPhoto(group, keepPreferences).value, basePath)
  }

  /** An operation the last group adds acts on one of its photos other than the best. */
  lemma DedupPlanNewOp(groups: seq<seq<Photo>>, g: seq<Photo>, keepPreferences: seq<KeepPreference>,
                       action: DuplicateAction, basePath: string, op: FileOp)
    requires groups != [] && g == groups[|groups| - 1] && op in DedupPlan(groups, keepPreferences, action, basePath).ops
    requires op !in DedupPlan(groups[..|groups| - 1], keepPreferences, action, basePath).ops
    ensures exists x :: ActsOn(g, keepPreferences, action, basePath, x, op)
  {
    var best := FindBestPhoto(g, keepPreferences).value;
    var others := Others(g, best);
    GroupOpsTargets(others, action, best, basePath);
    var x :| x in others && op in PhotoOps(action, x, best, basePath);
    assert ActsOn(g, keepPreferences, action, basePath, x, op);
  }

  /** Every planned operation is one the switch plans for a photo of some group that is not the group's best photo. */
  lemma {:induction false} DedupPlanActsOnOthers(groups: seq<seq<Photo>>, keepPreferences: seq<KeepPreference>,
                                                 action: DuplicateAction, basePath: string, op: FileOp)
    requires op in DedupPlan(groups, keepPreferences, action, basePath).ops
    ensures exists k, x :: 0 <= k < |groups| && ActsOn(groups[k], keepPreferences, action, basePath, x, op)
  {
    var init := groups[..|groups| - 1];
    if op in DedupPlan(init, keepPreferences, action, basePath).ops {
      DedupPlanActsOnOthers(init, keepPreferences, action, basePath, op);
      var k, x :| 0 <= k < |init| && ActsOn(init[k], keepPreferences, action, basePath, x, op);
      assert init[k] == groups[k];
    } else {
      var g := groups[|groups| - 1];
      DedupPlanNewOp(groups, g, keepPreferences, action, basePath, op);
      var x :| ActsOn(g, keepPreferences, action, basePath, x, op);
    }
  }

  /** The operations a run plans all act on the file of a photo other than its group's best. */
  lemma DedupPlanVictims(groups: seq<seq<Photo>>, keepPreferences: seq<KeepPreference>, action: DuplicateAction,
                         basePath: string, op: FileOp)
    requires op in DedupPlan(groups, keepPreferences, action, basePath).ops
    ensures exists k, x :: 0 <= k < |groups| && FindBestPhoto(groups[k], keepPreferences).Success? && x in groups[k]
                          && x != FindBestPhoto(groups[k], keepPreferences).value && Victim(op) == x.physicalPath
  {
    DedupPlanActsOnOthers(groups, keepPreferences, action, basePath, op);
  }

  /** Without exception, each photo but the best of each group gets every operation of the action's arm. */
  lemma {:induction false} DedupPlanCoversOthers(groups: seq<seq<Photo>>, keepPreferences: seq<KeepPreference>,
                                                 action: DuplicateAction, basePath: string, k: int, x: Photo, op: FileOp)
    requires DedupPlan(groups, keepPreferences, action, basePath).error.None? && 0 <= k < |groups|
    requires ActsOn(groups[k], keepPreferences, action, basePath, x, op)
    ensures op in DedupPlan(groups, keepPreferences, action, basePath).ops
  {
    var init := groups[..|groups| - 1];
    if k < |groups| - 1 {
      DedupPlanOpsStep(groups, keepPreferences, action, basePath);
      assert init[k] == groups[k];
      DedupPlanCoversOthers(init, keepPreferences, action, basePath, k, x, op);
    } else {
      DedupPlanLastOps(groups, keepPreferences, action, basePath, x, op);
    }
  }

  /** Without exception, the last group adds every operation the switch plans for its other photos. */
  lemma DedupPlanLastOps(groups: seq<seq<Photo>>, keepPreferences: seq<KeepPreference>, action: DuplicateAction,
                         basePath: string, x: Photo, op: FileOp)
    requires groups != [] && DedupPlan(groups, keepPreferences, action, basePath).error.None?
    requires ActsOn(groups[|groups| - 1], keepPreferences, action, basePath, x, op)
    ensures op in DedupPlan(groups, keepPreferences, action, basePath).ops
  {
    DedupPlanOpsStep(groups, keepPreferences, action, basePath);
    var g := groups[|groups| - 1];
    var best := FindBestPhoto(g, keepPreferences).value;
    GroupOpsTargets(Others(g, best), action, best, basePath);
  }

  /**
   * On the groups DedupAsync builds, a group that lets the run go on has at
   * least two photos and gets the action's operations for all but its best.
   */
  lemma DedupAsyncGroupCount(xs: seq<Photo>, m: int, rt: seq<int>, groups: seq<seq<Photo>>, k: int,
                             keepPreferences: seq<KeepPreference>, action: DuplicateAction, basePath: string)
    requires DenseIds(xs) && Grouping(xs, m, true, rt, groups) && 0 <= k < |groups|
    requires GroupStep(groups[k], keepPreferences, action, basePath).Success?
    ensures |groups[k]| - 1 >= 1
    ensures |GroupStep(groups[k], keepPreferences, action, basePath).value| == PerPhoto(action) * (|groups[k]| - 1)
  {
    GroupsDistinct(xs, m, true, rt, groups, k);
    DedupGroupsArePairs(xs, m, rt, groups, k);
    GroupStepCount(groups[k], keepPreferences, action, basePath);
  }

  /**
   * Every group DedupAsync builds has a photo besides its best one, so an
   * action outside the enum always reaches the default arm.
   */
  lemma OtherActionRaises(xs: seq<Photo>, m: int, rt: seq<int>, groups: seq<seq<Photo>>,
                          keepPreferences: seq<KeepPreference>, action: DuplicateAction, basePath: string)
    requires DenseIds(xs) && Grouping(xs, m, true, rt, groups) && groups != [] && !NamedAction(action)
    ensures DedupPlan(groups, keepPreferences, action, basePath).error.Some?
  {
    var g := groups[0];
    if FindBestPhoto(g, keepPreferences).Success? {
      var best := FindBestPhoto(g, keepPreferences).value;
      GroupsAreComponents(xs, m, true, rt, groups, 0);
      DedupGroupsArePairs(xs, m, rt, groups, 0);
      OthersCount(g, best);
    }
    assert !GroupProceeds(g, keepPreferences, action);
    DedupPlanSucceeds(groups, keepPreferences, action, basePath);
  }

  /** One pass of the outer loop of DedupAsync: the best photo, then the switch on every other photo. */
  method DedupGroup(group: seq<Photo>, keepPreferences: seq<KeepPreference>, action: DuplicateAction, path: string)
    returns (r: Result<seq<FileOp>, DedupError>)
    ensures r == GroupStep(group, keepPreferences, action, path)
  {
    var found := FindBestPhoto(group, keepPreferences);
    if found.Failure? {
      return Failure(SelectFailed(found.error));
    }
    r := SwitchOthers(group, found.value, action, path);
  }

  /** The inner loop of DedupAsync: the switch on each photo of the group that is not the best one. */
  method SwitchOthers(group: seq<Photo>, bestPhoto: Photo, action: DuplicateAction, path: string)
    returns (r: Result<seq<FileOp>, DedupError>)
    ensures r == ActOnOthers(Others(group, bestPhoto), action, bestPhoto, path)
  {
    var ops: seq<FileOp> := [];
    for j := 0 to |group|
      invariant NamedAction(action) || Others(group[..j], bestPhoto) == []
      invariant NamedAction(action) ==> ops == GroupOps(Others(group[..j], bestPhoto), action, bestPhoto, path)
      invariant !NamedAction(action) ==> ops == []
    {
      var photo := group[j];
      OthersStep(group, bestPhoto, j);
      if photo != bestPhoto {
        var arm: seq<FileOp>;
        match action {
          case Delete =>
            arm := [DeleteFile(photo.physicalPath)];
          case MoveToTrash =>
            arm := [MoveFileToTrash(photo.physicalPath, path, bestPhoto.physicalPath)];
          case Nothing =>
            arm := [];
          case MoveToTrashAndCreateLink =>
            arm := [MoveFileToTrash(photo.physicalPath, path, bestPhoto.physicalPath),
                    CreateLink(bestPhoto.physicalPath, photo.physicalPath)];
          case DeleteAndCreateLink =>
            arm := [DeleteFile(photo.physicalPath), CreateLink(bestPhoto.physicalPath, photo.physicalPath)];
          case OtherAction(_) =>
            assert photo in Others(group, bestPhoto);
            return Failure(ActionOutOfRange(action));
        }
        assert arm == PhotoOps(action, photo, bestPhoto, path);
        GroupOpsAppend(Others(group[..j], bestPhoto), photo, action, bestPhoto, path);
        ops := ops + arm;
      } else {
        assert Others(group[..j + 1], bestPhoto) == Others(group[..j], bestPhoto);
      }
    }
    assert group[..|group|] == group;
    r := if Others(group, bestPhoto) == [] then Success([]) else Success(ops);
  }

  /** One more pass of the outer loop of DedupAsync, after passes that raised nothing. */
  lemma DedupPlanUnfold(groups: seq<seq<Photo>>, keepPreferences: seq<KeepPreference>, action: DuplicateAction,
                        basePath: string, k: int)
    requires 0 <= k < |groups| && DedupPlan(groups[..k], keepPreferences, action, basePath).error.None?
    ensures var prev := DedupPlan(groups[..k], keepPreferences, action, basePath);
            var step := GroupStep(groups[k], keepPreferences, action, basePath);
            DedupPlan(groups[..k + 1], keepPreferences, action, basePath)
              == if step.Failure? then Outcome(prev.ops, Some(step.error)) else Outcome(prev.ops + step.value, None)
  {
    assert groups[..k + 1][..k] == groups[..k] && groups[..k + 1][k] == groups[k];
  }

  /** The outer loop of DedupAsync: groups in order, until one raises. */
  method DedupGroups(groups: seq<seq<Photo>>, keepPreferences: seq<KeepPreference>, action: DuplicateAction,
                     path: string) returns (outcome: Outcome)
    ensures outcome == DedupPlan(groups, keepPreferences, action, path)
  {
    var ops: seq<FileOp> := [];
    for k := 0 to |groups|
      invariant DedupPlan(groups[..k], keepPreferences, action, path) == Outcome(ops, None)
    {
      var step := DedupGroup(groups[k], keepPreferences, action, path);
      DedupPlanUnfold(groups, keepPreferences, action, path, k);
      if step.Failure? {
        outcome := Outcome(ops, Some(step.error));
        DedupErrorSticks(groups, keepPreferences, action, path, k + 1);
        return;
      }
      ops := ops + step.value;
    }
    assert groups[..|groups|] == groups;
    outcome := Outcome(ops, None);
  }

  /**
   * DedupAsync on the photos found under `path`: the groups of
   * BuildImageGroups with singletons left out, and for each group the
   * operations on its photos other than the best one.
   */
  method DedupAsync(path: string, mappedImages: array<Photo>, similarityBar: int,
                    keepPreferences: seq<KeepPreference>, action: DuplicateAction)
    returns (outcome: Outcome, ghost imageGroups: seq<seq<Photo>>, ghost rt: seq<int>)
    requires DenseIds(mappedImages[..])
    ensures Grouping(mappedImages[..], MaxDistance(similarityBar), true, rt, imageGroups)
    ensures outcome == DedupPlan(imageGroups, keepPreferences, action, path)
  {
    var groups;
    groups, rt := BuildImageGroups(mappedImages, similarityBar, true);
    imageGroups := groups;
    outcome := DedupGroups(groups, keepPreferences, action, path);
  }

  // ------------------------------------------------------------ DedupCopyAsync

  /** The destination holds a photo within `maxDistance` (exclusive) of `best`. */
  predicate HasDuplicate(destination: seq<Photo>, best: Photo, maxDistance: int)
  {
    exists j :: 0 <= j < |destination| && PhotoDiff(destination[j], best) < maxDistance
  }

  /** The planned copies, the two counters, and the exception that ended the run, if any. */
  datatype CopyOutcome = CopyOutcome(ops: seq<FileOp>, copied: int, skipped: int, error: Option<SelectError>)

  /** DedupCopyAsync over the source groups: each group's best photo is skipped or copied. */
  function CopyPlan(groups: seq<seq<Photo>>, keepPreferences: seq<KeepPreference>, destination: seq<Photo>,
                    maxDistance: int, destinationFolder: string): (o: CopyOutcome)
    ensures o.copied == |o.ops| && 0 <= o.skipped
    ensures o.error.None? ==> o.copied + o.skipped == |groups|
    ensures o.error.Some? ==> o.copied + o.skipped < |groups|
  {
    if groups == [] then CopyOutcome([], 0, 0, None)
    else
      var prev := CopyPlan(groups[..|groups| - 1], keepPreferences, destination, maxDistance, destinationFolder);
      if prev.error.Some? then prev
      else
        var best := FindBestPhoto(groups[|groups| - 1], keepPreferences);
        if best.Failure? then prev.(error := Some(best.error))
        else if HasDuplicate(destination, best.value, maxDistance) then prev.(skipped := prev.skipped + 1)
        else CopyOutcome(prev.ops + [CopyToFolder(best.value.physicalPath, destinationFolder)],
                         prev.copied + 1, prev.skipped, None)
  }

  lemma {:induction false} CopyErrorSticks(groups: seq<seq<Photo>>, keepPreferences: seq<KeepPreference>,
                                           destination: seq<Photo>, maxDistance: int, folder: string, k: int)
    requires 0 <= k <= |groups| && CopyPlan(groups[..k], keepPreferences, destination, maxDistance, folder).error.Some?
    ensures CopyPlan(groups, keepPreferences, destination, maxDistance, folder)
         == CopyPlan(groups[..k], keepPreferences, destination, maxDistance, folder)
    decreases |groups|
  {
    if k < |groups| {
      var init := groups[..|groups| - 1];
      assert init[..k] == groups[..k];
      CopyErrorSticks(init, keepPreferences, destination, maxDistance, folder, k);
    } else {
      assert groups[..k] == groups;
    }
  }

  /** `op` is the copy of the best photo of `group`, which the destination has no near duplicate of. */
  predicate CopiesBest(group: seq<Photo>, keepPreferences: seq<KeepPreference>, destination: seq<Photo>,
                       maxDistance: int, folder: string, op: FileOp)
  {
    FindBestPhoto(group, keepPreferences).Success?
    && !HasDuplicate(destination, FindBestPhoto(group, keepPreferences).value, maxDistance)
    && op == CopyToFolder(FindBestPhoto(group, keepPreferences).value.physicalPath, folder)
  }

  /** Unfolding the last group of a copy run that ended without exception. */
  lemma CopyPlanStep(groups: seq<seq<Photo>>, keepPreferences: seq<KeepPreference>, destination: seq<Photo>,
                     maxDistance: int, folder: string, op: FileOp)
    requires groups != [] && CopyPlan(groups, keepPreferences, destination, maxDistance, folder).error.None?
    ensures CopyPlan(groups[..|groups| - 1], keepPreferences, destination, maxDistance, folder).error.None?
    ensures op in CopyPlan(groups, keepPreferences, destination, maxDistance, folder).ops <==>
      op in CopyPlan(groups[..|groups| - 1], keepPreferences, destination, maxDistance, folder).ops
      || CopiesBest(groups[|groups| - 1], keepPreferences, destination, maxDistance, folder, op)
  {
  }

  lemma CopiesSplit(groups: seq<seq<Photo>>, init: seq<seq<Photo>>, keepPreferences: seq<KeepPreference>,
                    destination: seq<Photo>, maxDistance: int, folder: string, op: FileOp)
    requires groups != [] && init == groups[..|groups| - 1]
    ensures (exists k :: 0 <= k < |groups| && CopiesBest(groups[k], keepPreferences, destination, maxDistance, folder, op))
        <==> (exists k :: 0 <= k < |init| && CopiesBest(init[k], keepPreferences, destination, maxDistance, folder, op))
             || CopiesBest(groups[|groups| - 1], keepPreferences, destination, maxDistance, folder, op)
  {
    ExistsSplit(groups, init, g => CopiesBest(g, keepPreferences, destination, maxDistance, folder, op));
  }

  /** Some element of a non-empty sequence satisfies `p` exactly when one before the last does or the last does. */
  lemma ExistsSplit<X>(xs: seq<X>, init: seq<X>, p: X -> bool)
    requires xs != [] && init == xs[..|xs| - 1]
    ensures (exists k :: 0 <= k < |xs| && p(xs[k])) <==> (exists k :: 0 <= k < |init| && p(init[k])) || p(xs[|xs| - 1])
  {
    if exists k :: 0 <= k < |init| && p(init[k]) {
      var k :| 0 <= k < |init| && p(init[k]);
      assert init[k] == xs[k];
    }
    if exists k :: 0 <= k < |xs| && p(xs[k]) {
      var k :| 0 <= k < |xs| && p(xs[k]);
      if k < |init| {
        assert init[k] == xs[k];
      }
    }
  }

  /** Without exception, the copies are exactly the best photos of the groups the destination has no near duplicate of. */
  lemma {:induction false} CopyPlanTargets(groups: seq<seq<Photo>>, keepPreferences: seq<KeepPreference>,
                                           destination: seq<Photo>, maxDistance: int, folder: string, op: FileOp)
    requires CopyPlan(groups, keepPreferences, destination, maxDistance, folder).error.None?
    ensures op in CopyPlan(groups, keepPreferences, destination, maxDistance, folder).ops <==>
      exists k :: 0 <= k < |groups| && CopiesBest(groups[k], keepPreferences, destination, maxDistance, folder, op)
  {
    if groups != [] {
      var init := groups[..|groups| - 1];
      CopyPlanStep(groups, keepPreferences, destination, maxDistance, folder, op);
      CopyPlanTargets(init, keepPreferences, destination, maxDistance, folder, op);
      CopiesSplit(groups, init, keepPreferences, destination, maxDistance, folder, op);
    }
  }

  /**
   * `destinationImageTree.SearchByMaxDist(bestPhoto, maxDistance).FirstOrDefault() != null`:
   * the tree finds a photo of the destination within the threshold.
   */
  method FindDuplicate(destination: array<Photo>, imageTree: VpTree<Photo>, best: Photo, maxDistance: int)
    returns (found: bool)
    requires imageTree.Valid() && imageTree.calculateDistance == PhotoDiff
    requires multiset(imageTree.items[..]) == multiset(destination[..])
    ensures found == HasDuplicate(destination[..], best, maxDistance)
  {
    var hits := imageTree.SearchByMaxDist(best, maxDistance);
    PhotoDiffMetric(imageTree.items[..] + [best]);
    found := |hits| > 0;
    HitsMeanDuplicate(destination[..], imageTree.items[..], best, maxDistance, hits);
  }

  /** The result of the search is empty exactly when no destination photo is within the threshold. */
  lemma HitsMeanDuplicate(destination: seq<Photo>, items: seq<Photo>, best: Photo, maxDistance: int,
                          hits: seq<(Photo, int)>)
    requires multiset(items) == multiset(destination)
    requires forall l :: 0 <= l < |hits| ==> hits[l].0 in items && hits[l].1 == PhotoDiff(hits[l].0, best)
                                             && hits[l].1 < maxDistance
    requires forall x :: x in items && PhotoDiff(x, best) < maxDistance ==> (x, PhotoDiff(x, best)) in hits
    ensures |hits| > 0 <==> HasDuplicate(destination, best, maxDistance)
  {
    if |hits| > 0 {
      var x := hits[0].0;
      assert x in multiset(destination);
      var j :| 0 <= j < |destination| && destination[j] == x;
    }
    if HasDuplicate(destination, best, maxDistance) {
      var j :| 0 <= j < |destination| && PhotoDiff(destination[j], best) < maxDistance;
      assert destination[j] in multiset(items);
    }
  }

  /** One more pass of the loop of DedupCopyAsync, after passes that raised nothing. */
  lemma CopyPlanUnfold(groups: seq<seq<Photo>>, keepPreferences: seq<KeepPreference>, destination: seq<Photo>,
                       maxDistance: int, folder: string, k: int)
    requires 0 <= k < |groups| && CopyPlan(groups[..k], keepPreferences, destination, maxDistance, folder).error.None?
    ensures var prev := CopyPlan(groups[..k], keepPreferences, destination, maxDistance, folder);
            var best := FindBestPhoto(groups[k], keepPreferences);
            CopyPlan(groups[..k + 1], keepPreferences, destination, maxDistance, folder)
              == if best.Failure? then prev.(error := Some(best.error))
                 else if HasDuplicate(destination, best.value, maxDistance) then prev.(skipped := prev.skipped + 1)
                 else CopyOutcome(prev.ops + [CopyToFolder(best.value.physicalPath, folder)], prev.copied + 1,
                                  prev.skipped, None)
  {
    assert groups[..k + 1][..k] == groups[..k] && groups[..k + 1][k] == groups[k];
  }

  /** The loop of DedupCopyAsync over the source groups, against the destination tree. */
  method CopyGroups(groups: seq<seq<Photo>>, keepPreferences: seq<KeepPreference>, destination: array<Photo>,
                    destinationImageTree: VpTree<Photo>, maxDistance: int, destinationFolder: string)
    returns (outcome: CopyOutcome)
    requires destinationImageTree.Valid() && destinationImageTree.calculateDistance == PhotoDiff
    requires multiset(destinationImageTree.items[..]) == multiset(destination[..])
    ensures outcome == CopyPlan(groups, keepPreferences, destination[..], maxDistance, destinationFolder)
  {
    var ops: seq<FileOp> := [];
    var copiedImagesCount := 0;
    var skippedImagesCount := 0;
    for k := 0 to |groups|
      invariant CopyPlan(groups[..k], keepPreferences, destination[..], maxDistance, destinationFolder)
             == CopyOutcome(ops, copiedImagesCount, skippedImagesCount, None)
    {
      CopyPlanUnfold(groups, keepPreferences, destination[..], maxDistance, destinationFolder, k);
      var found := FindBestPhoto(groups[k], keepPreferences);
      if found.Failure? {
        outcome := CopyOutcome(ops, copiedImagesCount, skippedImagesCount, Some(found.error));
        CopyErrorSticks(groups, keepPreferences, destination[..], maxDistance, destinationFolder, k + 1);
        return;
      }
      var bestPhoto := found.value;
      var duplicate := FindDuplicate(destination, destinationImageTree, bestPhoto, maxDistance);
      if duplicate {
        skippedImagesCount := skippedImagesCount + 1;
      } else {
        ops := ops + [CopyToFolder(bestPhoto.physicalPath, destinationFolder)];
        copiedImagesCount := copiedImagesCount + 1;
      }
    }
    assert groups[..|groups|] == groups;
    outcome := CopyOutcome(ops, copiedImagesCount, skippedImagesCount, None);
  }

  /**
   * DedupCopyAsync: every source photo in exactly one group, and for each
   * group its best photo either skipped (the destination tree finds a near
   * duplicate) or copied into the destination folder.
   */
  method DedupCopyAsync(destinationFolder: string, sourceMappedImages: array<Photo>,
                        destinationMappedImages: array<Photo>, similarityBar: int, keepPreferences: seq<KeepPreference>)
    returns (outcome: CopyOutcome, ghost sourceImageGroups: seq<seq<Photo>>, ghost rt: seq<int>)
    requires DenseIds(sourceMappedImages[..])
    ensures Grouping(sourceMappedImages[..], MaxDistance(similarityBar), false, rt, sourceImageGroups)
    ensures outcome == CopyPlan(sourceImageGroups, keepPreferences, destinationMappedImages[..],
                                MaxDistance(similarityBar), destinationFolder)
  {
    var groups;
    groups, rt := BuildImageGroups(sourceMappedImages, similarityBar, false);
    sourceImageGroups := groups;
    var maxDistance := MaxDistance(similarityBar);
    var destinationImageTree := BuildTree(destinationMappedImages);
    outcome := CopyGroups(groups, keepPreferences, destinationMappedImages, destinationImageTree, maxDistance,
                          destinationFolder);
  }

  // ----------------------------------------------------------- DedupPatchAsync

  /** The ordinal case folding StringComparison.OrdinalIgnoreCase applies, on ASCII letters. */
  function FoldCase(c: char): (f: char)
    ensures 'a' <= c <= 'z' ==> f as int == c as int - 32
    ensures !('a' <= c <= 'z') ==> f == c
    ensures !('a' <= f <= 'z')
  {
    if 'a' <= c <= 'z' then (c as int - 32) as char else c
  }

  /** `s.StartsWith(prefix, StringComparison.OrdinalIgnoreCase)`. */
  predicate StartsWithIgnoreCase(s: string, prefix: string)
  {
    |prefix| <= |s| && forall i :: 0 <= i < |prefix| ==> FoldCase(s[i]) == FoldCase(prefix[i])
  }

  /** A prefix in any mix of cases matches, and a string that starts with another starts with it ignoring case. */
  lemma StartsWithIgnoreCaseMeaning(s: string, prefix: string, upper: string)
    requires |upper| == |prefix| && forall i :: 0 <= i < |prefix| ==> upper[i] == FoldCase(prefix[i])
    ensures StartsWithIgnoreCase(s, prefix) <==> StartsWithIgnoreCase(s, upper)
    ensures prefix <= s ==> StartsWithIgnoreCase(s, prefix)
  {
    forall i | 0 <= i < |prefix| ensures FoldCase(upper[i]) == FoldCase(prefix[i]) {
      var c := prefix[i];
      assert !('a' <= upper[i] <= 'z');
    }
  }

  /** `images.Where(img => StartsWith(destinationFolder))`, each overwritten with the best photo. */
  function PatchOps(images: seq<Photo>, best: Photo, destinationFolder: string): (r: seq<FileOp>)
    ensures forall op :: op in r <==>
      exists x :: x in images && StartsWithIgnoreCase(x.physicalPath, destinationFolder)
                  && op == CopyFile(best.physicalPath, x.physicalPath, true)
  {
    if images == [] then []
    else
      var last := images[|images| - 1];
      assert images == images[..|images| - 1] + [last];
      PatchOps(images[..|images| - 1], best, destinationFolder)
        + (if StartsWithIgnoreCase(last.physicalPath, destinationFolder)
           then [CopyFile(best.physicalPath, last.physicalPath, true)] else [])
  }

  /** The planned overwrites, the counter, and the exception that ended the run, if any. */
  datatype PatchOutcome = PatchOutcome(ops: seq<FileOp>, patched: int, error: Option<SelectError>)

  /** DedupPatchAsync over the groups: a group is patched only when its best photo is in the source folder. */
  function PatchPlan(groups: seq<seq<Photo>>, keepPreferences: seq<KeepPreference>, sourceFolder: string,
                     destinationFolder: string): (o: PatchOutcome)
    ensures o.patched == |o.ops|
  {
    if groups == [] then PatchOutcome([], 0, None)
    else
      var prev := PatchPlan(groups[..|groups| - 1], keepPreferences, sourceFolder, destinationFolder);
      if prev.error.Some? then prev
      else
        var images := groups[|groups| - 1];
        var best := FindBestPhoto(images, keepPreferences);
        if best.Failure? then prev.(error := Some(best.error))
        else if StartsWithIgnoreCase(best.value.physicalPath, sourceFolder) then
          var ops := PatchOps(images, best.value, destinationFolder);
          PatchOutcome(prev.ops + ops, prev.patched + |ops|, None)
        else prev
  }

  lemma {:induction false} PatchErrorSticks(groups: seq<seq<Photo>>, keepPreferences: seq<KeepPreference>,
                                            sourceFolder: string, destinationFolder: string, k: int)
    requires 0 <= k <= |groups| && PatchPlan(groups[..k], keepPreferences, sourceFolder, destinationFolder).error.Some?
    ensures PatchPlan(groups, keepPreferences, sourceFolder, destinationFolder)
         == PatchPlan(groups[..k], keepPreferences, sourceFolder, destinationFolder)
    decreases |groups|
  {
    if k < |groups| {
      var init := groups[..|groups| - 1];
      assert init[..k] == groups[..k];
      PatchErrorSticks(init, keepPreferences, sourceFolder, destinationFolder, k);
    } else {
      assert groups[..k] == groups;
    }
  }

  /**
   * Without exception, the overwrites are exactly: for each group whose best
   * photo is under the source folder, that photo copied over each member
   * under the destination folder.
   */
  lemma {:induction false} PatchPlanTargets(groups: seq<seq<Photo>>, keepPreferences: seq<KeepPreference>,
                                            sourceFolder: string, destinationFolder: string, op: FileOp)
    requires PatchPlan(groups, keepPreferences, sourceFolder, destinationFolder).error.None?
    ensures op in PatchPlan(groups, keepPreferences, sourceFolder, destinationFolder).ops <==>
      exists k :: 0 <= k < |groups| && PatchesFrom(groups[k], keepPreferences, sourceFolder, destinationFolder, op)
  {
    if groups != [] {
      var init := groups[..|groups| - 1];
      PatchPlanStep(groups, keepPreferences, sourceFolder, destinationFolder, op);
      PatchPlanTargets(init, keepPreferences, sourceFolder, destinationFolder, op);
      ExistsSplit(groups, init, g => PatchesFrom(g, keepPreferences, sourceFolder, destinationFolder, op));
    }
  }

  /**
   * `op` overwrites a photo of `group` in the destination folder with the
   * group's best photo, which is in the source folder.
   */
  predicate PatchesFrom(group: seq<Photo>, keepPreferences: seq<KeepPreference>, sourceFolder: string,
                        destinationFolder: string, op: FileOp)
  {
    && FindBestPhoto(group, keepPreferences).Success?
    && StartsWithIgnoreCase(FindBestPhoto(group, keepPreferences).value.physicalPath, sourceFolder)
    && exists x :: x in group && StartsWithIgnoreCase(x.physicalPath, destinationFolder)
                   && op == CopyFile(FindBestPhoto(group, keepPreferences).value.physicalPath, x.physicalPath, true)
  }

  /** Unfolding the last group of a patch run that ended without exception. */
  lemma PatchPlanStep(groups: seq<seq<Photo>>, keepPreferences: seq<KeepPreference>, sourceFolder: string,
                      destinationFolder: string, op: FileOp)
    requires groups != [] && PatchPlan(groups, keepPreferences, sourceFolder, destinationFolder).error.None?
    ensures PatchPlan(groups[..|groups| - 1], keepPreferences, sourceFolder, destinationFolder).error.None?
    ensures op in PatchPlan(groups, keepPreferences, sourceFolder, destinationFolder).ops <==>
      op in PatchPlan(groups[..|groups| - 1], keepPreferences, sourceFolder, destinationFolder).ops
      || PatchesFrom(groups[|groups| - 1], keepPreferences, sourceFolder, destinationFolder, op)
  {
  }

  /** The inner loop of DedupPatchAsync for one group whose best photo is in the source folder. */
  method PatchGroup(images: seq<Photo>, bestPhoto: Photo, destinationFolder: string) returns (ops: seq<FileOp>)
    ensures ops == PatchOps(images, bestPhoto, destinationFolder)
  {
    ops := [];
    for j := 0 to |images|
      invariant ops == PatchOps(images[..j], bestPhoto, destinationFolder)
    {
      assert images[..j + 1][..j] == images[..j];
      if StartsWithIgnoreCase(images[j].physicalPath, destinationFolder) {
        ops := ops + [CopyFile(bestPhoto.physicalPath, images[j].physicalPath, true)];
      }
    }
    assert images[..|images|] == images;
  }

  /** One more pass of the loop of DedupPatchAsync, after passes that raised nothing. */
  lemma PatchPlanUnfold(groups: seq<seq<Photo>>, keepPreferences: seq<KeepPreference>, sourceFolder: string,
                        destinationFolder: string, k: int)
    requires 0 <= k < |groups| && PatchPlan(groups[..k], keepPreferences, sourceFolder, destinationFolder).error.None?
    ensures var prev := PatchPlan(groups[..k], keepPreferences, sourceFolder, destinationFolder);
            var best := FindBestPhoto(groups[k], keepPreferences);
            PatchPlan(groups[..k + 1], keepPreferences, sourceFolder, destinationFolder)
              == if best.Failure? then prev.(error := Some(best.error))
                 else if StartsWithIgnoreCase(best.value.physicalPath, sourceFolder) then
                   var ops := PatchOps(groups[k], best.value, destinationFolder);
                   PatchOutcome(prev.ops + ops, prev.patched + |ops|, None)
                 else prev
  {
    assert groups[..k + 1][..k] == groups[..k] && groups[..k + 1][k] == groups[k];
  }

  /** The loop of DedupPatchAsync over the groups. */
  method PatchGroups(groups: seq<seq<Photo>>, keepPreferences: seq<KeepPreference>, sourceFolder: string,
                     destinationFolder: string) returns (outcome: PatchOutcome)
    ensures outcome == PatchPlan(groups, keepPreferences, sourceFolder, destinationFolder)
  {
    var ops: seq<FileOp> := [];
    var patchedImagesCount := 0;
    for k := 0 to |groups|
      invariant PatchPlan(groups[..k], keepPreferences, sourceFolder, destinationFolder)
             == PatchOutcome(ops, patchedImagesCount, None)
    {
      PatchPlanUnfold(groups, keepPreferences, sourceFolder, destinationFolder, k);
      var found := FindBestPhoto(groups[k], keepPreferences);
      if found.Failure? {
        outcome := PatchOutcome(ops, patchedImagesCount, Some(found.error));
        PatchErrorSticks(groups, keepPreferences, sourceFolder, destinationFolder, k + 1);
        return;
      }
      var bestPhoto := found.value;
      if StartsWithIgnoreCase(bestPhoto.physicalPath, sourceFolder) {
        var patches := PatchGroup(groups[k], bestPhoto, destinationFolder);
        ops := ops + patches;
        patchedImagesCount := patchedImagesCount + |patches|;
      }
    }
    assert groups[..|groups|] == groups;
    outcome := PatchOutcome(ops, patchedImagesCount, None);
  }

  /** The photos with their ids renumbered to their positions; nothing else changes. */
  function Renumber(xs: seq<Photo>): (r: seq<Photo>)
    ensures |r| == |xs| && DenseIds(r)
    ensures forall i :: 0 <= i < |xs| ==> r[i].(id := xs[i].id) == xs[i]
  {
    seq(|xs|, i requires 0 <= i < |xs| => xs[i].(id := i))
  }

  /**
   * After renumbering, the unions BuildImageGroups performs on the
   * concatenated photos are exactly the pairs of similar photos.
   */
  lemma RenumberedUnionsAreEdges(xs: seq<Photo>, m: int, i: int, j: int)
    ensures UnionCalled(Renumber(xs), m, i, j) <==> Edge(xs, m, i, j)
  {
    var r := Renumber(xs);
    UnionsAreEdges(r, m, i, j);
    if 0 <= i < |xs| && 0 <= j < |xs| {
      assert r[i].hash == xs[i].hash && r[j].hash == xs[j].hash;
    }
  }

  /**
   * DedupPatchAsync: the source photos followed by the destination photos,
   * renumbered into one id space and grouped with singletons left out; in
   * each group whose best photo is in the source folder, the members in the
   * destination folder are overwritten with it.
   */
  method DedupPatchAsync(sourceFolder: string, destinationFolder: string, sourceFiles: array<Photo>,
                         destinationFiles: array<Photo>, similarityBar: int, keepPreferences: seq<KeepPreference>)
    returns (outcome: PatchOutcome, ghost imageGroups: seq<seq<Photo>>, ghost rt: seq<int>)
    ensures Grouping(Renumber(sourceFiles[..] + destinationFiles[..]), MaxDistance(similarityBar), true, rt, imageGroups)
    ensures outcome == PatchPlan(imageGroups, keepPreferences, sourceFolder, destinationFolder)
  {
    var n, m := sourceFiles.Length, destinationFiles.Length;
    var mappedImages := new Photo[n + m](i requires 0 <= i < n + m reads sourceFiles, destinationFiles =>
                                           (if i < n then sourceFiles[i] else destinationFiles[i - n]).(id := i));
    assert mappedImages[..] == Renumber(sourceFiles[..] + destinationFiles[..]);
    var groups;
    groups, rt := BuildImageGroups(mappedImages, similarityBar, true);
    imageGroups := groups;
    outcome := PatchGroups(groups, keepPreferences, sourceFolder, destinationFolder);
  }
}
