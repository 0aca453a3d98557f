/**
 Transactional publication of a report, a video and a frames directory
 (reference/diffusers/animation_video.py).
 */
module AnimationOutput {
  import opened Options
  import opened AnimationDisk

  /** A path's last component splits into a stem and a suffix that is empty or starts with a dot. */
  predicate IsSuffix(suffix: string) {
    suffix == "" || suffix[0] == '.'
  }

  function OutputTargets(stem: string, suffix: string): Targets {
    Targets(Public(stem + suffix), Public(stem + ".json"), Public(stem + "-frames"))
  }

  /** Beside the output, under a name of its own. */
  function LockPath(stem: string, suffix: string): Path {
    Public("." + stem + suffix + ".animation.lock")
  }

  /** One lock for each output, and none of them is a target. */
  lemma LockPerOutput(stem: string, suffix: string, other: string, otherSuffix: string)
    ensures LockPath(stem, suffix) == LockPath(other, otherSuffix)
       <==> OutputTargets(stem, suffix).video == OutputTargets(other, otherSuffix).video
    ensures IsSuffix(suffix) ==> !OutputTargets(stem, suffix).Contains(LockPath(stem, suffix))
  {
    var a, b := stem + suffix, other + otherSuffix;
    assert ("." + a + ".animation.lock")[1..|a| + 1] == a;
    assert ("." + b + ".animation.lock")[1..|b| + 1] == b;
    assert "." + stem + suffix == "." + a && "." + other + otherSuffix == "." + b;
    assert |LockPath(stem, suffix).name| == |a| + 16;
  }

  lemma TargetsDistinctUnlessJson(stem: string, suffix: string)
    requires IsSuffix(suffix)
    ensures var t := OutputTargets(stem, suffix);
            && t.frames != t.video && t.frames != t.report
            && (t.video == t.report <==> suffix == ".json")
  {
    var t := OutputTargets(stem, suffix);
    assert (stem + "-frames")[|stem|..] == "-frames";
    assert (stem + ".json")[|stem|..] == ".json";
    assert (stem + suffix)[|stem|..] == suffix;
    assert t.report.name[|stem|] == '.';
    assert t.frames.name[|stem|] == '-';
  }

  /** The overwrite and ownership checks made on entry and again right before publishing. */
  predicate CheckTargets(tree: Tree, t: Targets, overwrite: bool, schema: string, location: string) {
    && (overwrite || (t.video !in tree && t.report !in tree && t.frames !in tree))
    && (forall path <- [t.video, t.report, t.frames] :: path in tree ==> !tree[path].Symlink?)
    && (forall path <- [t.video, t.report] :: path in tree ==> !tree[path].Directory?)
    && (t.frames in tree ==> Managed(tree[t.frames], schema, location))
  }

  /** A frames directory this program may replace carries a manifest that names its schema and video. */
  predicate Managed(node: Node, schema: string, location: string) {
    node.Directory? && "manifest.json" in node.entries && node.entries["manifest.json"] == Manifest(schema, location)
  }

  /** A frames directory with the marker of its schema and video. */
  ghost function Marked(frames: map<string, Content>, schema: string, location: string): Node {
    Directory(frames["manifest.json" := Manifest(schema, location)])
  }

  /** What a run may replace: nothing at all, or on request two files and a frames directory of its own kind. */
  ghost predicate MayReplace(seen: Bundle, overwrite: bool, schema: string, location: string) {
    || seen == Bundle(None, None, None)
    || (&& overwrite
        && (seen.video.Some? ==> seen.video.value.File?) && (seen.report.Some? ==> seen.report.value.File?)
        && (seen.frames.Some? ==> exists entries: map<string, Content> ::
              seen.frames.value == Marked(entries, schema, location)))
  }

  /** The checks accept exactly what may be replaced. */
  lemma CheckedExactly(tree: Tree, t: Targets, overwrite: bool, schema: string, location: string)
    ensures CheckTargets(tree, t, overwrite, schema, location) <==> MayReplace(Visible(tree, t), overwrite, schema, location)
  {
    if t.frames in tree && Managed(tree[t.frames], schema, location) {
      var entries := tree[t.frames].entries;
      assert entries["manifest.json" := Manifest(schema, location)] == entries;
      assert tree[t.frames] == Marked(entries, schema, location);
    }
  }

  /** What a run published is recognised as this program's own: it may be replaced, but only on request. */
  lemma PublishedMayBeReplaced(tree: Tree, t: Targets, video: Content, report: Content, frames: map<string, Content>,
                               schema: string, location: string)
    requires Visible(tree, t) == Bundle(Some(File(video)), Some(File(report)), Some(Marked(frames, schema, location)))
    ensures CheckTargets(tree, t, true, schema, location)
    ensures !CheckTargets(tree, t, false, schema, location)
    ensures forall other: string :: other != schema ==> !CheckTargets(tree, t, true, other, location)
  {
    assert t.frames in tree;
  }

  /** With the suffix ".json" the new video stands for a moment where a report would vouch for it. */
  lemma JsonOutputMisleads(video: Content, report: Content, frames: map<string, Content>)
    requires video != report
    ensures var t := OutputTargets("clip", ".json");
      var promise := Promise(t, Bundle(None, None, None), Bundle(Some(File(video)), Some(File(report)), Some(Directory(frames))));
      promise.KeptBy(map[t.frames := Directory(frames)])
      && !promise.KeptBy(map[t.frames := Directory(frames)][t.video := File(video)])
  {
    TargetsDistinctUnlessJson("clip", ".json");
  }

  // ---- Undoing the retirement of the old bundle ----

  datatype Backup = Backup(copy: Path, target: Path)

  /** The tree in which the listed targets have been renamed to their backups, in order. */
  ghost function Retired(base: Tree, backups: seq<Backup>): Tree {
    if backups == [] then base
    else
      var rest := backups[..|backups| - 1];
      var last := backups[|backups| - 1];
      var tree := Retired(base, rest);
      if last.target in tree then Renamed(tree, last.target, last.copy) else tree
  }

  /** Every listed rename was possible when it was made, and did not overwrite anything. */
  ghost predicate Retirable(base: Tree, backups: seq<Backup>) {
    backups != [] ==>
      var rest := backups[..|backups| - 1];
      var last := backups[|backups| - 1];
      && Retirable(base, rest)
      && last.target.Public? && last.copy.Private?
      && last.target in Retired(base, rest) && last.copy !in Retired(base, rest)
  }

  lemma {:induction false} RetirablePrefix(base: Tree, backups: seq<Backup>, n: nat)
    requires Retirable(base, backups) && n <= |backups|
    ensures Retirable(base, backups[..n])
  {
    if n == |backups| {
      assert backups[..n] == backups;
    } else {
      var rest := backups[..|backups| - 1];
      assert rest[..n] == backups[..n];
      RetirablePrefix(base, rest, n);
    }
  }

  lemma RetireOneMore(base: Tree, backups: seq<Backup>, b: Backup)
    requires Retirable(base, backups) && b.target.Public? && b.copy.Private?
    requires b.target in Retired(base, backups) && b.copy !in Retired(base, backups)
    ensures Retirable(base, backups + [b])
    ensures Retired(base, backups + [b]) == Renamed(Retired(base, backups), b.target, b.copy)
  {
    assert (backups + [b])[..|backups|] == backups;
  }

  /** A retired target is gone, and no other public path changes. */
  lemma {:induction false} RetiredTargetsAreAway(base: Tree, backups: seq<Backup>)
    requires Retirable(base, backups)
    ensures forall b <- backups :: b.target.Public? && b.copy.Private? && b.target !in Retired(base, backups)
    ensures forall path: Path :: path.Public? && path in Retired(base, backups) ==> path in base && Retired(base, backups)[path] == base[path]
  {
    if backups != [] {
      var rest, last := backups[..|backups| - 1], backups[|backups| - 1];
      RetiredTargetsAreAway(base, rest);
      assert forall b <- backups :: b in rest || b == last;
    }
  }

  lemma {:induction false} RetiredElsewhere(base: Tree, backups: seq<Backup>, path: Path)
    requires forall b <- backups :: b.target != path && b.copy != path
    ensures Lookup(Retired(base, backups), path) == Lookup(base, path)
  {
    if backups != [] {
      RetiredElsewhere(base, backups[..|backups| - 1], path);
    }
  }

  /** Changing a path that is neither retired nor a backup commutes with the retirement. */
  lemma {:induction false} RetiredWithSideChange(base: Tree, backups: seq<Backup>, path: Path, node: Node)
    requires Retirable(base, backups) && path in base
    requires forall b <- backups :: b.target != path && b.copy != path
    ensures Retirable(base[path := node], backups)
    ensures Retired(base[path := node], backups) == Retired(base, backups)[path := node]
  {
    if backups != [] {
      RetiredWithSideChange(base, backups[..|backups| - 1], path, node);
    }
  }

  ghost function Without(tree: Tree, paths: seq<Path>): Tree {
    tree - (set path | path in paths)
  }

  lemma WithoutElsewhere(tree: Tree, paths: seq<Path>, path: Path)
    requires path !in paths
    ensures Lookup(Without(tree, paths), path) == Lookup(tree, path)
  {
  }

  /** A tree whose staged and published frames directories hold the given files. */
  ghost function Split(base: Tree, source: Path, target: Path, left: map<string, Content>, moved: map<string, Content>): Tree {
    base[source := Directory(left)][target := Directory(moved)]
  }

  lemma SplitStart(base: Tree, source: Path, target: Path)
    requires source != target && source in base && base[source].Directory?
    ensures Split(base, source, target, base[source].entries, map[]) == base[target := Directory(map[])]
  {
    assert base[source := Directory(base[source].entries)] == base;
  }

  lemma SplitApart(base: Tree, source: Path, target: Path, left: map<string, Content>, moved: map<string, Content>)
    requires source != target && target !in base
    ensures var tree := Split(base, source, target, left, moved);
      target in tree && tree[target] == Directory(moved) && tree - {target} == base[source := Directory(left)]
  {
  }

  /** One frame moved: both directories change, and together they still hold the same frames. */
  lemma MoveOne(base: Tree, source: Path, target: Path, left: map<string, Content>, moved: map<string, Content>, name: string)
    requires source != target && name in left && left.Keys !! moved.Keys
    ensures Split(base, source, target, left, moved)[source := Directory(left - {name})][target := Directory(moved[name := left[name]])]
         == Split(base, source, target, left - {name}, moved[name := left[name]])
  {
  }

  /** Two directories share one set of files between them. */
  ghost predicate Shared(all: map<string, Content>, moved: map<string, Content>, left: map<string, Content>) {
    moved.Keys !! left.Keys && moved + left == all
  }

  lemma NoneMoved(all: map<string, Content>)
    ensures Shared(all, map[], all)
  {
    assert map[] + all == all;
  }

  lemma KeysApart(all: map<string, Content>, moved: map<string, Content>, left: map<string, Content>, name: string)
    requires Shared(all, moved, left) && name in left
    ensures moved.Keys !! left.Keys && (left - {name}).Keys == left.Keys - {name}
    ensures Shared(all, moved[name := left[name]], left - {name})
  {
    assert moved[name := left[name]] + (left - {name}) == moved + left;
  }

  lemma AllMoved(all: map<string, Content>, moved: map<string, Content>, left: map<string, Content>)
    requires Shared(all, moved, left) && left.Keys == {}
    ensures left == map[] && moved == all
  {
  }

  /** Undoing the newest retirement that is left. */
  lemma RestoreNewest(base: Tree, backups: seq<Backup>, count: nat)
    requires Retirable(base, backups) && count < |backups|
    ensures var b := backups[count];
      var tree := Retired(base, backups[..count + 1]);
      b.copy in tree && b.target !in tree && Renamed(tree, b.copy, b.target) == Retired(base, backups[..count])
    ensures count > 0 ==> backups[0].target !in Retired(base, backups[..count])
    ensures forall path: Path :: path.Public? && path !in base ==> path !in Retired(base, backups[..count])
  {
    RetirablePrefix(base, backups, count + 1);
    RetirablePrefix(base, backups, count);
    RetiredTargetsAreAway(base, backups[..count]);
    assert backups[..count + 1][..count] == backups[..count];
    RenameBack(Retired(base, backups[..count]), backups[count].target, backups[count].copy);
    assert count > 0 ==> backups[..count][0] in backups[..count];
  }

  // ---- The output object ----

  datatype Step = RetiringOld | CreatingFrames | MovingFrames | PublishingVideo | PublishingReport

  predicate IsPrevious(path: Path) { path.Private? && path.item.Previous? }

  ghost predicate NoPrevious(tree: Tree) { forall path <- tree :: !IsPrevious(path) }

  datatype Outcome = Rejected | RolledBack(failed: Step) | Committed

  datatype Entry = Entered | NotLocked | PidNotWritten | Refused

  const TEMPORARY := Private(Root)
  const STAGED_FRAMES := Private(Frames)
  const STAGED_REPORT := Private(Report)
  const STAGED_VIDEO := Private(Video)

  class AnimationOutput {
    const disk: Disk
    const targets: Targets
    const lock: Path
    const overwrite: bool
    const schema: string
    const location: string

    constructor (disk: Disk, stem: string, suffix: string, overwrite: bool, schema: string, location: string)
      requires IsSuffix(suffix)
      ensures this.disk == disk && targets == OutputTargets(stem, suffix) && lock == LockPath(stem, suffix) && Valid()
      ensures this.overwrite == overwrite && this.schema == schema && this.location == location
    {
      this.disk := disk;
      targets := OutputTargets(stem, suffix);
      lock := LockPath(stem, suffix);
      this.overwrite := overwrite;
      this.schema := schema;
      this.location := location;
      new;
      TargetsDistinctUnlessJson(stem, suffix);
      LockPerOutput(stem, suffix, stem, suffix);
    }

    ghost predicate Valid() {
      && targets.video.Public? && targets.report.Public? && targets.frames.Public? && lock.Public?
      && !targets.Contains(lock)
      && targets.frames != targets.video && targets.frames != targets.report
    }

    /** The private directory as entry leaves it and sampling fills it: frames, and perhaps a video. */
    ghost predicate Staged()
      reads disk
    {
      && STAGED_FRAMES in disk.tree && disk.tree[STAGED_FRAMES].Directory?
      && STAGED_REPORT !in disk.tree
      && NoPrevious(disk.tree)
    }

    /** The bundle this run wants to publish, as it is staged before the commit. */
    ghost function Next(tree: Tree, metadata: Content): Bundle
      requires STAGED_FRAMES in tree && tree[STAGED_FRAMES].Directory?
    {
      Bundle(Lookup(tree, STAGED_VIDEO), Some(File(metadata)),
             Some(Marked(tree[STAGED_FRAMES].entries, schema, location)))
    }

    /** The new video standing where the report belongs is neither the previous bundle nor the next one. */
    ghost predicate Misleading(promise: Promise) {
      var seen := Bundle(promise.next.video, promise.next.video, promise.next.frames);
      seen != promise.previous && seen != promise.next
    }

    method Enter() returns (entry: Entry)
      requires Valid()
      requires forall path: Path :: path in disk.tree ==> path.Public?
      modifies disk`tree, disk`kept
      ensures entry == Entered ==>
        && lock !in old(disk.tree)
        && MayReplace(Visible(old(disk.tree), targets), overwrite, schema, location)
        && Staged() && lock in disk.tree
      // Without a request to overwrite it lets nobody in where anything exists.
      ensures entry == Entered && !overwrite ==> Visible(old(disk.tree), targets) == Bundle(None, None, None)
      ensures entry == Entered ==> TEMPORARY in disk.tree && disk.tree - {lock, TEMPORARY, STAGED_FRAMES} == old(disk.tree)
      // On a healthy disk only another lock or the checks keep it out.
      ensures disk.healthy ==>
        (entry == Entered <==>
          lock !in old(disk.tree) && MayReplace(Visible(old(disk.tree), targets), overwrite, schema, location))
      // A refused entry leaves the directory as it was, and in particular another run's lock; an empty
      // private directory stays for a while when no frames directory could be made in it.
      ensures entry == NotLocked || entry == Refused ==> disk.tree - {TEMPORARY} == old(disk.tree)
      ensures entry == NotLocked ==> disk.tree == old(disk.tree)
      ensures TEMPORARY in disk.tree ==> disk.tree[TEMPORARY] == Directory(map[])
      // The lock stays behind exactly when writing the process id into it failed.
      ensures entry == PidNotWritten ==> lock !in old(disk.tree) && disk.tree == old(disk.tree)[lock := File(Bytes(""))]
    {
      var locked := disk.CreateExclusive(lock);
      if !locked {
        return NotLocked;
      }
      var pid: string := *;
      var written := disk.WriteFile(lock, Bytes(pid));
      if !written {
        return PidNotWritten;
      }
      CheckedExactly(disk.tree, targets, overwrite, schema, location);
      assert Visible(disk.tree, targets) == Visible(old(disk.tree), targets);
      hide CheckTargets, MayReplace;
      var staged := CheckTargets(disk.tree, targets, overwrite, schema, location);
      if staged {
        staged := MakePrivate();
      }
      if !staged {
        disk.Unlink(lock);
        return Refused;
      }
      return Entered;
    }

    /** The temporary directory, and the frames directory in it. */
    method MakePrivate() returns (ok: bool)
      requires TEMPORARY !in disk.tree && STAGED_FRAMES !in disk.tree
      modifies disk`tree, disk`kept
      ensures ok ==> disk.tree == old(disk.tree)[TEMPORARY := Directory(map[])][STAGED_FRAMES := Directory(map[])]
      ensures !ok ==> disk.tree == old(disk.tree) || disk.tree == old(disk.tree)[TEMPORARY := Directory(map[])]
      ensures disk.healthy ==> ok
    {
      ok := disk.MakeDirectory(TEMPORARY);
      if ok {
        ok := disk.MakeDirectory(STAGED_FRAMES);
      }
    }

    method Commit(metadata: Content) returns (outcome: Outcome)
      requires Valid() && Staged()
      modifies disk
      // All or nothing.
      ensures outcome == Committed ==> Visible(disk.tree, targets) == Next(old(disk.tree), metadata)
      ensures outcome != Committed ==> Visible(disk.tree, targets) == Visible(old(disk.tree), targets)
      ensures forall path: Path :: path.Public? && !targets.Contains(path) ==>
        Lookup(disk.tree, path) == Lookup(old(disk.tree), path)
      // On a healthy disk what may be replaced is replaced.
      ensures disk.healthy ==>
        (outcome == Committed <==>
          && MayReplace(Visible(old(disk.tree), targets), overwrite, schema, location)
          && STAGED_VIDEO in old(disk.tree) && targets.video != targets.report)
      // What may not be replaced is refused; without a request to overwrite that is anything that exists.
      ensures !MayReplace(Visible(old(disk.tree), targets), overwrite, schema, location) ==> outcome == Rejected
      ensures outcome == Committed && !overwrite ==> Visible(old(disk.tree), targets) == Bundle(None, None, None)
      ensures outcome == Committed ==> STAGED_VIDEO in old(disk.tree)
      // An output named like its own report can never be published.
      ensures targets.video == targets.report ==> outcome != Committed
      // The report vouches for a complete bundle between any two operations, with one exact exception.
      ensures disk.promise == Promise(targets, Visible(old(disk.tree), targets), Next(old(disk.tree), metadata))
      ensures disk.kept <==>
        !(targets.video == targets.report && outcome == RolledBack(PublishingReport) && Misleading(disk.promise))
    {
      ghost var promise := Promise(targets, Visible(disk.tree, targets), Next(disk.tree, metadata));
      disk.Watch(promise);
      var written := disk.WriteEntry(STAGED_FRAMES, "manifest.json", Manifest(schema, location));
      if !written {
        return Rejected;
      }
      written := disk.WriteFile(STAGED_REPORT, metadata);
      if !written {
        return Rejected;
      }
      CheckedExactly(disk.tree, targets, overwrite, schema, location);
      assert Visible(disk.tree, targets) == Visible(old(disk.tree), targets);
      hide CheckTargets, MayReplace;
      if !CheckTargets(disk.tree, targets, overwrite, schema, location) {
        return Rejected;
      }
      var failed := Exchange(metadata);
      return if failed == None then Committed else RolledBack(failed.value);
    }

    /** Lines 195-218: everything inside the try statement, and its rollback. */
    method Exchange(metadata: Content) returns (failed: Option<Step>)
      requires Valid() && NoPrevious(disk.tree)
      requires STAGED_FRAMES in disk.tree && disk.tree[STAGED_FRAMES].Directory?
      requires STAGED_REPORT in disk.tree && disk.tree[STAGED_REPORT] == File(metadata)
      requires disk.kept && disk.promise.targets == targets && disk.promise.previous == Visible(disk.tree, targets)
      requires disk.promise.next == Bundle(Lookup(disk.tree, STAGED_VIDEO), Some(File(metadata)), Some(disk.tree[STAGED_FRAMES]))
      modifies disk`tree, disk`kept
      ensures failed == None ==> Visible(disk.tree, targets) == disk.promise.next
      ensures failed == None ==> STAGED_VIDEO in old(disk.tree) && targets.video != targets.report
      ensures disk.healthy && STAGED_VIDEO in old(disk.tree) && targets.video != targets.report ==> failed == None
      ensures failed != None ==> Visible(disk.tree, targets) == disk.promise.previous
      ensures forall path: Path :: path.Public? && !targets.Contains(path) ==>
        Lookup(disk.tree, path) == Lookup(old(disk.tree), path)
      ensures disk.kept <==>
        !(targets.video == targets.report && failed == Some(PublishingReport) && Misleading(disk.promise))
    {
      ghost var base := disk.tree;
      var backups;
      failed, backups := RetireOld();
      var published: seq<Path> := [];
      ghost var unmoved := base[STAGED_FRAMES].entries;
      RetiredElsewhere(base, backups, STAGED_FRAMES);
      if failed == None {
        RetiredElsewhere(base, backups, STAGED_REPORT);
        RetiredElsewhere(base, backups, STAGED_VIDEO);
        failed, published, unmoved := PublishNew(metadata);
      }
      if failed == None {
        forall path: Path | path.Public? && !targets.Contains(path)
          ensures Lookup(disk.tree, path) == Lookup(base, path)
        {
          RetiredElsewhere(base, backups, path);
          WithoutElsewhere(disk.tree, published, path);
        }
      } else {
        Rollback(backups, published, base, unmoved);
      }
    }

    /** The backups of the first n targets of the order report, video, frames. */
    ghost predicate Backups(base: Tree, backups: seq<Backup>, n: nat) {
      && Retirable(base, backups)
      && (forall b <- backups :: targets.Contains(b.target) && IsPrevious(b.copy) && b.copy.item.index < n)
      && (targets.report in base && n > 0 ==> backups != [])
      && (targets.report in base && backups != [] ==> backups[0].target == targets.report)
    }

    /** Lines 197-202: the old report first, then what it vouches for. */
    method RetireOld() returns (failed: Option<Step>, backups: seq<Backup>)
      requires Valid()
      requires NoPrevious(disk.tree)
      requires disk.kept && disk.promise.targets == targets && disk.promise.previous == Visible(disk.tree, targets)
      modifies disk`tree, disk`kept
      ensures failed == None || failed == Some(RetiringOld)
      ensures disk.healthy ==> failed == None
      ensures Retirable(old(disk.tree), backups) && disk.tree == Retired(old(disk.tree), backups)
      ensures forall b <- backups :: targets.Contains(b.target) && IsPrevious(b.copy)
      ensures targets.report in old(disk.tree) && backups != [] ==> backups[0].target == targets.report
      ensures failed == None ==> targets.report !in disk.tree && targets.video !in disk.tree && targets.frames !in disk.tree
      ensures disk.kept
    {
      hide Retired, Retirable, Visible;
      ghost var base := disk.tree;
      backups := [];
      var order := [targets.report, targets.video, targets.frames];
      NothingRetired(base);
      for index := 0 to 3
        invariant Backups(base, backups, index) && disk.tree == Retired(base, backups)
        invariant forall k :: 0 <= k < index ==> order[k] !in disk.tree
        invariant disk.kept
      {
        var ok;
        ok, backups := RetireTarget(index, order[index], backups, base);
        if !ok {
          return Some(RetiringOld), backups;
        }
      }
      assert order[0] !in disk.tree && order[1] !in disk.tree && order[2] !in disk.tree;
      return None, backups;
    }

    /** One target, if it is there. */
    method RetireTarget(index: nat, target: Path, backups: seq<Backup>, ghost base: Tree) returns (ok: bool, longer: seq<Backup>)
      requires Valid() && NoPrevious(base) && targets.Contains(target) && (target == targets.report <== index == 0)
      requires Backups(base, backups, index) && disk.tree == Retired(base, backups)
      requires disk.kept && disk.promise.targets == targets && disk.promise.previous == Visible(base, targets)
      modifies disk`tree, disk`kept
      ensures disk.healthy ==> ok
      ensures Backups(base, longer, if ok then index + 1 else index) && disk.tree == Retired(base, longer)
      ensures ok ==> target !in disk.tree
      ensures forall path: Path :: path.Public? && path !in old(disk.tree) ==> path !in disk.tree
      ensures disk.kept
    {
      hide Retired, Retirable, Visible;
      longer := backups;
      if target !in disk.tree {
        if index == 0 {
          assert backups != [] ==> backups[0] in backups && backups[0].copy.item.index < 0;
          NothingRetired(base);
        }
        return true, backups;
      }
      var backup := Private(Previous(index));
      RetireIsPossible(base, backups, index, target);
      ok := disk.Replace(target, backup);
      if ok {
        longer := backups + [Backup(backup, target)];
        RetiringKeepsPromise(base, longer);
      }
    }

    lemma NothingRetired(base: Tree)
      ensures Backups(base, [], 0) && Retired(base, []) == base
    {
    }

    lemma RetireIsPossible(base: Tree, backups: seq<Backup>, index: nat, target: Path)
      requires Valid() && NoPrevious(base) && targets.Contains(target) && (target == targets.report <== index == 0)
      requires Backups(base, backups, index) && target in Retired(base, backups)
      ensures Private(Previous(index)) !in Retired(base, backups)
      ensures var longer := backups + [Backup(Private(Previous(index)), target)];
        && Backups(base, longer, index + 1)
        && Retired(base, longer) == Renamed(Retired(base, backups), target, Private(Previous(index)))
    {
      var b := Backup(Private(Previous(index)), target);
      RetiredElsewhere(base, backups, b.copy);
      assert IsPrevious(b.copy);
      RetireOneMore(base, backups, b);
      hide Retirable, Retired;
      if targets.report in base && backups == [] {
        assert (backups + [b])[0] == b;
      }
      forall c | c in backups + [b] ensures targets.Contains(c.target) && IsPrevious(c.copy) && c.copy.item.index < index + 1 {
        assert c in backups || c == b;
      }
    }

    /** As soon as anything has been retired there is no report. */
    lemma RetiringKeepsPromise(base: Tree, backups: seq<Backup>)
      requires Valid() && backups != [] && Retirable(base, backups)
      requires targets.report in base ==> backups[0].target == targets.report
      ensures targets.report !in Retired(base, backups)
    {
      RetiredTargetsAreAway(base, backups);
      assert backups[0] in backups;
    }

    /** Lines 203-209: the frames, the video and, last of all, the report. */
    method PublishNew(metadata: Content)
        returns (failed: Option<Step>, published: seq<Path>, ghost unmoved: map<string, Content>)
      requires Valid()
      requires targets.report !in disk.tree && targets.video !in disk.tree && targets.frames !in disk.tree
      requires STAGED_FRAMES in disk.tree && disk.tree[STAGED_FRAMES].Directory?
      requires STAGED_REPORT in disk.tree && disk.tree[STAGED_REPORT] == File(metadata)
      requires disk.kept && disk.promise.targets == targets
      requires disk.promise.next == Bundle(Lookup(disk.tree, STAGED_VIDEO), Some(File(metadata)), Some(disk.tree[STAGED_FRAMES]))
      modifies disk`tree, disk`kept
      ensures failed != Some(RetiringOld)
      ensures disk.healthy && STAGED_VIDEO in old(disk.tree) && targets.video != targets.report ==> failed == None
      ensures failed == None ==> Visible(disk.tree, targets) == disk.promise.next && targets.video != targets.report
      ensures failed == None ==> STAGED_VIDEO in old(disk.tree) && published == [targets.frames, targets.video, targets.report]
      ensures failed != None ==> published == [] || published == [targets.frames] || published == [targets.frames, targets.video]
      ensures forall path <- published :: path in disk.tree && (path == targets.frames ==> disk.tree[path].Directory?)
      ensures Without(disk.tree, published) == old(disk.tree)[STAGED_FRAMES := Directory(unmoved)]
      ensures disk.kept <==>
        !(targets.video == targets.report && failed == Some(PublishingReport) && Misleading(disk.promise))
    {
      ghost var retired := disk.tree;
      published := [];
      var made := disk.MakeDirectory(targets.frames);
      if !made {
        unmoved := retired[STAGED_FRAMES].entries;
        return Some(CreatingFrames), published, unmoved;
      }
      published := [targets.frames];
      var allMoved;
      allMoved, unmoved := MoveFrames(retired);
      if !allMoved {
        return Some(MovingFrames), published, unmoved;
      }
      var linked := disk.Link(STAGED_VIDEO, targets.video);
      if !linked {
        return Some(PublishingVideo), published, unmoved;
      }
      published := [targets.frames, targets.video];
      linked := disk.Link(STAGED_REPORT, targets.report);
      if !linked {
        return Some(PublishingReport), published, unmoved;
      }
      published := [targets.frames, targets.video, targets.report];
      return None, published, unmoved;
    }

    /** Lines 205-206: frame by frame, in no particular order. */
    method MoveFrames(ghost retired: Tree) returns (ok: bool, ghost unmoved: map<string, Content>)
      requires Valid()
      requires targets.report !in retired && STAGED_FRAMES in retired && retired[STAGED_FRAMES].Directory?
      requires targets.frames !in retired && disk.tree == retired[targets.frames := Directory(map[])]
      requires disk.kept && disk.promise.targets == targets
      modifies disk`tree, disk`kept
      ensures ok ==> unmoved == map[]
      ensures disk.healthy ==> ok
      ensures ok ==> disk.tree == retired[STAGED_FRAMES := Directory(map[])][targets.frames := retired[STAGED_FRAMES]]
      ensures targets.frames in disk.tree && disk.tree[targets.frames].Directory?
      ensures disk.tree - {targets.frames} == retired[STAGED_FRAMES := Directory(unmoved)]
      ensures disk.kept
    {
      ghost var moved;
      SplitStart(retired, STAGED_FRAMES, targets.frames);
      ok, unmoved, moved := MoveUntilFailure(retired);
      SplitApart(retired, STAGED_FRAMES, targets.frames, unmoved, moved);
      if ok {
        AllMoved(retired[STAGED_FRAMES].entries, moved, unmoved);
      }
    }

    method MoveUntilFailure(ghost retired: Tree)
        returns (ok: bool, ghost unmoved: map<string, Content>, ghost moved: map<string, Content>)
      requires Valid()
      requires targets.report !in retired && STAGED_FRAMES in retired && retired[STAGED_FRAMES].Directory?
      requires disk.tree == Split(retired, STAGED_FRAMES, targets.frames, retired[STAGED_FRAMES].entries, map[])
      requires disk.kept && disk.promise.targets == targets
      modifies disk`tree, disk`kept
      ensures disk.tree == Split(retired, STAGED_FRAMES, targets.frames, unmoved, moved)
      ensures Shared(retired[STAGED_FRAMES].entries, moved, unmoved) && (ok ==> unmoved.Keys == {})
      ensures disk.kept && (disk.healthy ==> ok)
    {
      unmoved, moved := retired[STAGED_FRAMES].entries, map[];
      NoneMoved(unmoved);
      var names := disk.tree[STAGED_FRAMES].entries.Keys;
      hide Split, Shared;
      ok := true;
      while names != {} && ok
        invariant names == unmoved.Keys && (disk.healthy ==> ok)
        invariant disk.tree == Split(retired, STAGED_FRAMES, targets.frames, unmoved, moved)
        invariant Shared(retired[STAGED_FRAMES].entries, moved, unmoved)
        invariant disk.kept
        decreases ok, |names|
      {
        var name :| name in names;
        KeysApart(retired[STAGED_FRAMES].entries, moved, unmoved, name);
        ok := MoveFrame(name, retired, unmoved, moved);
        if ok {
          moved, unmoved := moved[name := unmoved[name]], unmoved - {name};
          names := names - {name};
        }
      }
    }

    method MoveFrame(name: string, ghost retired: Tree, ghost unmoved: map<string, Content>, ghost moved: map<string, Content>)
        returns (ok: bool)
      requires Valid()
      requires targets.report !in retired
      requires disk.tree == Split(retired, STAGED_FRAMES, targets.frames, unmoved, moved)
      requires name in unmoved && moved.Keys !! unmoved.Keys
      requires disk.kept && disk.promise.targets == targets
      modifies disk`tree, disk`kept
      ensures disk.tree ==
        if ok then Split(retired, STAGED_FRAMES, targets.frames, unmoved - {name}, moved[name := unmoved[name]]) else old(disk.tree)
      ensures disk.kept && (disk.healthy ==> ok)
    {
      MoveOne(retired, STAGED_FRAMES, targets.frames, unmoved, moved, name);
      ok := disk.MoveEntry(STAGED_FRAMES, name, targets.frames);
    }

    /** Lines 211-217: remove what was published, newest first, then bring the old bundle back, report last. */
    method Rollback(backups: seq<Backup>, published: seq<Path>, ghost base: Tree, ghost unmoved: map<string, Content>)
      requires Valid()
      requires Retirable(base, backups) && STAGED_FRAMES in base
      requires disk.promise.targets == targets && disk.promise.previous == Visible(base, targets)
      requires forall b <- backups :: targets.Contains(b.target) && IsPrevious(b.copy)
      requires targets.report in base && backups != [] ==> backups[0].target == targets.report
      requires targets.report in base && backups == [] ==> published == []
      requires published == [] || published == [targets.frames] || published == [targets.frames, targets.video]
      requires forall path <- published :: path in disk.tree && (path == targets.frames ==> disk.tree[path].Directory?)
      requires Without(disk.tree, published) == Retired(base, backups)[STAGED_FRAMES := Directory(unmoved)]
      modifies disk`tree, disk`kept
      ensures disk.tree == base[STAGED_FRAMES := Directory(unmoved)]
      ensures disk.kept == old(disk.kept)
    {
      ghost var undone := base[STAGED_FRAMES := Directory(unmoved)];
      RetiredWithSideChange(base, backups, STAGED_FRAMES, Directory(unmoved));
      RetiredTargetsAreAway(undone, backups);
      Unpublish(published, Retired(undone, backups));
      RestoreAll(backups, base, unmoved);
    }

    /** The second loop of the rollback. */
    method RestoreAll(backups: seq<Backup>, ghost base: Tree, ghost unmoved: map<string, Content>)
      requires Valid() && STAGED_FRAMES in base
      requires var undone := base[STAGED_FRAMES := Directory(unmoved)];
        Retirable(undone, backups) && disk.tree == Retired(undone, backups)
      requires disk.promise.targets == targets && disk.promise.previous == Visible(base, targets)
      requires forall b <- backups :: targets.Contains(b.target) && IsPrevious(b.copy)
      requires targets.report in base && backups != [] ==> backups[0].target == targets.report
      modifies disk`tree, disk`kept
      ensures disk.tree == base[STAGED_FRAMES := Directory(unmoved)]
      ensures disk.kept == old(disk.kept)
    {
      ghost var undone := base[STAGED_FRAMES := Directory(unmoved)];
      var count := |backups|;
      assert backups[..count] == backups;
      hide Retirable, Retired;
      while count > 0
        invariant 0 <= count <= |backups|
        invariant disk.tree == Retired(undone, backups[..count])
        invariant disk.kept == old(disk.kept)
      {
        count := count - 1;
        var backup := backups[count];
        RestoreNewest(undone, backups, count);
        RestoredKeepsPromise(base, unmoved, backups, count);
        disk.Restore(backup.copy, backup.target);
      }
      NothingRetired(undone);
    }

    /** While anything is retired there is no report; when nothing is, the bundle is the previous one. */
    lemma RestoredKeepsPromise(base: Tree, unmoved: map<string, Content>, backups: seq<Backup>, count: nat)
      requires Valid() && count < |backups|
      requires Retirable(base[STAGED_FRAMES := Directory(unmoved)], backups)
      requires disk.promise.targets == targets && disk.promise.previous == Visible(base, targets)
      requires targets.report in base ==> backups[0].target == targets.report
      ensures disk.promise.KeptBy(Retired(base[STAGED_FRAMES := Directory(unmoved)], backups[..count]))
    {
      var undone := base[STAGED_FRAMES := Directory(unmoved)];
      RestoreNewest(undone, backups, count);
      if count == 0 {
        assert backups[..0] == [];
        NothingRetired(undone);
      }
      hide Retirable, Retired;
    }

    method Unpublish(published: seq<Path>, ghost retired: Tree)
      requires Valid()
      requires disk.promise.targets == targets
      requires targets.report in retired ==> published == []
      requires published == [] || published == [targets.frames] || published == [targets.frames, targets.video]
      requires forall path <- published :: path in disk.tree && (path == targets.frames ==> disk.tree[path].Directory?)
      requires Without(disk.tree, published) == retired
      modifies disk`tree, disk`kept
      ensures disk.tree == retired && disk.kept == old(disk.kept)
    {
      var count := |published|;
      while count > 0
        invariant 0 <= count <= |published|
        invariant forall path <- published[..count] :: path in disk.tree && (path == targets.frames ==> disk.tree[path].Directory?)
        invariant Without(disk.tree, published[..count]) == retired
        invariant disk.kept == old(disk.kept)
      {
        count := count - 1;
        var target := published[count];
        if target == targets.frames {
          disk.RemoveTree(target);
        } else {
          disk.Unlink(target);
        }
      }
    }

    /** Leaving the context removes the private directory and the lock, whatever happened inside. */
    method Exit()
      requires Valid()
      modifies disk`tree, disk`kept
      ensures lock !in disk.tree && (disk.healthy ==> forall path <- disk.tree :: path.Public?)
      ensures forall path: Path :: path.Public? && path != lock ==> Lookup(disk.tree, path) == Lookup(old(disk.tree), path)
    {
      disk.RemovePrivate();
      if lock in disk.tree {
        disk.Unlink(lock);
      }
    }
  }
}
