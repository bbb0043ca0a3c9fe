/** The merge command of Main.java: the conflict file `mergeAction` writes,
    what `mergeCases` and `mergeAction` do to the staging area and working
    directory name by name, `mergeCommit`, the fast-forward of
    `checkMergeExceptions`, and `merge` itself. */
module Merge {
  import opened Outcomes
  import opened Lists
  import opened FileReferences
  import opened Commits
  import opened Staging
  import opened Repository
  import opened CommitGraph
  import opened MergeTable

  // ------------------------------------------------------ conflict markers

  const HeadMarker: string := "<<<<<<< HEAD\n"
  const Separator: string := "=======\n"
  const EndMarker: string := ">>>>>>>\n"

  /** The content of a conflicted file: the head's side between the opening
      marker and the separator, the given branch's side between the separator
      and the closing marker. */
  function ConflictText(head: Content, other: Content): (t: Content)
    ensures |t| == |HeadMarker| + |head| + |Separator| + |other| + |EndMarker|
    ensures t[..|HeadMarker|] == HeadMarker
    ensures t[|HeadMarker|..|HeadMarker| + |head|] == head
    ensures t[|HeadMarker| + |head|..|HeadMarker| + |head| + |Separator|] == Separator
    ensures t[|HeadMarker| + |head| + |Separator|..|t| - |EndMarker|] == other
    ensures t[|t| - |EndMarker|..] == EndMarker
  {
    HeadMarker + head + Separator + other + EndMarker
  }

  /** Head "a\n" against branch "b\n". */
  lemma ConflictTextExample()
    ensures ConflictText("a\n", "b\n") == "<<<<<<< HEAD\na\n=======\nb\n>>>>>>>\n"
  {
  }

  /** Given the length of the head's side, a conflict text gives back both sides. */
  lemma ConflictTextDeterminesSides(h1: Content, o1: Content, h2: Content, o2: Content)
    requires |h1| == |h2| && ConflictText(h1, o1) == ConflictText(h2, o2)
    ensures h1 == h2 && o1 == o2
  {
    var t := ConflictText(h1, o1);
    assert h1 == t[|HeadMarker|..|HeadMarker| + |h1|];
    assert o1 == t[|HeadMarker| + |h1| + |Separator|..|t| - |EndMarker|];
  }

  /** Without that length the text is ambiguous: the markers are not escaped,
      so a side that contains the separator reads like two sides. */
  lemma ConflictTextAmbiguous()
    ensures ConflictText(Separator, "") == ConflictText("", Separator)
  {
  }

  // ------------------------------------------------------ one name

  /** The parts of the in-memory `Work` object the merge changes while it
      classifies names. */
  datatype Work = Work(stage: Stage, cwd: map<Name, Content>)

  /** Two working directories agree on `n`: both lack it or both hold the
      same content. */
  predicate SameAt(a: map<Name, Content>, b: map<Name, Content>, n: Name) {
    (n in a <==> n in b) && (n in a ==> a[n] == b[n])
  }

  predicate Stored(ref: Option<FileRef>, blobs: map<Hash, Content>) {
    ref.Some? ==> ref.value.hash in blobs
  }

  predicate AllStored(refs: seq<FileRef>, blobs: map<Hash, Content>) {
    forall i :: 0 <= i < |refs| ==> refs[i].hash in blobs
  }

  lemma FoundIsStored(refs: seq<FileRef>, blobs: map<Hash, Content>, n: Name)
    requires AllStored(refs, blobs)
    ensures Stored(FindRef(refs, n), blobs)
  {
  }

  /** The content `mergeAction` reads for one side of a conflict: the blob, or
      the empty string when that side does not track the name. */
  function Body(ref: Option<FileRef>, blobs: map<Hash, Content>): Content
    requires Stored(ref, blobs)
  {
    if ref.Some? then blobs[ref.value.hash] else ""
  }

  /** The decision for one name and the content it leaves in the working file
      when it writes one: the given branch's blob, or the conflict text. */
  function Plan(s: Option<FileRef>, h: Option<FileRef>, b: Option<FileRef>, blobs: map<Hash, Content>): (p: (Action, Option<Content>))
    requires Stored(h, blobs) && Stored(b, blobs)
    ensures p.0 == Decide(s, h, b)
    ensures p.1.Some? <==> p.0 == TakeOther || p.0 == Conflict
    ensures p.0 == TakeOther ==> b.Some? && p.1 == Some(blobs[b.value.hash])
    ensures p.0 == Conflict ==> p.1 == Some(ConflictText(Body(h, blobs), Body(b, blobs)))
  {
    var a := Decide(s, h, b);
    TakesOtherExactly(s, h, b);
    if a == TakeOther then (a, Some(blobs[b.value.hash]))
    else if a == Conflict then (a, Some(ConflictText(Body(h, blobs), Body(b, blobs))))
    else (a, None)
  }

  /** `name` ends up as `p` says: staged for addition exactly when the plan
      writes a file, whose content is then both in the working directory and
      in the snapshot; staged for removal exactly when the plan removes; and
      otherwise its working file is as in `before`. */
  predicate Resolved(before: Work, after: Work, name: Name, p: (Action, Option<Content>)) {
    && (name in after.stage.addition <==> p.1.Some?)
    && (name in after.stage.removal <==> p.0 == Remove)
    && (p.1.Some? ==> name in after.cwd && after.cwd[name] == p.1.value &&
                      name in after.stage.addSnap && after.stage.addSnap[name] == p.1.value)
    && (p.1.None? ==> SameAt(before.cwd, after.cwd, name))
  }

  /** `mergeAction` for one name as intended: the conflict file is written and
      staged under the name being merged, and a removal whose working file is
      already gone is staged the way `rm` stages it. */
  function Resolve(w: Work, name: Name, s: Option<FileRef>, h: Option<FileRef>, b: Option<FileRef>,
                   blobs: map<Hash, Content>): (w': Work)
    requires Stored(h, blobs) && Stored(b, blobs)
    ensures forall m :: m != name ==>
      && (m in w'.stage.addition <==> m in w.stage.addition)
      && (m in w'.stage.removal <==> m in w.stage.removal)
      && SameAt(w.cwd, w'.cwd, m)
      && (m in w.stage.addSnap ==> m in w'.stage.addSnap && w'.stage.addSnap[m] == w.stage.addSnap[m])
    ensures name !in w.stage.addition && name !in w.stage.removal ==>
      Resolved(w, w', name, Plan(s, h, b, blobs))
    ensures WellFormed(w.stage) && name !in w.stage.addition && name !in w.stage.removal ==>
      WellFormed(w'.stage)
  {
    var p := Plan(s, h, b, blobs);
    if p.0 == Keep then w
    else if p.0 == Remove then
      if name in w.stage.removal || name in w.cwd then Work(StageForRemoval(w.stage, name, w.cwd), w.cwd)
      else Work(ManualAddRemoval(w.stage, name), w.cwd)
    else
      var cwd' := w.cwd[name := p.1.value];
      Work(StageForAddition(w.stage, name, cwd'), cwd')
  }

  /** `mergeAction` as written, reached from `mergeCases` with the three
      references for one name. The name is read off the references: the
      given branch's for "checkout" and the head's for "remove" and
      "conflict", which dereferences null when the head no longer tracks the
      file. "remove" reads the working file through `stageForRemoval`, which
      fails when that file is gone. */
  function ResolveAsWritten(w: Work, s: Option<FileRef>, h: Option<FileRef>, b: Option<FileRef>,
                            blobs: map<Hash, Content>): (res: Result<Work>)
    requires Stored(h, blobs) && Stored(b, blobs)
    ensures Decide(s, h, b) == Keep ==> res == Ok(w)
    ensures res.Err? ==> res.error == Crash(NullPointer) || res.error == Crash(MissingFile)
  {
    match Decide(s, h, b)
    case Keep => Ok(w)
    case TakeOther =>
      if b.None? then Err(Crash(NullPointer))
      else
        var cwd' := w.cwd[b.value.name := blobs[b.value.hash]];
        Ok(Work(StageForAddition(w.stage, b.value.name, cwd'), cwd'))
    case Remove =>
      if h.None? then Err(Crash(NullPointer))
      else if h.value.name !in w.stage.removal && h.value.name !in w.cwd then Err(Crash(MissingFile))
      else Ok(Work(StageForRemoval(w.stage, h.value.name, w.cwd), w.cwd))
    case Conflict =>
      var text := ConflictText(Body(h, blobs), Body(b, blobs));
      if h.None? then Err(Crash(NullPointer))
      else
        var cwd' := w.cwd[h.value.name := text];
        Ok(Work(StageForAddition(w.stage, h.value.name, cwd'), cwd'))
  }

  /** The code as written agrees with the intended resolution except in two
      cases: a conflict where the head deleted the file, and a removal whose
      working file is already gone. */
  lemma ResolveAsWrittenDiverges(w: Work, name: Name, s: Option<FileRef>, h: Option<FileRef>, b: Option<FileRef>,
                                 blobs: map<Hash, Content>)
    requires Stored(h, blobs) && Stored(b, blobs)
    requires (s.Some? ==> s.value.name == name) && (h.Some? ==> h.value.name == name) && (b.Some? ==> b.value.name == name)
    ensures ResolveAsWritten(w, s, h, b, blobs) ==
      if Decide(s, h, b) == Conflict && h.None? then Err(Crash(NullPointer))
      else if Decide(s, h, b) == Remove && name !in w.stage.removal && name !in w.cwd then Err(Crash(MissingFile))
      else Ok(Resolve(w, name, s, h, b, blobs))
  {
    TakesOtherExactly(s, h, b);
    RemovesExactly(s, h, b);
  }

  /** Split and branch both hold "f" with different contents and the head
      deleted it: the table says conflict, the code as written dereferences
      null, and the intended resolution stages a conflict file. */
  lemma DeletedHeadConflictCrashes()
    ensures var s := Some(FileRef("f", "f", "1", 0));
      var b := Some(FileRef("f", "f", "2", 0));
      var w := Work(EmptyStage(), map[]);
      && Decide(s, None, b) == Conflict
      && ResolveAsWritten(w, s, None, b, map["2" := "x"]) == Err(Crash(NullPointer))
      && Resolve(w, "f", s, None, b, map["2" := "x"]).cwd["f"] == ConflictText("", "x")
      && "f" in Resolve(w, "f", s, None, b, map["2" := "x"]).stage.addition
  {
  }

  /** Split and head hold "f" unchanged, the branch deleted it, and the user
      deleted the working file without `rm`: the table says remove, the code
      as written reads the missing file, and the intended resolution stages
      the removal. */
  lemma MissingWorkingFileRemoveCrashes()
    ensures var s := Some(FileRef("f", "f", "1", 0));
      var w := Work(EmptyStage(), map[]);
      && Decide(s, s, None) == Remove
      && ResolveAsWritten(w, s, s, None, map["1" := "x"]) == Err(Crash(MissingFile))
      && "f" in Resolve(w, "f", s, s, None, map["1" := "x"]).stage.removal
  {
  }

  // ------------------------------------------------------ all names

  /** The plan for `n` given the three commits' tracked-file lists. */
  function PlanFor(n: Name, split: seq<FileRef>, head: seq<FileRef>, other: seq<FileRef>,
                   blobs: map<Hash, Content>): (Action, Option<Content>)
    requires AllStored(head, blobs) && AllStored(other, blobs)
  {
    FoundIsStored(head, blobs, n);
    FoundIsStored(other, blobs, n);
    Plan(FindRef(split, n), FindRef(head, n), FindRef(other, n), blobs)
  }

  /** The loop of `mergeCases`: every name not yet in `used` is recorded and
      resolved; repeats are skipped. */
  function Classify(w: Work, used: seq<Name>, names: seq<Name>, split: seq<FileRef>, head: seq<FileRef>,
                    other: seq<FileRef>, blobs: map<Hash, Content>): (res: (Work, seq<Name>))
    requires AllStored(head, blobs) && AllStored(other, blobs)
    ensures NoDup(used) ==> NoDup(res.1)
    ensures forall n :: n in res.1 <==> n in used || n in names
    decreases |names|
  {
    if names == [] then (w, used)
    else
      var n := names[0];
      if n in used then Classify(w, used, names[1..], split, head, other, blobs)
      else
        FoundIsStored(head, blobs, n);
        FoundIsStored(other, blobs, n);
        var w' := Resolve(w, n, FindRef(split, n), FindRef(head, n), FindRef(other, n), blobs);
        AppendFreshNoDup(used, n);
        Classify(w', used + [n], names[1..], split, head, other, blobs)
  }

  /** The state reached from `start` once the names in `used` are resolved:
      those as planned, all others untouched. */
  ghost predicate Progress(start: Work, w: Work, used: seq<Name>, split: seq<FileRef>, head: seq<FileRef>,
                     other: seq<FileRef>, blobs: map<Hash, Content>)
    requires AllStored(head, blobs) && AllStored(other, blobs)
  {
    && WellFormed(w.stage)
    && forall n :: Resolved(start, w, n, if n in used then PlanFor(n, split, head, other, blobs) else (Keep, None))
  }

  lemma ResolveKeepsProgress(start: Work, w: Work, used: seq<Name>, n: Name, split: seq<FileRef>, head: seq<FileRef>,
                             other: seq<FileRef>, blobs: map<Hash, Content>)
    requires AllStored(head, blobs) && AllStored(other, blobs)
    requires Progress(start, w, used, split, head, other, blobs) && n !in used
    ensures Stored(FindRef(head, n), blobs) && Stored(FindRef(other, n), blobs)
    ensures Progress(start, Resolve(w, n, FindRef(split, n), FindRef(head, n), FindRef(other, n), blobs),
                     used + [n], split, head, other, blobs)
  {
    FoundIsStored(head, blobs, n);
    FoundIsStored(other, blobs, n);
    var w' := Resolve(w, n, FindRef(split, n), FindRef(head, n), FindRef(other, n), blobs);
    assert Resolved(start, w, n, (Keep, None));
    forall m ensures Resolved(start, w', m, if m in used + [n] then PlanFor(m, split, head, other, blobs) else (Keep, None)) {
      assert Resolved(start, w, m, if m in used then PlanFor(m, split, head, other, blobs) else (Keep, None));
    }
  }

  lemma {:induction false} ClassifyKeepsProgress(start: Work, w: Work, used: seq<Name>, names: seq<Name>,
                                                 split: seq<FileRef>, head: seq<FileRef>, other: seq<FileRef>,
                                                 blobs: map<Hash, Content>)
    requires AllStored(head, blobs) && AllStored(other, blobs)
    requires Progress(start, w, used, split, head, other, blobs)
    ensures var res := Classify(w, used, names, split, head, other, blobs);
      Progress(start, res.0, res.1, split, head, other, blobs)
    decreases |names|
  {
    if names != [] {
      var n := names[0];
      if n in used {
        ClassifyKeepsProgress(start, w, used, names[1..], split, head, other, blobs);
      } else {
        ResolveKeepsProgress(start, w, used, n, split, head, other, blobs);
        var w' := Resolve(w, n, FindRef(split, n), FindRef(head, n), FindRef(other, n), blobs);
        ClassifyKeepsProgress(start, w', used + [n], names[1..], split, head, other, blobs);
      }
    }
  }

  /** From an empty staging area, `mergeCases` classifies every listed name
      exactly once, resolves each as planned, leaves every other name alone,
      and keeps the staging area well formed. */
  lemma ClassifyResolvesEachName(w: Work, names: seq<Name>, split: seq<FileRef>, head: seq<FileRef>,
                                 other: seq<FileRef>, blobs: map<Hash, Content>)
    requires AllStored(head, blobs) && AllStored(other, blobs)
    requires IsEmpty(w.stage)
    ensures var res := Classify(w, [], names, split, head, other, blobs);
      && NoDup(res.1)
      && (forall n :: n in res.1 <==> n in names)
      && WellFormed(res.0.stage)
      && forall n :: Resolved(w, res.0, n, if n in names then PlanFor(n, split, head, other, blobs) else (Keep, None))
  {
    assert Progress(w, w, [], split, head, other, blobs);
    ClassifyKeepsProgress(w, w, [], names, split, head, other, blobs);
  }

  /** Whether `mergeAction` as written crashes on `n` when the pass starts
      from `start`: a conflict on a file the head no longer tracks, or a
      removal whose working file is gone. */
  predicate CrashesAt(start: Work, n: Name, split: seq<FileRef>, head: seq<FileRef>, other: seq<FileRef>,
                      blobs: map<Hash, Content>)
    requires AllStored(head, blobs) && AllStored(other, blobs)
  {
    var a := PlanFor(n, split, head, other, blobs).0;
    (a == Conflict && FindRef(head, n).None?) || (a == Remove && n !in start.cwd)
  }

  /** The loop of `mergeCases` with `mergeAction` as written: the first crash
      ends the pass. */
  function ClassifyAsWritten(w: Work, used: seq<Name>, names: seq<Name>, split: seq<FileRef>, head: seq<FileRef>,
                             other: seq<FileRef>, blobs: map<Hash, Content>): (res: Result<(Work, seq<Name>)>)
    requires AllStored(head, blobs) && AllStored(other, blobs)
    ensures res.Err? ==> res.error == Crash(NullPointer) || res.error == Crash(MissingFile)
    decreases |names|
  {
    if names == [] then Ok((w, used))
    else
      var n := names[0];
      if n in used then ClassifyAsWritten(w, used, names[1..], split, head, other, blobs)
      else
        FoundIsStored(head, blobs, n);
        FoundIsStored(other, blobs, n);
        match ResolveAsWritten(w, FindRef(split, n), FindRef(head, n), FindRef(other, n), blobs)
        case Err(e) => Err(e)
        case Ok(w') => ClassifyAsWritten(w', used + [n], names[1..], split, head, other, blobs)
  }

  /** From any state the intended pass reaches, the pass as written crashes
      exactly when a name still to be classified meets one of the two crash
      cases, and otherwise ends where the intended pass ends. A name's working
      file and removal entry are untouched until the pass reaches it, so the
      crash cases can be read off the starting state. */
  lemma {:induction false} ClassifyAsWrittenDiverges(start: Work, w: Work, used: seq<Name>, names: seq<Name>,
                                                     split: seq<FileRef>, head: seq<FileRef>, other: seq<FileRef>,
                                                     blobs: map<Hash, Content>)
    requires AllStored(head, blobs) && AllStored(other, blobs)
    requires Progress(start, w, used, split, head, other, blobs)
    ensures var res := ClassifyAsWritten(w, used, names, split, head, other, blobs);
      && (res.Err? <==> exists n :: n in names && n !in used && CrashesAt(start, n, split, head, other, blobs))
      && (res.Ok? ==> res.value == Classify(w, used, names, split, head, other, blobs))
    decreases |names|
  {
    if names != [] {
      var n := names[0];
      assert forall m :: m in names <==> m == n || m in names[1..];
      if n in used {
        ClassifyAsWrittenDiverges(start, w, used, names[1..], split, head, other, blobs);
      } else {
        FoundIsStored(head, blobs, n);
        FoundIsStored(other, blobs, n);
        var s, hd, b := FindRef(split, n), FindRef(head, n), FindRef(other, n);
        ResolveAsWrittenDiverges(w, n, s, hd, b, blobs);
        assert Resolved(start, w, n, (Keep, None));
        if !CrashesAt(start, n, split, head, other, blobs) {
          ResolveKeepsProgress(start, w, used, n, split, head, other, blobs);
          var w' := Resolve(w, n, s, hd, b, blobs);
          ClassifyAsWrittenDiverges(start, w', used + [n], names[1..], split, head, other, blobs);
        }
      }
    }
  }

  // ------------------------------------------------------ mergeCommit

  function MergeMessage(branchName: string, currName: string): string {
    "Merged " + branchName + " into " + currName + "."
  }

  /** `mergeCommit`: a commit whose parents are the head and then the given
      branch's head, tracking what `commit` would track, recorded like a
      commit; the working files staged for removal are then deleted. Unlike
      `commit` it neither checks for an empty staging area nor sets the
      single-parent field. */
  function MergeCommit(r: Repo, branchName: string, branchHash: Hash, now: int, h: Hasher): (r': Repo)
    requires Valid(r) && branchHash in r.commits
    ensures r'.head in r'.commits
    ensures var c := r'.commits[r'.head];
      && c.parents == [r.head, branchHash] && IsMerge(c) && c.parent == None
      && c.message == MergeMessage(branchName, r.currentBranch) && c.timestamp == now
      && r'.head == h.commit(c)
      && (forall n :: FindRef(c.refs, n) == ExpectedRef(HeadCommit(r).refs, r.stage, h.blob, n))
    ensures forall k :: k in r.commits && k != r'.head ==> k in r'.commits && r'.commits[k] == r.commits[k]
    ensures r'.branches == r.branches[r.currentBranch := r'.head] && r'.currentBranch == r.currentBranch
    ensures IsEmpty(r'.stage)
    ensures forall n :: n in r'.cwd <==> n in r.cwd && n !in r.stage.removal
    ensures forall n :: n in r'.cwd ==> r'.cwd[n] == r.cwd[n]
    ensures r.blobs.Keys <= r'.blobs.Keys
    ensures Valid(r')
  {
    var empty := NewCommit(MergeMessage(branchName, r.currentBranch), now);
    AddPrevHashesThenGet(empty, [r.head, branchHash]);
    var shell := AddPrevHashes(empty, [r.head, branchHash]);
    var recorded := Record(r, shell, h);
    recorded.(cwd := r.cwd - (set n | n in r.stage.removal))
  }

  // ------------------------------------------------------ fast-forward

  /** `overwriteWorking` for each reference in list order. */
  function WriteRefs(cwd: map<Name, Content>, refs: seq<FileRef>, blobs: map<Hash, Content>): map<Name, Content>
    requires AllStored(refs, blobs)
    decreases |refs|
  {
    if refs == [] then cwd
    else WriteRefs(cwd[refs[0].name := blobs[refs[0].hash]], refs[1..], blobs)
  }

  /** With unique names, every tracked file holds its blob and every other
      file is untouched. */
  lemma {:induction false} WriteRefsLookup(cwd: map<Name, Content>, refs: seq<FileRef>, blobs: map<Hash, Content>, n: Name)
    requires AllStored(refs, blobs) && UniqueNames(refs)
    ensures FindRef(refs, n).Some? ==>
      n in WriteRefs(cwd, refs, blobs) && WriteRefs(cwd, refs, blobs)[n] == blobs[FindRef(refs, n).value.hash]
    ensures FindRef(refs, n).None? ==> SameAt(cwd, WriteRefs(cwd, refs, blobs), n)
    decreases |refs|
  {
    if refs != [] {
      var cwd' := cwd[refs[0].name := blobs[refs[0].hash]];
      assert UniqueNames(refs[1..]) by {
        forall i, j | 0 <= i < j < |refs[1..]| ensures refs[1..][i].name != refs[1..][j].name {
          assert refs[1..][i] == refs[i + 1] && refs[1..][j] == refs[j + 1];
        }
      }
      WriteRefsLookup(cwd', refs[1..], blobs, n);
      if refs[0].name == n {
        forall j | 0 <= j < |refs[1..]| ensures refs[1..][j].name != n {
          assert refs[1..][j] == refs[j + 1];
        }
      }
    }
  }

  /** The names a commit tracks, as `getAllRefNames` lists them. */
  function TrackedNames(refs: seq<FileRef>): set<Name> {
    set n | n in RefNames(refs)
  }

  /** The fast-forward branch of `checkMergeExceptions`, which checks out the
      given branch and then restores the current branch's name: the head's
      files are deleted, the given branch head's files written, the staging
      area cleared, and head moved to the given branch head. The branch table
      is not touched, so the current branch's entry keeps its old commit. */
  function FastForward(r: Repo, branchHash: Hash): (r': Repo)
    requires Valid(r) && branchHash in r.commits
    ensures r' == r.(head := branchHash, stage := r'.stage, cwd := r'.cwd)
    ensures IsEmpty(r'.stage)
    ensures forall n :: FindRef(r.commits[branchHash].refs, n).Some? ==>
      n in r'.cwd && r'.cwd[n] == r.blobs[FindRef(r.commits[branchHash].refs, n).value.hash]
    ensures forall n :: FindRef(r.commits[branchHash].refs, n).None? && FindRef(HeadCommit(r).refs, n).Some? ==>
      n !in r'.cwd
    ensures forall n :: FindRef(r.commits[branchHash].refs, n).None? && FindRef(HeadCommit(r).refs, n).None? ==>
      SameAt(r.cwd, r'.cwd, n)
    ensures Valid(r')
  {
    var target := r.commits[branchHash];
    assert CommitWellFormed(target, r.commits, r.blobs);
    var cleared := r.cwd - TrackedNames(HeadCommit(r).refs);
    var written := WriteRefs(cleared, target.refs, r.blobs);
    FastForwardFiles(r.cwd, HeadCommit(r).refs, target.refs, r.blobs);
    r.(head := branchHash, stage := DeleteAllStage(r.stage), cwd := written)
  }

  lemma FastForwardFiles(cwd: map<Name, Content>, head: seq<FileRef>, target: seq<FileRef>, blobs: map<Hash, Content>)
    requires AllStored(target, blobs) && UniqueNames(target)
    ensures var written := WriteRefs(cwd - TrackedNames(head), target, blobs);
      && (forall n :: FindRef(target, n).Some? ==> n in written && written[n] == blobs[FindRef(target, n).value.hash])
      && (forall n :: FindRef(target, n).None? && FindRef(head, n).Some? ==> n !in written)
      && (forall n :: FindRef(target, n).None? && FindRef(head, n).None? ==> SameAt(cwd, written, n))
  {
    var cleared := cwd - TrackedNames(head);
    forall n ensures FindRef(target, n).Some? ==>
        n in WriteRefs(cleared, target, blobs) && WriteRefs(cleared, target, blobs)[n] == blobs[FindRef(target, n).value.hash]
      ensures FindRef(target, n).None? ==> SameAt(cleared, WriteRefs(cleared, target, blobs), n)
      ensures n in TrackedNames(head) <==> FindRef(head, n).Some?
    {
      WriteRefsLookup(cleared, target, blobs, n);
      RefNamesAgreeWithFindRef(head, n);
    }
  }

  // ------------------------------------------------------ merge

  /** How a merge that does not stop with an error ends: nothing to do because
      the given branch is an ancestor of the head, a fast-forward, or a merge
      commit, flagged when some name conflicted ("Encountered a merge
      conflict."). */
  datatype MergeOutcome =
    | Ancestor
    | FastForwarded(repo: Repo)
    | Merged(repo: Repo, conflicted: bool)

  /** The names `merge` hands to `mergeCases`: the split point's, the head's
      and the given branch head's tracked names, concatenated. */
  function AllFileNames(split: Commit, head: Commit, other: Commit): (names: seq<Name>)
    ensures forall n :: n in names <==>
      FindRef(split.refs, n).Some? || FindRef(head.refs, n).Some? || FindRef(other.refs, n).Some?
  {
    AllFileNamesTracked(split, head, other);
    RefNames(split.refs) + RefNames(head.refs) + RefNames(other.refs)
  }

  lemma AllFileNamesTracked(split: Commit, head: Commit, other: Commit)
    ensures forall n :: n in RefNames(split.refs) + RefNames(head.refs) + RefNames(other.refs) <==>
      FindRef(split.refs, n).Some? || FindRef(head.refs, n).Some? || FindRef(other.refs, n).Some?
  {
    forall n ensures n in RefNames(split.refs) + RefNames(head.refs) + RefNames(other.refs) <==>
      FindRef(split.refs, n).Some? || FindRef(head.refs, n).Some? || FindRef(other.refs, n).Some?
    {
      RefNamesAgreeWithFindRef(split.refs, n);
      RefNamesAgreeWithFindRef(head.refs, n);
      RefNamesAgreeWithFindRef(other.refs, n);
    }
  }

  /** The three-way part of `merge` once the split point is known and is
      neither head: classify every name, then make the merge commit. */
  function MergeFiles(r: Repo, branchName: string, splitHash: Hash, now: int, h: Hasher): (res: MergeOutcome)
    requires Valid(r) && IsEmpty(r.stage)
    requires branchName in r.branches && splitHash in r.commits
    ensures res.Merged? && res.repo.head in res.repo.commits
    ensures var c := res.repo.commits[res.repo.head];
      && c.parents == [r.head, r.branches[branchName]] && IsMerge(c)
      && res.repo.branches == r.branches[r.currentBranch := res.repo.head]
      && IsEmpty(res.repo.stage)
      && Valid(res.repo)
    ensures forall k :: k in r.commits && k != res.repo.head ==> k in res.repo.commits && res.repo.commits[k] == r.commits[k]
    ensures r.blobs.Keys <= res.repo.blobs.Keys
  {
    var split := r.commits[splitHash];
    var head := HeadCommit(r);
    var branchHash := r.branches[branchName];
    var other := r.commits[branchHash];
    assert CommitWellFormed(head, r.commits, r.blobs);
    assert CommitWellFormed(other, r.commits, r.blobs);
    var names := AllFileNames(split, head, other);
    var start := Work(r.stage, r.cwd);
    var pass := Classify(start, [], names, split.refs, head.refs, other.refs, r.blobs);
    ClassifyResolvesEachName(start, names, split.refs, head.refs, other.refs, r.blobs);
    var conflicted := exists n :: n in names && PlanFor(n, split.refs, head.refs, other.refs, r.blobs).0 == Conflict;
    Merged(MergeCommit(r.(stage := pass.0.stage, cwd := pass.0.cwd), branchName, branchHash, now, h), conflicted)
  }

  /** The three-way part of `merge` with `mergeAction` as written. */
  function MergeFilesAsWritten(r: Repo, branchName: string, splitHash: Hash, now: int, h: Hasher): (res: Result<MergeOutcome>)
    requires Valid(r) && IsEmpty(r.stage)
    requires branchName in r.branches && splitHash in r.commits
    ensures res.Err? ==> res.error == Crash(NullPointer) || res.error == Crash(MissingFile)
  {
    var split := r.commits[splitHash];
    var head := HeadCommit(r);
    var branchHash := r.branches[branchName];
    var other := r.commits[branchHash];
    assert CommitWellFormed(head, r.commits, r.blobs);
    assert CommitWellFormed(other, r.commits, r.blobs);
    var names := AllFileNames(split, head, other);
    var start := Work(r.stage, r.cwd);
    ClassifyResolvesEachName(start, names, split.refs, head.refs, other.refs, r.blobs);
    assert Progress(start, start, [], split.refs, head.refs, other.refs, r.blobs);
    ClassifyAsWrittenDiverges(start, start, [], names, split.refs, head.refs, other.refs, r.blobs);
    match ClassifyAsWritten(start, [], names, split.refs, head.refs, other.refs, r.blobs)
    case Err(e) => Err(e)
    case Ok(pass) =>
      var conflicted := exists n :: n in names && PlanFor(n, split.refs, head.refs, other.refs, r.blobs).0 == Conflict;
      Ok(Merged(MergeCommit(r.(stage := pass.0.stage, cwd := pass.0.cwd), branchName, branchHash, now, h), conflicted))
  }

  /** A name on which the code as written crashes is tracked by one of the
      three commits, so the pass reaches it. */
  lemma CrashNameIsListed(split: Commit, head: Commit, other: Commit, blobs: map<Hash, Content>, start: Work, n: Name)
    requires AllStored(head.refs, blobs) && AllStored(other.refs, blobs)
    requires CrashesAt(start, n, split.refs, head.refs, other.refs, blobs)
    ensures n in AllFileNames(split, head, other)
  {
    DecideIsThreeWay(FindRef(split.refs, n), FindRef(head.refs, n), FindRef(other.refs, n));
  }

  /** At command level the code as written crashes exactly when some file
      meets one of the two crash cases of `mergeAction`, and otherwise merges
      as the corrected `MergeFiles` does. */
  lemma MergeFilesAsWrittenDiverges(r: Repo, branchName: string, splitHash: Hash, now: int, h: Hasher)
    requires Valid(r) && IsEmpty(r.stage)
    requires branchName in r.branches && splitHash in r.commits
    ensures r.branches[branchName] in r.commits
    ensures AllStored(HeadCommit(r).refs, r.blobs) && AllStored(r.commits[r.branches[branchName]].refs, r.blobs)
    ensures var res := MergeFilesAsWritten(r, branchName, splitHash, now, h);
      && (res.Err? <==> exists n :: CrashesAt(Work(r.stage, r.cwd), n, r.commits[splitHash].refs, HeadCommit(r).refs,
                                              r.commits[r.branches[branchName]].refs, r.blobs))
      && (res.Ok? ==> res.value == MergeFiles(r, branchName, splitHash, now, h))
  {
    var split := r.commits[splitHash];
    var head := HeadCommit(r);
    var other := r.commits[r.branches[branchName]];
    assert CommitWellFormed(head, r.commits, r.blobs);
    assert CommitWellFormed(other, r.commits, r.blobs);
    var names := AllFileNames(split, head, other);
    var start := Work(r.stage, r.cwd);
    assert Progress(start, start, [], split.refs, head.refs, other.refs, r.blobs);
    ClassifyAsWrittenDiverges(start, start, [], names, split.refs, head.refs, other.refs, r.blobs);
    forall n | CrashesAt(start, n, split.refs, head.refs, other.refs, r.blobs) ensures n in names {
      CrashNameIsListed(split, head, other, r.blobs, start, n);
    }
  }

  /** `merge`: the checks of `checkMergeExceptions` in order, then the
      three-way merge. A null split point is dereferenced. The split point
      is the corrected `MergeBase`, so a given branch that is an ancestor of
      the head is always reported as one, and the three-way part uses the
      corrected `mergeAction`. */
  function Merge(r: Repo, branchName: string, now: int, fuel: nat, h: Hasher): (res: Result<MergeOutcome>)
    requires Valid(r)
    ensures branchName !in r.branches ==> res == Err(NoSuchBranch)
    ensures branchName in r.branches && branchName == r.currentBranch ==> res == Err(MergeWithSelf)
    ensures branchName in r.branches && branchName != r.currentBranch && !IsEmpty(r.stage) ==>
      res == Err(UncommittedChanges)
    ensures res.Ok? ==> branchName in r.branches && branchName != r.currentBranch && IsEmpty(r.stage)
    ensures res.Ok? ==> (res.value == Ancestor <==> IsAncestor(r.commits, r.head, r.branches[branchName]))
    ensures res.Ok? && res.value.FastForwarded? ==>
      && IsAncestor(r.commits, r.branches[branchName], r.head)
      && res.value.repo == FastForward(r, r.branches[branchName])
    ensures res.Ok? && res.value.Merged? ==> res.value.repo.head in res.value.repo.commits
    ensures res.Ok? && res.value.Merged? ==>
      var c := res.value.repo.commits[res.value.repo.head];
      && c.parents == [r.head, r.branches[branchName]] && IsMerge(c)
      && res.value.repo.branches == r.branches[r.currentBranch := res.value.repo.head]
    ensures res.Ok? && res.value.Merged? ==>
      && (forall k :: k in r.commits && k != res.value.repo.head ==>
            k in res.value.repo.commits && res.value.repo.commits[k] == r.commits[k])
      && r.blobs.Keys <= res.value.repo.blobs.Keys
    ensures res.Ok? && !res.value.Ancestor? ==> Valid(res.value.repo)
    ensures res.Err? ==> res.error in {NoSuchBranch, MergeWithSelf, UncommittedChanges, OutOfFuel, Crash(NullPointer)}
    ensures res == Err(Crash(NullPointer)) ==>
      forall x :: !(IsAncestor(r.commits, r.head, x) && IsAncestor(r.commits, r.branches[branchName], x))
  {
    SearchOnlyRunsOutOfFuel(r, branchName, fuel);
    if branchName !in r.branches then Err(NoSuchBranch)
    else if branchName == r.currentBranch then Err(MergeWithSelf)
    else if !IsEmpty(r.stage) then Err(UncommittedChanges)
    else
      var branchHash := r.branches[branchName];
      match MergeBase(r.commits, r.head, branchHash, fuel)
      case Err(e) => Err(e)
      case Ok(None) => Err(Crash(NullPointer))
      case Ok(Some(split)) =>
        if split == branchHash then Ok(Ancestor)
        else if split == r.head then Ok(FastForwarded(FastForward(r, branchHash)))
        else Ok(MergeFiles(r, branchName, split, now, h))
  }

  lemma ValidParentsStored(r: Repo)
    requires Valid(r)
    ensures ParentsStored(r.commits)
    ensures forall b :: b in r.branches ==> r.branches[b] in r.commits
  {
    forall k | k in r.commits ensures forall i :: 0 <= i < |r.commits[k].parents| ==> r.commits[k].parents[i] in r.commits {
      assert CommitWellFormed(r.commits[k], r.commits, r.blobs);
    }
  }

  lemma SearchOnlyRunsOutOfFuel(r: Repo, branchName: string, fuel: nat)
    requires Valid(r)
    ensures branchName in r.branches ==> r.branches[branchName] in r.commits
    ensures branchName in r.branches && MergeBase(r.commits, r.head, r.branches[branchName], fuel).Err? ==>
      MergeBase(r.commits, r.head, r.branches[branchName], fuel).error == OutOfFuel
  {
    ValidParentsStored(r);
    if branchName in r.branches {
      MergeBaseOnlyRunsOutOfFuel(r.commits, r.head, r.branches[branchName], fuel);
    }
  }

  /** What the merge commit tracks under `n`, stated from the plan alone:
      nothing if removed, the head's reference updated to the written content
      if a file was written, the head's reference otherwise. */
  function MergedRef(n: Name, split: seq<FileRef>, head: seq<FileRef>, other: seq<FileRef>,
                     blobs: map<Hash, Content>, blobHash: Content -> Hash): Option<FileRef>
    requires AllStored(head, blobs) && AllStored(other, blobs)
  {
    var p := PlanFor(n, split, head, other, blobs);
    if p.0 == Remove then None
    else if p.1.Some? then Some(StagedRef(FindRef(head, n), n, blobHash(p.1.value)))
    else FindRef(head, n)
  }

  /** The merge commit made from a staging area and working directory in
      which `n` is resolved as `p`. */
  lemma CommitFollowsResolved(r: Repo, before: Work, n: Name, p: (Action, Option<Content>),
                              branchName: string, branchHash: Hash, now: int, h: Hasher)
    requires Valid(r) && branchHash in r.commits
    requires Resolved(before, Work(r.stage, r.cwd), n, p)
    ensures var res := MergeCommit(r, branchName, branchHash, now, h);
      && FindRef(res.commits[res.head].refs, n) ==
           (if p.0 == Remove then None
            else if p.1.Some? then Some(StagedRef(FindRef(HeadCommit(r).refs, n), n, h.blob(p.1.value)))
            else FindRef(HeadCommit(r).refs, n))
      && (p.0 == Remove ==> n !in res.cwd)
      && (p.1.Some? ==> n in res.cwd && res.cwd[n] == p.1.value)
      && (p.1.None? && p.0 != Remove ==> SameAt(before.cwd, res.cwd, n))
  {
  }

  /** Name by name, the merge commit tracks what the plan says, and the
      working directory holds what the plan wrote, lacks what it removed, and
      is untouched elsewhere. */
  lemma MergeFilesFollowsPlan(r: Repo, branchName: string, splitHash: Hash, now: int, h: Hasher, n: Name)
    requires Valid(r) && IsEmpty(r.stage)
    requires branchName in r.branches && splitHash in r.commits
    ensures CommitWellFormed(HeadCommit(r), r.commits, r.blobs)
    ensures r.branches[branchName] in r.commits && CommitWellFormed(r.commits[r.branches[branchName]], r.commits, r.blobs)
    ensures var res := MergeFiles(r, branchName, splitHash, now, h).repo;
      var split := r.commits[splitHash].refs;
      var head := HeadCommit(r).refs;
      var other := r.commits[r.branches[branchName]].refs;
      var p := PlanFor(n, split, head, other, r.blobs);
      && FindRef(res.commits[res.head].refs, n) == MergedRef(n, split, head, other, r.blobs, h.blob)
      && (p.0 == Remove ==> n !in res.cwd)
      && (p.1.Some? ==> n in res.cwd && res.cwd[n] == p.1.value)
      && (p.0 == Keep ==> SameAt(r.cwd, res.cwd, n))
  {
    var split := r.commits[splitHash];
    var head := HeadCommit(r);
    var branchHash := r.branches[branchName];
    var other := r.commits[branchHash];
    assert CommitWellFormed(head, r.commits, r.blobs);
    assert CommitWellFormed(other, r.commits, r.blobs);
    var names := AllFileNames(split, head, other);
    var start := Work(r.stage, r.cwd);
    var pass := Classify(start, [], names, split.refs, head.refs, other.refs, r.blobs);
    ClassifyResolvesEachName(start, names, split.refs, head.refs, other.refs, r.blobs);
    var p := PlanFor(n, split.refs, head.refs, other.refs, r.blobs);
    if n !in names {
      DecideIsThreeWay(FindRef(split.refs, n), FindRef(head.refs, n), FindRef(other.refs, n));
      assert p == (Keep, None);
    }
    assert Resolved(start, pass.0, n, p);
    var r1 := r.(stage := pass.0.stage, cwd := pass.0.cwd);
    CommitFollowsResolved(r1, start, n, p, branchName, branchHash, now, h);
  }

  /** When the head is an ancestor of the given branch's head but not the
      other way round, and the search completes, `merge` fast-forwards. */
  lemma MergeFastForwardsWhenBehind(r: Repo, branchName: string, now: int, fuel: nat, h: Hasher)
    requires Valid(r) && IsEmpty(r.stage)
    requires branchName in r.branches && branchName != r.currentBranch
    requires IsAncestor(r.commits, r.branches[branchName], r.head) && !IsAncestor(r.commits, r.head, r.branches[branchName])
    requires MergeBase(r.commits, r.head, r.branches[branchName], fuel).Ok?
    ensures r.branches[branchName] in r.commits
    ensures Merge(r, branchName, now, fuel, h) == Ok(FastForwarded(FastForward(r, r.branches[branchName])))
  {
    ValidParentsStored(r);
  }
}
