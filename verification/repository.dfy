/** The repository-level commands of Main.java that the merge engine builds
    on: `add`, `commit`, `rm` and the abbreviated-id lookup, as pure
    transitions of one repository state. */
module Repository {
  import opened Outcomes
  import opened Lists
  import opened FileReferences
  import opened Commits
  import opened Staging

  /** SHA-1 over file contents and over serialised commits, left
      uninterpreted: any two total functions will do. */
  datatype Hasher = Hasher(blob: Content -> Hash, commit: Commit -> Hash)

  /** Everything a command reads and writes: the commit and blob folders as
      maps keyed by hash, the branch table, the current branch and head, the
      staging area, and the working directory as a map from file name to
      content. */
  datatype Repo = Repo(
    commits: map<Hash, Commit>,
    branches: map<string, Hash>,
    currentBranch: string,
    head: Hash,
    stage: Stage,
    cwd: map<Name, Content>,
    blobs: map<Hash, Content>)

  /** The folder whose files `commit` hashes and records as the `File` of a
      newly tracked reference. The source joins it onto the absolute working
      directory; the model keeps paths relative to it. */
  const AdditionFolder: string := ".gitlet/staging/addition"

  function StagedPath(name: Name): (p: string)
    ensures |p| == |AdditionFolder| + 1 + |name|
    ensures p[..|AdditionFolder| + 1] == AdditionFolder + "/" && p[|AdditionFolder| + 1..] == name
  {
    AdditionFolder + "/" + name
  }

  /** A stored commit is well formed when its names are unique and its parents
      and content blobs are stored. */
  ghost predicate CommitWellFormed(c: Commit, commits: map<Hash, Commit>, blobs: map<Hash, Content>) {
    && UniqueNames(c.refs)
    && (forall i :: 0 <= i < |c.parents| ==> c.parents[i] in commits)
    && (forall i :: 0 <= i < |c.refs| ==> c.refs[i].hash in blobs)
  }

  /** The invariant of a persisted repository: head and branch pointers name
      stored commits, stored commits are well formed, and the staging area is
      well formed. */
  ghost predicate Valid(r: Repo) {
    && r.head in r.commits
    && (forall b :: b in r.branches ==> r.branches[b] in r.commits)
    && (forall k :: k in r.commits ==> CommitWellFormed(r.commits[k], r.commits, r.blobs))
    && WellFormed(r.stage)
  }

  function HeadCommit(r: Repo): Commit
    requires r.head in r.commits
  {
    r.commits[r.head]
  }

  lemma CommitWellFormedGrows(c: Commit, commits: map<Hash, Commit>, blobs: map<Hash, Content>,
                              commits': map<Hash, Commit>, blobs': map<Hash, Content>)
    requires CommitWellFormed(c, commits, blobs)
    requires commits.Keys <= commits'.Keys && blobs.Keys <= blobs'.Keys
    ensures CommitWellFormed(c, commits', blobs')
  {
  }

  // ---------------------------------------------------------------- add

  /** The loop of `add`: does the head track `name` with exactly this hash? */
  predicate TracksWithHash(refs: seq<FileRef>, name: Name, hash: Hash) {
    exists i :: 0 <= i < |refs| && refs[i].name == name && refs[i].hash == hash
  }

  /** `add`: a working file identical to the head's version is unstaged, any
      other is staged for addition; a staged removal is cancelled either way.
      Only the staging area changes. */
  function Add(r: Repo, name: Name, h: Hasher): (res: Result<Repo>)
    requires Valid(r)
    ensures name !in r.cwd <==> res == Err(FileDoesNotExist)
    ensures res.Ok? ==> Valid(res.value) && res.value == r.(stage := res.value.stage)
    ensures res.Ok? ==> name !in res.value.stage.removal
    ensures res.Ok? ==>
      (name in res.value.stage.addition <==> !TracksWithHash(HeadCommit(r).refs, name, h.blob(r.cwd[name])))
    ensures res.Ok? && name !in r.stage.addition && name in res.value.stage.addition ==>
      res.value.stage.addSnap[name] == r.cwd[name]
    ensures res.Ok? && name in r.stage.addition && name in res.value.stage.addition ==>
      res.value.stage.addSnap[name] == r.stage.addSnap[name]
    ensures res.Ok? ==> forall n :: n != name ==>
      (n in res.value.stage.addition <==> n in r.stage.addition) &&
      (n in res.value.stage.removal <==> n in r.stage.removal)
  {
    if name !in r.cwd then Err(FileDoesNotExist)
    else
      var inCommit := TracksWithHash(HeadCommit(r).refs, name, h.blob(r.cwd[name]));
      var staged := if inCommit then CancelStagedAddition(r.stage, name) else StageForAddition(r.stage, name, r.cwd);
      AddPatternKeepsWellFormed(r.stage, name, r.cwd, inCommit);
      Ok(r.(stage := CancelStagedRemoval(staged, name)))
  }

  // ------------------------------------------------------------- commit

  /** `Character.isWhitespace`: the ASCII controls TAB..CR and FS..US, and the
      Unicode space, line and paragraph separators other than the no-break ones. */
  predicate IsWhitespace(c: char) {
    var k := c as int;
    || k == 0x20 || 0x09 <= k <= 0x0D || 0x1C <= k <= 0x1F
    || k == 0x1680 || 0x2000 <= k <= 0x2006 || 0x2008 <= k <= 0x200A
    || k == 0x2028 || k == 0x2029 || k == 0x205F || k == 0x3000
  }

  /** `String.isBlank`: empty or white space only. */
  predicate IsBlank(s: string) {
    forall i :: 0 <= i < |s| ==> IsWhitespace(s[i])
  }

  /** What a staged addition does to the head's reference for `name`: a new
      reference at version 0 on the staged file, or the old reference with
      the new hash and its version raised twice (`updateVersion`, then
      `setReferenceHash`). */
  function StagedRef(prior: Option<FileRef>, name: Name, hash: Hash): (r: FileRef)
    ensures r.name == name || prior.Some?
    ensures r.hash == hash
  {
    match prior
    case None => NewRef(StagedPath(name), name, hash)
    case Some(o) => SetReferenceHash(UpdateVersion(o), hash)
  }

  /** The body of the addition loop of `commit` for one name. */
  function CommitAddition(refs: seq<FileRef>, name: Name, hash: Hash): seq<FileRef> {
    AddReferenceFile(UpdateVersionOf(refs, name), StagedPath(name), name, hash)
  }

  /** The addition loop of `commit`, over the names staged for addition. */
  function ApplyAdditions(refs: seq<FileRef>, names: seq<Name>, snaps: map<Name, Content>, blobHash: Content -> Hash): seq<FileRef>
    requires forall n :: n in names ==> n in snaps
    decreases |names|
  {
    if names == [] then refs
    else ApplyAdditions(CommitAddition(refs, names[0], blobHash(snaps[names[0]])), names[1..], snaps, blobHash)
  }

  /** The removal loop of `commit`. */
  function ApplyRemovals(refs: seq<FileRef>, names: seq<Name>): seq<FileRef>
    decreases |names|
  {
    if names == [] then refs else ApplyRemovals(RemoveReferenceFile(refs, names[0]), names[1..])
  }

  /** The blobs `serializeBlob` writes while the addition loop runs. */
  function StoreBlobs(blobs: map<Hash, Content>, names: seq<Name>, snaps: map<Name, Content>, blobHash: Content -> Hash): (r: map<Hash, Content>)
    requires forall n :: n in names ==> n in snaps
    ensures blobs.Keys <= r.Keys
    ensures forall n :: n in names ==> blobHash(snaps[n]) in r
    decreases |names|
  {
    if names == [] then blobs
    else StoreBlobs(blobs[blobHash(snaps[names[0]]) := snaps[names[0]]], names[1..], snaps, blobHash)
  }

  /** The tracked-file list of a new commit: the head's list with every staged
      addition applied, then every staged removal. */
  function Tracked(refs: seq<FileRef>, s: Stage, blobHash: Content -> Hash): seq<FileRef>
    requires WellFormed(s)
  {
    ApplyRemovals(ApplyAdditions(refs, s.addition, s.addSnap, blobHash), s.removal)
  }

  /** The reference the rule of `commit` gives a name, stated without the
      loops: removed if staged for removal, else the staged version if staged
      for addition, else the head's. */
  function ExpectedRef(refs: seq<FileRef>, s: Stage, blobHash: Content -> Hash, name: Name): Option<FileRef>
    requires WellFormed(s)
  {
    if name in s.removal then None
    else if name in s.addition then Some(StagedRef(FindRef(refs, name), name, blobHash(s.addSnap[name])))
    else FindRef(refs, name)
  }

  lemma CommitAdditionLookup(refs: seq<FileRef>, name: Name, hash: Hash)
    requires UniqueNames(refs)
    ensures FindRef(CommitAddition(refs, name, hash), name) == Some(StagedRef(FindRef(refs, name), name, hash))
    ensures forall other :: other != name ==> FindRef(CommitAddition(refs, name, hash), other) == FindRef(refs, other)
    ensures UniqueNames(CommitAddition(refs, name, hash))
  {
    var mid := UpdateVersionOf(refs, name);
    UpdateVersionOfLookup(refs, name);
    AddReferenceFileLookup(mid, StagedPath(name), name, hash);
    AddReferenceFileUnique(mid, StagedPath(name), name, hash);
    forall other | other != name
      ensures FindRef(CommitAddition(refs, name, hash), other) == FindRef(refs, other)
    {
      AddReferenceFileKeepsOthers(mid, StagedPath(name), name, hash, other);
    }
  }

  lemma {:induction false} ApplyAdditionsLookup(refs: seq<FileRef>, names: seq<Name>, snaps: map<Name, Content>, blobHash: Content -> Hash, m: Name)
    requires UniqueNames(refs) && NoDup(names)
    requires forall n :: n in names ==> n in snaps
    ensures UniqueNames(ApplyAdditions(refs, names, snaps, blobHash))
    ensures FindRef(ApplyAdditions(refs, names, snaps, blobHash), m)
      == if m in names then Some(StagedRef(FindRef(refs, m), m, blobHash(snaps[m]))) else FindRef(refs, m)
    decreases |names|
  {
    if names != [] {
      var n := names[0];
      var refs1 := CommitAddition(refs, n, blobHash(snaps[n]));
      CommitAdditionLookup(refs, n, blobHash(snaps[n]));
      assert NoDup(names[1..]);
      ApplyAdditionsLookup(refs1, names[1..], snaps, blobHash, m);
      assert m in names <==> m == n || m in names[1..];
      if m == n {
        assert m !in names[1..];
      }
    }
  }

  lemma {:induction false} ApplyRemovalsLookup(refs: seq<FileRef>, names: seq<Name>, m: Name)
    requires UniqueNames(refs)
    ensures UniqueNames(ApplyRemovals(refs, names))
    ensures FindRef(ApplyRemovals(refs, names), m) == if m in names then None else FindRef(refs, m)
    decreases |names|
  {
    if names != [] {
      var refs1 := RemoveReferenceFile(refs, names[0]);
      ApplyRemovalsLookup(refs1, names[1..], m);
      assert m in names <==> m == names[0] || m in names[1..];
      if m != names[0] && m !in names[1..] {
        assert FindRef(refs1, m) == FindRef(refs, m);
      }
    }
  }

  /** A new commit's tracked files follow the rule of `commit` name by name,
      and names stay unique. */
  lemma TrackedLookup(refs: seq<FileRef>, s: Stage, blobHash: Content -> Hash, name: Name)
    requires UniqueNames(refs) && WellFormed(s)
    ensures UniqueNames(Tracked(refs, s, blobHash))
    ensures FindRef(Tracked(refs, s, blobHash), name) == ExpectedRef(refs, s, blobHash, name)
  {
    ApplyAdditionsLookup(refs, s.addition, s.addSnap, blobHash, name);
    var added := ApplyAdditions(refs, s.addition, s.addSnap, blobHash);
    ApplyRemovalsLookup(added, s.removal, name);
  }

  lemma {:induction false} ApplyAdditionsHashesStored(refs: seq<FileRef>, names: seq<Name>, snaps: map<Name, Content>,
                                                      blobHash: Content -> Hash, blobs: map<Hash, Content>)
    requires forall n :: n in names ==> n in snaps && blobHash(snaps[n]) in blobs
    requires forall i :: 0 <= i < |refs| ==> refs[i].hash in blobs
    ensures forall i :: 0 <= i < |ApplyAdditions(refs, names, snaps, blobHash)| ==>
      ApplyAdditions(refs, names, snaps, blobHash)[i].hash in blobs
    decreases |names|
  {
    if names != [] {
      var n := names[0];
      var mid := UpdateVersionOf(refs, n);
      assert forall i :: 0 <= i < |mid| ==> mid[i].hash == refs[i].hash by {
        var k := RefIndex(refs, n);
        assert forall i :: 0 <= i < |mid| && i != k ==> mid[i] == refs[i];
      }
      var refs1 := CommitAddition(refs, n, blobHash(snaps[n]));
      assert forall i :: 0 <= i < |refs1| ==> refs1[i].hash in blobs by {
        var k := RefIndex(mid, n);
        forall i | 0 <= i < |refs1| ensures refs1[i].hash in blobs {
          if i < |mid| && i != k { assert refs1[i] == mid[i]; }
        }
      }
      ApplyAdditionsHashesStored(refs1, names[1..], snaps, blobHash, blobs);
    }
  }

  lemma {:induction false} ApplyRemovalsKeepsMembers(refs: seq<FileRef>, names: seq<Name>)
    ensures forall x :: x in ApplyRemovals(refs, names) ==> x in refs
    decreases |names|
  {
    if names != [] {
      ApplyRemovalsKeepsMembers(RemoveReferenceFile(refs, names[0]), names[1..]);
    }
  }

  /** Every content hash a new commit refers to is in the blob store once the
      staged blobs are written. */
  lemma TrackedHashesStored(refs: seq<FileRef>, s: Stage, blobHash: Content -> Hash, blobs: map<Hash, Content>)
    requires WellFormed(s)
    requires forall i :: 0 <= i < |refs| ==> refs[i].hash in blobs
    ensures forall i :: 0 <= i < |Tracked(refs, s, blobHash)| ==>
      Tracked(refs, s, blobHash)[i].hash in StoreBlobs(blobs, s.addition, s.addSnap, blobHash)
  {
    var stored := StoreBlobs(blobs, s.addition, s.addSnap, blobHash);
    ApplyAdditionsHashesStored(refs, s.addition, s.addSnap, blobHash, stored);
    var added := ApplyAdditions(refs, s.addition, s.addSnap, blobHash);
    ApplyRemovalsKeepsMembers(added, s.removal);
    var t := Tracked(refs, s, blobHash);
    forall i | 0 <= i < |t| ensures t[i].hash in stored {
      assert t[i] in added;
    }
  }

  /** The tail shared by `commit` and `mergeCommit`: complete `shell` with the
      head's tracked files updated by the staging area, store it and the staged
      blobs, clear the staging area, and point head and current branch at the
      new commit. */
  function Record(r: Repo, shell: Commit, h: Hasher): (r': Repo)
    requires Valid(r)
    requires forall i :: 0 <= i < |shell.parents| ==> shell.parents[i] in r.commits
    ensures r'.head in r'.commits && r'.head == h.commit(r'.commits[r'.head])
    ensures r'.commits[r'.head] == shell.(refs := r'.commits[r'.head].refs)
    ensures r'.branches == r.branches[r.currentBranch := r'.head]
    ensures r'.currentBranch == r.currentBranch && r'.cwd == r.cwd
    ensures IsEmpty(r'.stage) && r'.stage.addSnap == map[]
    ensures forall k :: k in r.commits && k != r'.head ==> k in r'.commits && r'.commits[k] == r.commits[k]
    ensures r.blobs.Keys <= r'.blobs.Keys
    ensures forall n :: FindRef(r'.commits[r'.head].refs, n) == ExpectedRef(HeadCommit(r).refs, r.stage, h.blob, n)
    ensures Valid(r')
  {
    var c := shell.(refs := Tracked(HeadCommit(r).refs, r.stage, h.blob));
    var id := h.commit(c);
    var r' := r.(commits := r.commits[id := c],
                 blobs := StoreBlobs(r.blobs, r.stage.addition, r.stage.addSnap, h.blob),
                 stage := DeleteAllStage(r.stage),
                 head := id,
                 branches := r.branches[r.currentBranch := id]);
    RecordValid(r, c, h, r');
    r'
  }

  lemma RecordValid(r: Repo, c: Commit, h: Hasher, r': Repo)
    requires Valid(r)
    requires forall i :: 0 <= i < |c.parents| ==> c.parents[i] in r.commits
    requires c.refs == Tracked(HeadCommit(r).refs, r.stage, h.blob)
    requires r' == r.(commits := r.commits[h.commit(c) := c],
                      blobs := StoreBlobs(r.blobs, r.stage.addition, r.stage.addSnap, h.blob),
                      stage := DeleteAllStage(r.stage),
                      head := h.commit(c),
                      branches := r.branches[r.currentBranch := h.commit(c)])
    ensures forall n :: FindRef(c.refs, n) == ExpectedRef(HeadCommit(r).refs, r.stage, h.blob, n)
    ensures Valid(r')
  {
    var head := HeadCommit(r);
    assert CommitWellFormed(head, r.commits, r.blobs);
    forall n ensures FindRef(c.refs, n) == ExpectedRef(head.refs, r.stage, h.blob, n) {
      TrackedLookup(head.refs, r.stage, h.blob, n);
    }
    TrackedLookup(head.refs, r.stage, h.blob, "");
    TrackedHashesStored(head.refs, r.stage, h.blob, r.blobs);
    assert CommitWellFormed(c, r'.commits, r'.blobs);
    forall k | k in r'.commits ensures CommitWellFormed(r'.commits[k], r'.commits, r'.blobs) {
      if k != h.commit(c) {
        CommitWellFormedGrows(r.commits[k], r.commits, r.blobs, r'.commits, r'.blobs);
      }
    }
  }

  /** `commit`: a blank message or an empty staging area stops it with nothing
      changed; otherwise a new commit with the head as its only parent
      becomes head and current-branch tip, and the staging area is emptied. */
  function Commit(r: Repo, message: string, now: int, h: Hasher): (res: Result<Repo>)
    requires Valid(r)
    ensures IsBlank(message) ==> res == Err(EmptyMessage)
    ensures !IsBlank(message) && IsEmpty(r.stage) ==> res == Err(NothingToCommit)
    ensures !IsBlank(message) && !IsEmpty(r.stage) ==> res.Ok?
    ensures res.Ok? ==> Valid(res.value)
    ensures res.Ok? ==> var c := res.value.commits[res.value.head];
      && c.parents == [r.head] && c.parent == Some(r.head)
      && c.message == message && c.timestamp == now
      && !IsMerge(c)
      && res.value.head == h.commit(c)
      && (forall n :: FindRef(c.refs, n) == ExpectedRef(HeadCommit(r).refs, r.stage, h.blob, n))
    ensures res.Ok? ==> res.value.branches == r.branches[r.currentBranch := res.value.head]
    ensures res.Ok? ==> res.value.currentBranch == r.currentBranch && res.value.cwd == r.cwd
    ensures res.Ok? ==> IsEmpty(res.value.stage)
    ensures res.Ok? ==> forall k :: k in r.commits && k != res.value.head ==>
      k in res.value.commits && res.value.commits[k] == r.commits[k]
    ensures res.Ok? ==> r.blobs.Keys <= res.value.blobs.Keys
  {
    if IsBlank(message) then Err(EmptyMessage)
    else if IsEmpty(r.stage) then Err(NothingToCommit)
    else
      var shell := AddPrevHash(NewCommit(message, now), r.head).(parent := Some(r.head));
      Ok(Record(r, shell, h))
  }

  /** Re-committing a tracked file through the staging area raises its version by two. */
  lemma RecommitVersion(r: Repo, message: string, now: int, h: Hasher, name: Name)
    requires Valid(r) && !IsBlank(message)
    requires name in r.stage.addition && FindRef(HeadCommit(r).refs, name).Some?
    requires FindRef(HeadCommit(r).refs, name).value.version < MaxInt32 - 1
    ensures var res := Commit(r, message, now, h);
      var before := FindRef(HeadCommit(r).refs, name).value;
      && res.Ok?
      && FindRef(res.value.commits[res.value.head].refs, name).Some?
      && FindRef(res.value.commits[res.value.head].refs, name).value.version as int == before.version as int + 2
      && FindRef(res.value.commits[res.value.head].refs, name).value.hash == h.blob(r.stage.addSnap[name])
  {
    assert name !in r.stage.removal;
  }

  // ----------------------------------------------------------------- rm

  /** `rm`: a name neither staged nor tracked is refused. Otherwise the name is
      unstaged for addition and, when the head tracks it, staged for removal
      and deleted from the working directory. */
  function Rm(r: Repo, name: Name): (res: Result<Repo>)
    requires Valid(r)
    ensures res == Err(NoReasonToRemove) <==>
      name !in r.stage.addition && name !in r.stage.removal && FindRef(HeadCommit(r).refs, name).None?
    ensures res.Ok? ==> Valid(res.value) && name !in res.value.stage.addition
    ensures res.Ok? ==> res.value == r.(stage := res.value.stage, cwd := res.value.cwd)
    ensures res.Ok? && FindRef(HeadCommit(r).refs, name).Some? ==>
      name in res.value.stage.removal && res.value.cwd == r.cwd - {name}
    ensures res.Ok? && FindRef(HeadCommit(r).refs, name).None? ==>
      res.value.stage.removal == r.stage.removal && res.value.cwd == r.cwd
    ensures res.Ok? ==> forall n :: n != name ==>
      (n in res.value.stage.addition <==> n in r.stage.addition) &&
      (n in res.value.stage.removal <==> n in r.stage.removal)
  {
    var tracked := FindRef(HeadCommit(r).refs, name).Some?;
    if FilteredAddition(r.stage, name).None? && FilteredRemoval(r.stage, name).None? && !tracked then
      Err(NoReasonToRemove)
    else
      var s1 := CancelStagedAddition(r.stage, name);
      if tracked then
        RemovePatternKeepsWellFormed(r.stage, name);
        var s2 := ManualAddRemoval(s1, name);
        if name in r.cwd then Ok(r.(stage := StageForRemoval(s2, name, r.cwd), cwd := r.cwd - {name}))
        else Ok(r.(stage := s2))
      else
        Ok(r.(stage := s1))
  }

  // --------------------------------------------------- abbreviated ids

  /** `getFullCommitId` as written: `substring(0, abbrev.length())` throws on
      a stored id shorter than the abbreviation before any match is found. */
  function FullCommitIdAsWritten(ids: seq<Hash>, abbrev: string): (r: Result<Option<Hash>>)
    ensures r.Ok? && r.value.Some? ==> r.value.value in ids && abbrev <= r.value.value
    decreases |ids|
  {
    if ids == [] then Ok(None)
    else if |abbrev| > |ids[0]| then Err(Crash(StringIndexOutOfBounds))
    else if ids[0][..|abbrev|] == abbrev then Ok(Some(ids[0]))
    else FullCommitIdAsWritten(ids[1..], abbrev)
  }

  /** `getFullCommitId` with the prefix test it evidently means (`startsWith`):
      the first stored id (in folder order) that begins with `abbrev`, or null. */
  method GetFullCommitId(ids: seq<Hash>, abbrev: string) returns (r: Option<Hash>)
    ensures r.None? <==> forall j :: 0 <= j < |ids| ==> !(abbrev <= ids[j])
    ensures r.Some? ==> exists i :: 0 <= i < |ids| && ids[i] == r.value && abbrev <= ids[i] &&
                                    (forall j :: 0 <= j < i ==> !(abbrev <= ids[j]))
  {
    r := None;
    var k := 0;
    while k < |ids|
      invariant 0 <= k <= |ids|
      invariant forall j :: 0 <= j < k ==> !(abbrev <= ids[j])
    {
      if |abbrev| <= |ids[k]| && ids[k][..|abbrev|] == abbrev {
        r := Some(ids[k]);
        return;
      }
      k := k + 1;
    }
  }

  /** Where every stored id is at least as long as the abbreviation, the code
      as written finds the first id with that prefix, as intended. */
  lemma {:induction false} FullCommitIdAsWrittenWhenLongEnough(ids: seq<Hash>, abbrev: string)
    requires forall j :: 0 <= j < |ids| ==> |abbrev| <= |ids[j]|
    ensures FullCommitIdAsWritten(ids, abbrev).Ok?
    ensures FullCommitIdAsWritten(ids, abbrev).value.None? <==> forall j :: 0 <= j < |ids| ==> !(abbrev <= ids[j])
    ensures FullCommitIdAsWritten(ids, abbrev).value.Some? ==>
      exists i :: 0 <= i < |ids| && ids[i] == FullCommitIdAsWritten(ids, abbrev).value.value &&
                  (forall j :: 0 <= j < i ==> !(abbrev <= ids[j]))
    decreases |ids|
  {
    if ids != [] && ids[0][..|abbrev|] != abbrev {
      FullCommitIdAsWrittenWhenLongEnough(ids[1..], abbrev);
      assert forall j :: 1 <= j < |ids| ==> ids[j] == ids[1..][j - 1];
      if FullCommitIdAsWritten(ids[1..], abbrev).value.Some? {
        var i :| 0 <= i < |ids[1..]| && ids[1..][i] == FullCommitIdAsWritten(ids[1..], abbrev).value.value &&
                 (forall j :: 0 <= j < i ==> !(abbrev <= ids[1..][j]));
        assert ids[i + 1] == ids[1..][i];
      }
    }
  }

  /** An abbreviation longer than a stored id that precedes every match
      crashes the code as written, where the intended lookup just finds nothing. */
  lemma LongAbbreviationCrashes()
    ensures FullCommitIdAsWritten(["abc"], "abcd") == Err(Crash(StringIndexOutOfBounds))
    ensures forall j :: 0 <= j < |["abc"]| ==> !("abcd" <= ["abc"][j])
  {
  }
}
