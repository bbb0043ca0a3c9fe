/** Commit.java: an immutable commit record (message, timestamp, tracked-file
    list, ordered parent hashes) and the list operations the commands use
    while building a commit, before it is hashed and stored. */
module Commits {
  import opened Outcomes
  import opened FileReferences

  type Hash = string

  /** `parent` is the `_parent` field that `commit` sets; nothing reads it, but
      it is part of what gets serialised and hashed. `timestamp` is in
      milliseconds since the epoch. */
  datatype Commit = Commit(
    message: string,
    timestamp: int,
    refs: seq<FileRef>,
    parents: seq<Hash>,
    parent: Option<Hash>)

  /** At most one reference per file name. */
  predicate UniqueNames(refs: seq<FileRef>) {
    forall i, j :: 0 <= i < j < |refs| ==> refs[i].name != refs[j].name
  }

  /** `Commit(long timestamp, String message)` and, with the clock reading
      passed in, `Commit(String message)`: no files, no parents. */
  function NewCommit(message: string, timestamp: int): (c: Commit)
    ensures c.message == message && c.timestamp == timestamp
    ensures c.refs == [] && c.parents == [] && c.parent == None
  {
    Commit(message, timestamp, [], [], None)
  }

  /** `firstCommit`: the root of every repository. */
  function FirstCommit(): (c: Commit)
    ensures c.message == "initial commit" && c.timestamp == 0
    ensures c.refs == [] && c.parents == []
  {
    NewCommit("initial commit", 0)
  }

  /** Position of the first reference named `name`, or `|refs|` when there is none. */
  function RefIndex(refs: seq<FileRef>, name: string): (i: nat)
    ensures i <= |refs|
    ensures i < |refs| ==> refs[i].name == name
    ensures forall j :: 0 <= j < i ==> refs[j].name != name
  {
    if refs == [] then 0
    else if refs[0].name == name then 0
    else 1 + RefIndex(refs[1..], name)
  }

  /** `filteredReferenceFile`: the first reference whose name matches, or null. */
  function FindRef(refs: seq<FileRef>, name: string): (r: Option<FileRef>)
    ensures r.None? <==> forall j :: 0 <= j < |refs| ==> refs[j].name != name
    ensures r.Some? ==> r.value == refs[RefIndex(refs, name)] && r.value.name == name
  {
    if refs == [] then None
    else if refs[0].name == name then Some(refs[0])
    else FindRef(refs[1..], name)
  }

  /** A reference at `i` whose name no earlier reference carries is the one
      `filteredReferenceFile` finds. */
  lemma FindRefAt(refs: seq<FileRef>, name: string, i: nat)
    requires i < |refs| && refs[i].name == name
    requires forall j :: 0 <= j < i ==> refs[j].name != name
    ensures RefIndex(refs, name) == i
    ensures FindRef(refs, name) == Some(refs[i])
  {
  }

  /** `addReferenceFiles`: an untracked name gets a new reference at the end; a
      tracked one has its hash replaced in place. */
  function AddReferenceFile(refs: seq<FileRef>, file: string, name: string, newHash: Hash): (r: seq<FileRef>)
    ensures FindRef(refs, name).None? ==> r == refs + [NewRef(file, name, newHash)]
    ensures FindRef(refs, name).Some? ==>
      |r| == |refs| && r[RefIndex(refs, name)] == SetReferenceHash(refs[RefIndex(refs, name)], newHash)
    ensures forall j :: 0 <= j < |refs| && j != RefIndex(refs, name) ==> r[j] == refs[j]
    ensures |refs| <= |r| <= |refs| + 1
  {
    var i := RefIndex(refs, name);
    if i == |refs| then refs + [NewRef(file, name, newHash)]
    else refs[i := SetReferenceHash(refs[i], newHash)]
  }

  /** Replacing the reference at `i` by one with the same name changes no lookup
      of another name. */
  lemma ReplaceKeepsOtherLookups(refs: seq<FileRef>, i: nat, x: FileRef, other: string)
    requires i < |refs| && x.name == refs[i].name && other != x.name
    ensures FindRef(refs[i := x], other) == FindRef(refs, other)
  {
    var a := refs[i := x];
    var k := RefIndex(refs, other);
    if k < |refs| {
      FindRefAt(a, other, k);
    }
  }

  /** After `addReferenceFiles` the name is tracked with the new hash: a new
      reference at version 0, or the old one with its hash set. */
  lemma AddReferenceFileLookup(refs: seq<FileRef>, file: string, name: string, newHash: Hash)
    ensures FindRef(refs, name).None? ==>
      FindRef(AddReferenceFile(refs, file, name, newHash), name) == Some(NewRef(file, name, newHash))
    ensures FindRef(refs, name).Some? ==>
      FindRef(AddReferenceFile(refs, file, name, newHash), name)
        == Some(SetReferenceHash(FindRef(refs, name).value, newHash))
  {
    var r := AddReferenceFile(refs, file, name, newHash);
    var i := RefIndex(refs, name);
    if i == |refs| {
      FindRefAt(r, name, |refs|);
    } else {
      FindRefAt(r, name, i);
    }
  }

  /** `addReferenceFiles` leaves the lookup of every other name as it was. */
  lemma AddReferenceFileKeepsOthers(refs: seq<FileRef>, file: string, name: string, newHash: Hash, other: string)
    requires other != name
    ensures FindRef(AddReferenceFile(refs, file, name, newHash), other) == FindRef(refs, other)
  {
    var r := AddReferenceFile(refs, file, name, newHash);
    var i := RefIndex(refs, name);
    if i == |refs| {
      var k := RefIndex(refs, other);
      if k < |refs| { FindRefAt(r, other, k); }
    } else {
      ReplaceKeepsOtherLookups(refs, i, r[i], other);
    }
  }

  /** `addReferenceFiles` keeps names unique. */
  lemma AddReferenceFileUnique(refs: seq<FileRef>, file: string, name: string, newHash: Hash)
    requires UniqueNames(refs)
    ensures UniqueNames(AddReferenceFile(refs, file, name, newHash))
  {
  }

  /** Bump the version of the first reference named `name` (the in-place
      `updateVersion` that `commit` performs on a tracked file). */
  function UpdateVersionOf(refs: seq<FileRef>, name: string): (r: seq<FileRef>)
    ensures |r| == |refs|
    ensures forall j :: 0 <= j < |refs| ==> r[j].name == refs[j].name
    ensures FindRef(refs, name).None? ==> r == refs
  {
    var i := RefIndex(refs, name);
    if i == |refs| then refs else refs[i := UpdateVersion(refs[i])]
  }

  /** The in-place version bump affects the lookup of `name` only. */
  lemma UpdateVersionOfLookup(refs: seq<FileRef>, name: string)
    ensures FindRef(refs, name).Some? ==>
      FindRef(UpdateVersionOf(refs, name), name) == Some(UpdateVersion(FindRef(refs, name).value))
    ensures forall other :: other != name ==> FindRef(UpdateVersionOf(refs, name), other) == FindRef(refs, other)
    ensures UniqueNames(refs) ==> UniqueNames(UpdateVersionOf(refs, name))
  {
    var i := RefIndex(refs, name);
    if i < |refs| {
      var r := UpdateVersionOf(refs, name);
      FindRefAt(r, name, i);
      forall other | other != name
        ensures FindRef(r, other) == FindRef(refs, other)
      {
        ReplaceKeepsOtherLookups(refs, i, r[i], other);
      }
    }
  }

  /** `removeReferenceFile`: drop the first reference named `name`, keeping the
      others in their order. `indexOf` finds that same reference because the
      earlier ones carry other names. */
  function RemoveReferenceFile(refs: seq<FileRef>, name: string): (r: seq<FileRef>)
    ensures FindRef(refs, name).None? ==> r == refs
    ensures FindRef(refs, name).Some? ==>
      r == refs[..RefIndex(refs, name)] + refs[RefIndex(refs, name) + 1..]
    ensures UniqueNames(refs) ==> UniqueNames(r) && FindRef(r, name).None?
    ensures UniqueNames(refs) ==> forall other :: other != name ==> FindRef(r, other) == FindRef(refs, other)
    ensures forall x :: x in r ==> x in refs
  {
    var i := RefIndex(refs, name);
    if i == |refs| then refs
    else
      var r := refs[..i] + refs[i + 1..];
      assert forall k :: 0 <= k < |r| ==> r[k] == refs[if k < i then k else k + 1];
      RemovePreservesOthers(refs, name, i, r);
      r
  }

  /** Removing the only reference named `name` leaves every other lookup as it was. */
  lemma RemovePreservesOthers(refs: seq<FileRef>, name: string, i: nat, r: seq<FileRef>)
    requires i < |refs| && refs[i].name == name
    requires r == refs[..i] + refs[i + 1..]
    ensures UniqueNames(refs) ==> forall other :: other != name ==> FindRef(r, other) == FindRef(refs, other)
  {
    assert forall k :: 0 <= k < |r| ==> r[k] == refs[if k < i then k else k + 1];
    if UniqueNames(refs) {
      forall other | other != name
        ensures FindRef(r, other) == FindRef(refs, other)
      {
        var k := RefIndex(refs, other);
        if k < |refs| {
          assert k != i;
          var k' := if k < i then k else k - 1;
          assert r[k'] == refs[k];
          FindRefAt(r, other, k');
        }
      }
    }
  }

  /** `getAllRefNames`: the tracked names in list order. */
  function RefNames(refs: seq<FileRef>): (names: seq<string>)
    ensures |names| == |refs|
    ensures forall j :: 0 <= j < |refs| ==> names[j] == refs[j].name
  {
    if refs == [] then [] else [refs[0].name] + RefNames(refs[1..])
  }

  /** A name is listed by `getAllRefNames` exactly when `filteredReferenceFile`
      finds a reference for it. */
  lemma RefNamesAgreeWithFindRef(refs: seq<FileRef>, name: string)
    ensures name in RefNames(refs) <==> FindRef(refs, name).Some?
  {
    var names := RefNames(refs);
    if name in names {
      var j :| 0 <= j < |names| && names[j] == name;
      assert refs[j].name == name;
    }
  }

  /** `addPrevHash`: parents are appended in call order. */
  function AddPrevHash(c: Commit, h: Hash): (c': Commit)
    ensures c'.parents == c.parents + [h]
    ensures c'.message == c.message && c'.timestamp == c.timestamp
    ensures c'.refs == c.refs && c'.parent == c.parent
  {
    c.(parents := c.parents + [h])
  }

  /** Adding the hashes `hs` one by one. */
  function AddPrevHashes(c: Commit, hs: seq<Hash>): Commit
    decreases |hs|
  {
    if hs == [] then c else AddPrevHashes(AddPrevHash(c, hs[0]), hs[1..])
  }

  /** `getPrevHash` as written: the guard lets `index == size` through to
      `LinkedList.get`, which throws. */
  function GetPrevHashAsWritten(c: Commit, index: int): (r: Result<Option<Hash>>)
    ensures 0 <= index < |c.parents| ==> r == Ok(Some(c.parents[index]))
    ensures index < 0 || index > |c.parents| ==> r == Ok(None)
    ensures index == |c.parents| ==> r == Err(Crash(IndexOutOfBounds))
  {
    if index < 0 || index > |c.parents| then Ok(None)
    else if index < |c.parents| then Ok(Some(c.parents[index]))
    else Err(Crash(IndexOutOfBounds))
  }

  /** The guard `getPrevHash` evidently means: any index outside the list gives null. */
  function GetPrevHash(c: Commit, index: int): (r: Option<Hash>)
    ensures r.Some? <==> 0 <= index < |c.parents|
    ensures r.Some? ==> r.value == c.parents[index]
  {
    if 0 <= index < |c.parents| then Some(c.parents[index]) else None
  }

  /** Asking a one-parent commit for index 1, one past the end, crashes as
      written where the guard means to answer null. */
  lemma GetPrevHashPastEndCrashes(c: Commit)
    requires |c.parents| == 1
    ensures GetPrevHashAsWritten(c, 1) == Err(Crash(IndexOutOfBounds))
    ensures GetPrevHash(c, 1) == None
  {
  }

  /** After adding `hs` to a parentless commit, index `i` of `getPrevHash`
      yields the `i`-th added hash, and a negative index yields null. */
  lemma {:induction false} AddPrevHashesThenGet(c: Commit, hs: seq<Hash>)
    ensures AddPrevHashes(c, hs) == c.(parents := c.parents + hs)
    ensures c.parents == [] ==> forall i :: 0 <= i < |hs| ==> GetPrevHash(AddPrevHashes(c, hs), i) == Some(hs[i])
    ensures forall i :: i < 0 ==> GetPrevHash(AddPrevHashes(c, hs), i) == None
    decreases |hs|
  {
    if hs != [] {
      AddPrevHashesThenGet(AddPrevHash(c, hs[0]), hs[1..]);
      assert c.parents + [hs[0]] + hs[1..] == c.parents + hs;
    }
  }

  /** `isMerge`: a commit with two or more parents. */
  function IsMerge(c: Commit): (r: bool)
    ensures r <==> |c.parents| >= 2
  {
    !(|c.parents| == 0 || |c.parents| == 1)
  }
}
