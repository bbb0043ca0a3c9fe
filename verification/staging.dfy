/** StagingArea.java: the names staged for addition and for removal, with the
    snapshot copies the source keeps in its staging folders abstracted as
    maps from file name to content. */
module Staging {
  import opened Outcomes
  import opened Lists

  type Name = string
  type Content = string

  /** `addSnap` stands for the `staging/addition` folder, `remSnap` for
      `staging/removal`. */
  datatype Stage = Stage(
    addition: seq<Name>,
    removal: seq<Name>,
    addSnap: map<Name, Content>,
    remSnap: map<Name, Content>)

  /** The constructor: both lists and both folders empty. */
  function EmptyStage(): (s: Stage)
    ensures s.addition == [] && s.removal == []
    ensures s.addSnap == map[] && s.remSnap == map[]
  {
    Stage([], [], map[], map[])
  }

  /** Both lists empty: what `commit` and `merge` test before going on. */
  predicate IsEmpty(s: Stage) {
    |s.addition| == 0 && |s.removal| == 0
  }

  /** The invariant the callers in Main.java keep: no duplicates, no name in
      both lists, and a snapshot for every name staged for addition. */
  predicate WellFormed(s: Stage) {
    && NoDup(s.addition)
    && NoDup(s.removal)
    && (forall n :: n in s.addition ==> n !in s.removal)
    && (forall n :: n in s.addition ==> n in s.addSnap)
  }

  /** The loop of `filteredAddition` / `filteredRemoval`: the list element equal
      to `name`, or null. */
  function Filtered(list: seq<Name>, name: Name): (r: Option<Name>)
    ensures r.Some? <==> name in list
    ensures r.Some? ==> r.value == name
  {
    if list == [] then None
    else if list[0] == name then Some(list[0])
    else Filtered(list[1..], name)
  }

  /** `filteredAddition`. */
  function FilteredAddition(s: Stage, name: Name): (r: Option<Name>)
    ensures r == (if name in s.addition then Some(name) else None)
  {
    Filtered(s.addition, name)
  }

  /** `filteredRemoval`. */
  function FilteredRemoval(s: Stage, name: Name): (r: Option<Name>)
    ensures r == (if name in s.removal then Some(name) else None)
  {
    Filtered(s.removal, name)
  }

  /** `cancelStagedAddition`: unstage `name` and delete its snapshot, if staged. */
  function CancelStagedAddition(s: Stage, name: Name): (r: Stage)
    ensures name !in s.addition ==> r == s
    ensures r.removal == s.removal && r.remSnap == s.remSnap
    ensures name in s.addition ==> name !in r.addSnap
    ensures forall n :: n != name && n in s.addSnap ==> n in r.addSnap && r.addSnap[n] == s.addSnap[n]
    ensures NoDup(s.addition) ==> NoDup(r.addition) && name !in r.addition
    ensures NoDup(s.addition) ==> forall n :: n != name ==> (n in r.addition <==> n in s.addition)
    ensures WellFormed(s) ==> WellFormed(r)
  {
    if FilteredAddition(s, name).Some? then
      RemoveFirstNoDupIfNoDup(s.addition, name);
      s.(addition := RemoveFirst(s.addition, name), addSnap := s.addSnap - {name})
    else s
  }

  /** `stageForAddition`: append `name` and snapshot its working copy, unless it
      is already staged, in which case neither the list nor the snapshot
      changes. The working copy must exist when it is read. */
  function StageForAddition(s: Stage, name: Name, cwd: map<Name, Content>): (r: Stage)
    requires name in s.addition || name in cwd
    ensures name in s.addition ==> r == s
    ensures name !in s.addition ==> r.addition == s.addition + [name] && r.addSnap == s.addSnap[name := cwd[name]]
    ensures r.removal == s.removal && r.remSnap == s.remSnap
    ensures name in r.addition
    ensures NoDup(s.addition) ==> NoDup(r.addition)
    ensures WellFormed(s) && name !in s.removal ==> WellFormed(r)
  {
    if FilteredAddition(s, name).None? then
      s.(addition := s.addition + [name], addSnap := s.addSnap[name := cwd[name]])
    else s
  }

  /** `cancelStagedRemovel`: unstage `name` for removal, if staged. */
  function CancelStagedRemoval(s: Stage, name: Name): (r: Stage)
    ensures name !in s.removal ==> r == s
    ensures r.addition == s.addition && r.addSnap == s.addSnap
    ensures name in s.removal ==> name !in r.remSnap
    ensures forall n :: n != name && n in s.remSnap ==> n in r.remSnap && r.remSnap[n] == s.remSnap[n]
    ensures NoDup(s.removal) ==> NoDup(r.removal) && name !in r.removal
    ensures NoDup(s.removal) ==> forall n :: n != name ==> (n in r.removal <==> n in s.removal)
    ensures WellFormed(s) ==> WellFormed(r)
  {
    if FilteredRemoval(s, name).Some? then
      RemoveFirstNoDupIfNoDup(s.removal, name);
      s.(removal := RemoveFirst(s.removal, name), remSnap := s.remSnap - {name})
    else s
  }

  /** `stageForRemoval`: append `name` and snapshot its working copy, unless it
      is already staged for removal. */
  function StageForRemoval(s: Stage, name: Name, cwd: map<Name, Content>): (r: Stage)
    requires name in s.removal || name in cwd
    ensures name in s.removal ==> r == s
    ensures name !in s.removal ==> r.removal == s.removal + [name] && r.remSnap == s.remSnap[name := cwd[name]]
    ensures r.addition == s.addition && r.addSnap == s.addSnap
    ensures name in r.removal
    ensures NoDup(s.removal) ==> NoDup(r.removal)
  {
    if FilteredRemoval(s, name).None? then
      s.(removal := s.removal + [name], remSnap := s.remSnap[name := cwd[name]])
    else s
  }

  /** `manualAddRemoval`: append `name` to the removal list only, without a
      snapshot, unless it is already there. */
  function ManualAddRemoval(s: Stage, name: Name): (r: Stage)
    ensures name in s.removal ==> r == s
    ensures name !in s.removal ==> r.removal == s.removal + [name]
    ensures r.addition == s.addition && r.addSnap == s.addSnap && r.remSnap == s.remSnap
    ensures name in r.removal
    ensures NoDup(s.removal) ==> NoDup(r.removal)
  {
    if FilteredRemoval(s, name).None? then s.(removal := s.removal + [name]) else s
  }

  /** `deleteAllAddition`. */
  function DeleteAllAddition(s: Stage): (r: Stage)
    ensures r.addition == [] && r.addSnap == map[]
    ensures r.removal == s.removal && r.remSnap == s.remSnap
  {
    s.(addition := [], addSnap := map[])
  }

  /** `deleteAllRemoval`. */
  function DeleteAllRemoval(s: Stage): (r: Stage)
    ensures r.removal == [] && r.remSnap == map[]
    ensures r.addition == s.addition && r.addSnap == s.addSnap
  {
    s.(removal := [], remSnap := map[])
  }

  /** `deleteAllStage`: both lists and both folders emptied. */
  function DeleteAllStage(s: Stage): (r: Stage)
    ensures IsEmpty(r) && WellFormed(r)
    ensures r.addSnap == map[] && r.remSnap == map[]
  {
    DeleteAllRemoval(DeleteAllAddition(s))
  }

  lemma RemoveFirstNoDupIfNoDup(xs: seq<Name>, x: Name)
    ensures NoDup(xs) ==> NoDup(RemoveFirst(xs, x)) && x !in RemoveFirst(xs, x)
    ensures NoDup(xs) ==> forall y :: y != x ==> (y in RemoveFirst(xs, x) <==> y in xs)
  {
    if NoDup(xs) { RemoveFirstNoDup(xs, x); }
  }

  /** What `add` does to the stage once it knows whether the working copy
      matches the head commit: decide on the addition first, then always
      cancel a staged removal. The stage stays well formed, `name` is no
      longer staged for removal, and no other name changes list. */
  lemma AddPatternKeepsWellFormed(s: Stage, name: Name, cwd: map<Name, Content>, matchesHead: bool)
    requires WellFormed(s) && name in cwd
    ensures var r := CancelStagedRemoval(if matchesHead then CancelStagedAddition(s, name) else StageForAddition(s, name, cwd), name);
      && WellFormed(r)
      && name !in r.removal
      && (matchesHead <==> name !in r.addition)
      && (forall n :: n != name ==> (n in r.addition <==> n in s.addition) && (n in r.removal <==> n in s.removal))
  {
    var mid := if matchesHead then CancelStagedAddition(s, name) else StageForAddition(s, name, cwd);
    assert NoDup(mid.addition) && NoDup(mid.removal);
    assert forall n :: n in mid.addition ==> n in mid.addSnap;
  }

  /** What `rm` does to the stage for a name the head commit tracks: unstage the
      addition, then stage the removal. The stage stays well formed. */
  lemma RemovePatternKeepsWellFormed(s: Stage, name: Name)
    requires WellFormed(s)
    ensures var r := ManualAddRemoval(CancelStagedAddition(s, name), name);
      && WellFormed(r)
      && name in r.removal && name !in r.addition
      && (forall n :: n != name ==> (n in r.addition <==> n in s.addition) && (n in r.removal <==> n in s.removal))
  {
  }
}
