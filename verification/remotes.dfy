/** RemoteInfo.java: the registry of remote names. The copy of the remote's
    location into the `remote` folder is not modelled; the registry itself is
    a duplicate-free list of names. */
module Remotes {
  import opened Outcomes
  import opened Lists

  type Registry = seq<string>

  /** The folder holding one file per registered remote. */
  const RemoteFolder: string := ".gitlet/remote"

  /** The constructor: nothing registered. */
  function NewRegistry(): (reg: Registry)
    ensures |reg| == 0
  {
    []
  }

  /** `addRemoteDir`: a known name is refused; a fresh name is appended. */
  function AddRemoteDir(reg: Registry, remoteName: string, remoteDir: string): (r: Result<Registry>)
    ensures remoteName in reg ==> r == Err(RemoteAlreadyExists)
    ensures remoteName !in reg ==> r == Ok(reg + [remoteName])
    ensures r.Ok? && NoDup(reg) ==> NoDup(r.value) && remoteName in r.value
  {
    if remoteName in reg then Err(RemoteAlreadyExists) else Ok(reg + [remoteName])
  }

  /** `removeRemoteDir`: an unknown name is refused; a known one is removed. */
  function RemoveRemoteDir(reg: Registry, remoteName: string): (r: Result<Registry>)
    ensures remoteName !in reg ==> r == Err(RemoteDoesNotExist)
    ensures remoteName in reg ==> r.Ok? && |r.value| == |reg| - 1
    ensures r.Ok? && NoDup(reg) ==> NoDup(r.value) && remoteName !in r.value
    ensures r.Ok? && NoDup(reg) ==> forall n :: n != remoteName ==> (n in r.value <==> n in reg)
  {
    if remoteName !in reg then Err(RemoteDoesNotExist)
    else
      RemoveFirstNoDupWhenNoDup(reg, remoteName);
      Ok(RemoveFirst(reg, remoteName))
  }

  lemma RemoveFirstNoDupWhenNoDup(reg: Registry, remoteName: string)
    ensures NoDup(reg) ==> NoDup(RemoveFirst(reg, remoteName)) && remoteName !in RemoveFirst(reg, remoteName)
    ensures NoDup(reg) ==> forall n :: n != remoteName ==> (n in RemoveFirst(reg, remoteName) <==> n in reg)
  {
    if NoDup(reg) { RemoveFirstNoDup(reg, remoteName); }
  }

  /** `getRemoteDir`: the file for `remoteName` inside the remote folder. The
      source joins this onto the absolute working directory; the model keeps
      the path relative to it. */
  function GetRemoteDir(remoteName: string): (path: string)
    ensures |path| == |RemoteFolder| + 1 + |remoteName|
    ensures path[..|RemoteFolder| + 1] == RemoteFolder + "/"
    ensures path[|RemoteFolder| + 1..] == remoteName
  {
    RemoteFolder + "/" + remoteName
  }

  /** Different remote names give different paths. */
  lemma RemoteDirIsInjective(n1: string, n2: string)
    ensures GetRemoteDir(n1) == GetRemoteDir(n2) <==> n1 == n2
  {
    if GetRemoteDir(n1) == GetRemoteDir(n2) {
      assert n1 == GetRemoteDir(n1)[|RemoteFolder| + 1..];
    }
  }
}
