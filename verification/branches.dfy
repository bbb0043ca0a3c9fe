/** CommitBranch.java: a named pointer to the head commit of a branch. */
module Branches {

  datatype CommitBranch = CommitBranch(name: string, headHash: string)

  /** The constructor stores the name and the head hash it is given. */
  function NewBranch(name: string, hash: string): (b: CommitBranch)
    ensures b.name == name && b.headHash == hash
  {
    CommitBranch(name, hash)
  }

  /** `setHeadPointerHash`: retarget the branch; the name is kept. */
  function SetHeadPointerHash(b: CommitBranch, hash: string): (r: CommitBranch)
    ensures r.headHash == hash && r.name == b.name
  {
    b.(headHash := hash)
  }

  /** `getBranchName`: the name the branch was built with. */
  function BranchName(b: CommitBranch): (n: string)
    ensures n == b.name && NewBranch(n, b.headHash) == b
  {
    b.name
  }

  /** `getHeadPointerHash`. */
  function HeadPointerHash(b: CommitBranch): (h: string)
    ensures NewBranch(b.name, h) == b
  {
    b.headHash
  }

  /** `toString` prints the branch name. */
  function ToString(b: CommitBranch): (s: string)
    ensures s == BranchName(b)
  {
    b.name
  }

  /** A run of `setHeadPointerHash` calls, one per hash, in order. */
  function Retarget(b: CommitBranch, hashes: seq<string>): CommitBranch
    decreases |hashes|
  {
    if hashes == [] then b else Retarget(SetHeadPointerHash(b, hashes[0]), hashes[1..])
  }

  /** There is no setter for the name, so however often a branch is retargeted
      it keeps the name it was built with and points at the last hash given. */
  lemma {:induction false} NameNeverChanges(b: CommitBranch, hashes: seq<string>)
    ensures BranchName(Retarget(b, hashes)) == BranchName(b)
    ensures hashes != [] ==> HeadPointerHash(Retarget(b, hashes)) == hashes[|hashes| - 1]
    ensures hashes == [] ==> Retarget(b, hashes) == b
    decreases |hashes|
  {
    if hashes != [] {
      NameNeverChanges(SetHeadPointerHash(b, hashes[0]), hashes[1..]);
      if |hashes| > 1 {
        assert hashes[1..][|hashes[1..]| - 1] == hashes[|hashes| - 1];
      }
    }
  }
}
