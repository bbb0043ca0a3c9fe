/** FileReference.java: one tracked file inside a commit, i.e. a file name,
    the hash of its content blob, and a version counter. */
module FileReferences {

  /** Java's `int`, the type of the version counter. */
  newtype Int32 = x: int | -0x8000_0000 <= x < 0x8000_0000

  const MaxInt32: Int32 := 0x7fff_ffff

  /** `_version += 1` on a Java `int`: two's-complement wrap-around at the top. */
  function Increment(v: Int32): (r: Int32)
    ensures r as int == (v as int + 1 + 0x8000_0000) % 0x1_0000_0000 - 0x8000_0000
    ensures v < MaxInt32 ==> r as int == v as int + 1
  {
    if v == MaxInt32 then -0x8000_0000 else v + 1
  }

  /** `file` is the `java.io.File` the reference was created from, kept as its
      path; `hash` is the reference (blob) hash. */
  datatype FileRef = FileRef(file: string, name: string, hash: string, version: Int32)

  /** The constructor: a fresh reference starts at version 0. */
  function NewRef(file: string, name: string, hash: string): (r: FileRef)
    ensures r.file == file && r.name == name && r.hash == hash
    ensures r.version == 0
  {
    FileRef(file, name, hash, 0)
  }

  /** `setReferenceHash`: a new content hash bumps the version once. */
  function SetReferenceHash(r: FileRef, newHash: string): (r': FileRef)
    ensures r'.hash == newHash
    ensures r'.version == Increment(r.version)
    ensures r'.name == r.name && r'.file == r.file
  {
    r.(hash := newHash, version := Increment(r.version))
  }

  /** `updateVersion`: bumps the version and changes nothing else. */
  function UpdateVersion(r: FileRef): (r': FileRef)
    ensures r'.version == Increment(r.version)
    ensures r'.name == r.name && r'.file == r.file && r'.hash == r.hash
  {
    r.(version := Increment(r.version))
  }

  /** `equals`: two references are equal when they name the same file with the
      same content hash; the version and the `File` object are ignored. */
  predicate Equals(a: FileRef, b: FileRef) {
    a.name == b.name && a.hash == b.hash
  }

  /** `equals` is an equivalence relation. */
  lemma EqualsIsEquivalence(a: FileRef, b: FileRef, c: FileRef)
    ensures Equals(a, a)
    ensures Equals(a, b) <==> Equals(b, a)
    ensures Equals(a, b) && Equals(b, c) ==> Equals(a, c)
  {
  }

  /** Bumping the version never changes what a reference is `equals` to, and a
      new hash does exactly when it differs from the old one. */
  lemma EqualsIgnoresVersion(r: FileRef, other: FileRef, newHash: string)
    ensures Equals(UpdateVersion(r), other) <==> Equals(r, other)
    ensures Equals(SetReferenceHash(r, newHash), r) <==> newHash == r.hash
  {
  }

  /** Committing a file that is already tracked calls `updateVersion` and then
      `setReferenceHash` on the same reference, so its version rises by two. */
  lemma RecommitRaisesVersionByTwo(r: FileRef, newHash: string)
    requires r.version < MaxInt32 - 1
    ensures SetReferenceHash(UpdateVersion(r), newHash).version as int == r.version as int + 2
    ensures SetReferenceHash(UpdateVersion(r), newHash).hash == newHash
  {
  }
}
