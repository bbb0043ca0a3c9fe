/** Failure-compatible result types shared by every module of the model.

    Gitlet reports a user error by printing a message and returning before
    the repository state is written back, and it fails on a Java runtime
    exception otherwise.  Both become an `Err` here; an `Err` result always
    means that the persisted repository state is left as it was. */
module Outcomes {

  /** Stand-in for a Java reference that may be null. */
  datatype Option<+T> = None | Some(value: T)

  /** The Java runtime exceptions the modelled code can raise. */
  datatype Exception =
    | NullPointer            // a method called on a null reference
    | IndexOutOfBounds       // LinkedList.get past the end
    | StringIndexOutOfBounds // String.substring past the end
    | MissingFile            // Utils.readContents on a file that does not exist

  /** Everything a command can stop with: the messages Gitlet prints, a
      crash, or running out of the fuel that bounds the commit-graph walks. */
  datatype Error =
    | FileDoesNotExist       // "File does not exist."
    | EmptyMessage           // "Please enter a commit message."
    | NothingToCommit        // "No changes added to the commit."
    | NoReasonToRemove       // "No reason to remove the file"
    | NoSuchBranch           // "A branch with that name does not exist."
    | MergeWithSelf          // "Cannot merge a branch with itself."
    | UncommittedChanges     // "You have uncommitted changes."
    | RemoteAlreadyExists    // "A remote with that name already exists."
    | RemoteDoesNotExist     // "A remote with that name does not exist."
    | OutOfFuel
    | Crash(exception: Exception)

  datatype Result<+T> = Ok(value: T) | Err(error: Error)
}
