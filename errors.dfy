/** Values shared by every part of the model: an optional value, the error
    taxonomy of gittrail/exceptions.py, and a result that carries one of them. */
module Errors {

  datatype Option<+T> = None | Some(value: T)

  /** One constructor per exception class that the core raises. The human-readable
      message is replaced by the data it reports. */
  datatype Error =
    | UncleanGitStatus(status: string)          // the git status text that lacks the clean marker
    | IncompleteHistory(session: nat)            // first position whose record name is wrong
    | UnknownCommit(session: nat, commitId: string)
    | IntegrityError(paths: set<string>)         // paths that were illegally added/changed

  datatype Result<+T> = Ok(value: T) | Err(error: Error)
}
