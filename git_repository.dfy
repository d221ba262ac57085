/**
 * The parts of a GitPython repository the Python checkers use: the commits
 * `Repo.iter_commits()` yields (newest first, starting at HEAD) and the
 * commits `Repo.merge_base(a, b)` returns for two branch names.
 */
module GitRepository {

  /**
   * A GitPython commit: its hash, its full message and GitPython's own
   * `summary` field, taken as given (nothing here ties it to the message).
   */
  datatype GitCommit = GitCommit(hexsha: string, message: string, summary: string)

  /** What both Python versions report when the two branches share no ancestor. */
  const NoAncestorMessage: string := "ERROR: No common ancestor found"

  /** A repository as the checkers see it. */
  datatype Repo = Repo(history: seq<GitCommit>, mergeBase: (string, string) -> seq<GitCommit>)

  /** Where a history walk stops: the first commit whose hash is `exitSha`, or the end. */
  function StopIndex(commits: seq<GitCommit>, exitSha: string): (k: nat)
    ensures k <= |commits|
    ensures forall i :: 0 <= i < k ==> commits[i].hexsha != exitSha
    ensures k < |commits| ==> commits[k].hexsha == exitSha
  {
    if commits == [] || commits[0].hexsha == exitSha then 0
    else 1 + StopIndex(commits[1..], exitSha)
  }
}
