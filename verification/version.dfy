/** The version command of cmd/version.go. */
module Version {
  /** The short form of a commit hash: its first seven characters, or nothing
      when the hash is shorter than that. */
  function ShortGitCommit(fullGitCommit: string): (shortCommit: string)
    ensures |fullGitCommit| >= 7 ==> shortCommit == fullGitCommit[..7]
    ensures |fullGitCommit| < 7 ==> shortCommit == ""
    ensures |shortCommit| == 0 || |shortCommit| == 7
    ensures shortCommit <= fullGitCommit
  {
    if |fullGitCommit| >= 7 then fullGitCommit[0..7] else ""
  }

  /** Shortening is idempotent: a short hash is either empty or already seven
      characters long. */
  lemma ShortGitCommitIdempotent(fullGitCommit: string)
    ensures ShortGitCommit(ShortGitCommit(fullGitCommit)) == ShortGitCommit(fullGitCommit)
  {
  }
}
