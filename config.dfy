/**
 * The two configuration records: the per-clone `LocalRepoConfigClass`
 * (kept under `.git/`) and the versioned `RepoConfigClass`.  Loading them
 * from JSON is not modelled; a save is recorded as an `Event` carrying the
 * value that was written, and so is the git amend.
 */
module Config {

  const GithubRepoSrc: string := "https://github.com/bleuf1sh/git-byLines"

  datatype LocalConfigValue = LocalConfigValue(enabled: bool, lastByLines: seq<string>, repoSrc: string)

  datatype RepoConfigValue = RepoConfigValue(byLines: seq<string>, repoSrc: string)

  /** What the tool does to the outside world, in the order it happens. */
  datatype Event =
    | LocalConfigSaved(local: LocalConfigValue)
    | RepoConfigSaved(repo: RepoConfigValue)
    | CommitAmended(message: string)

  /** Per-clone settings: whether the commit hook runs, and the last bylines amended. */
  class LocalRepoConfig {
    var enabled: bool
    var lastByLines: seq<string>
    var repoSrc: string

    constructor ()
      ensures Value() == LocalConfigValue(true, [], GithubRepoSrc)
    {
      enabled := true;
      lastByLines := [];
      repoSrc := GithubRepoSrc;
    }

    function Value(): LocalConfigValue
      reads this
    {
      LocalConfigValue(enabled, lastByLines, repoSrc)
    }
  }

  /** Shared settings: every byline known to the repository. */
  class RepoConfig {
    var byLines: seq<string>
    var repoSrc: string

    constructor ()
      ensures Value() == RepoConfigValue([], GithubRepoSrc)
    {
      byLines := [];
      repoSrc := GithubRepoSrc;
    }

    function Value(): RepoConfigValue
      reads this
    {
      RepoConfigValue(byLines, repoSrc)
    }
  }
}
