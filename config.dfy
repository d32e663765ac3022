/**
 * config/config.go: the application configuration, read once from the
 * process environment. Loading the `.env` file and printing the warning are
 * not modelled; the environment is a function from variable name to value
 * (os.Getenv yields "" for an unset variable), and the warning is an
 * out-parameter.
 */
module Config {
  import opened GoStrings

  datatype Config = Config(
    GitHubToken: string,
    GitHubRepo: string,       // "user/repo", with one trailing ".git" removed
    GitHubBranch: string,     // never empty after Load
    GitHubPathPrefix: string,
    PostsDir: string,
    BaseURL: string)

  const DefaultBranch := "main"

  /**
   * Load: the raw variables are copied into a fresh configuration, then the
   * repository loses one trailing ".git" and an empty branch becomes "main".
   * It cannot fail; a missing token only raises a warning.
   */
  method Load(getenv: string -> string) returns (cfg: Config, warned: bool)
    ensures cfg.GitHubToken == getenv("GITHUB_TOKEN")
    ensures cfg.GitHubPathPrefix == getenv("GITHUB_PATH_PREFIX")
    ensures cfg.PostsDir == getenv("POSTS_DIR")
    ensures cfg.BaseURL == getenv("POSTS_BASE_URL")
    ensures HasSuffix(getenv("GITHUB_REPO"), ".git") ==> cfg.GitHubRepo + ".git" == getenv("GITHUB_REPO")
    ensures !HasSuffix(getenv("GITHUB_REPO"), ".git") ==> cfg.GitHubRepo == getenv("GITHUB_REPO")
    ensures getenv("GITHUB_BRANCH") == "" ==> cfg.GitHubBranch == DefaultBranch
    ensures getenv("GITHUB_BRANCH") != "" ==> cfg.GitHubBranch == getenv("GITHUB_BRANCH")
    ensures cfg.GitHubBranch != ""
    ensures warned <==> cfg.GitHubToken == ""
  {
    cfg := Config(
      getenv("GITHUB_TOKEN"),
      getenv("GITHUB_REPO"),
      getenv("GITHUB_BRANCH"),
      getenv("GITHUB_PATH_PREFIX"),
      getenv("POSTS_DIR"),
      getenv("POSTS_BASE_URL"));
    if HasSuffix(cfg.GitHubRepo, ".git") {
      cfg := cfg.(GitHubRepo := cfg.GitHubRepo[..|cfg.GitHubRepo| - 4]);
    }
    if cfg.GitHubBranch == "" {
      cfg := cfg.(GitHubBranch := DefaultBranch);
    }
    warned := cfg.GitHubToken == "";
  }
}
