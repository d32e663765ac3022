/**
 * services/uploader.go: GitHubUploader.Upload stores an image in a GitHub
 * repository through the contents API and answers the jsDelivr CDN URL of
 * the stored file.
 *
 * The HTTP exchange is abstract: `replies(i)` is the response to the i-th
 * request of the call (a status and a body, or a transport error), and the
 * requests the call issues are returned in order. Reading the image file is
 * the Result given as `read`; its bytes, their base64 encoding and the JSON
 * request body are opaque. On a Unix host filepath.ToSlash is the identity,
 * so the remote path is used as given.
 */
module Uploader {
  import opened Wrappers
  import opened GoStrings
  import opened Config

  const ConfigMissing := "GitHub configuration missing"
  const FailedPrefix := "upload failed: "
  const CommitMessage := "Upload image via wechat-preview tool"
  const CdnBase := "https://cdn.jsdelivr.net/gh/"
  const ApiBase := "https://api.github.com/repos/"

  /** The part of every CDN URL that precedes the remote path. */
  function CdnPrefix(cfg: Config): string {
    CdnBase + cfg.GitHubRepo + "@" + cfg.GitHubBranch + "/"
  }

  /** getCDNUrl: `https://cdn.jsdelivr.net/gh/<repo>@<branch>/<path>`. */
  function CdnUrl(cfg: Config, remotePath: string): string {
    CdnPrefix(cfg) + remotePath
  }

  /** The contents-API URL every request of a call goes to. */
  function ContentsUrl(cfg: Config, remotePath: string): string {
    ApiBase + cfg.GitHubRepo + "/contents/" + remotePath + "?ref=" + cfg.GitHubBranch
  }

  datatype Response = Reply(status: int, body: string) | TransportError(message: string)

  /** The requests Upload issues; a PUT carries the commit message and the branch besides the opaque content. */
  datatype Request = Get(url: string) | Put(url: string, message: string, branch: string)

  /** Upload refuses to run without a token and a repository. */
  predicate Configured(cfg: Config) { cfg.GitHubToken != "" && cfg.GitHubRepo != "" }

  /** A response that says the file is in the repository. */
  predicate Found(r: Response) { r.Reply? && r.status == 200 }

  /** PUT statuses that mean the file was stored. */
  predicate Stored(status: int) { status == 200 || status == 201 }

  /** PUT statuses after which the file may have been stored concurrently. */
  predicate Conflict(status: int) { status == 409 || status == 422 }

  /**
   * Upload. Without configuration, or when the file cannot be read, nothing is
   * sent. Otherwise the file is looked up first; if it is not found (or the
   * lookup fails in transport) it is PUT, and a 409 or 422 answer to the PUT
   * earns one more lookup. Every success answers the same CDN URL.
   */
  method Upload(cfg: Config, read: Result<string, string>, remotePath: string, replies: nat -> Response)
    returns (r: Result<string, string>, sent: seq<Request>)
    ensures |sent| <= 3
    ensures r.Ok? ==> r.value == CdnUrl(cfg, remotePath)
    ensures forall i :: 0 <= i < |sent| ==> sent[i].url == ContentsUrl(cfg, remotePath)
    ensures !Configured(cfg) ==> r == Err(ConfigMissing) && sent == []
    ensures Configured(cfg) && read.Err? ==> r == Err(read.error) && sent == []
    ensures Configured(cfg) && read.Ok? ==> |sent| >= 1 && sent[0].Get?
    ensures Configured(cfg) && read.Ok? && Found(replies(0)) ==>
      r == Ok(CdnUrl(cfg, remotePath)) && |sent| == 1
    ensures Configured(cfg) && read.Ok? && !Found(replies(0)) ==>
      |sent| >= 2 && sent[1] == Put(ContentsUrl(cfg, remotePath), CommitMessage, cfg.GitHubBranch)
    ensures Configured(cfg) && read.Ok? && !Found(replies(0)) && replies(1).TransportError? ==>
      r == Err(replies(1).message) && |sent| == 2
    ensures Configured(cfg) && read.Ok? && !Found(replies(0)) && replies(1).Reply? && Stored(replies(1).status) ==>
      r == Ok(CdnUrl(cfg, remotePath)) && |sent| == 2
    ensures Configured(cfg) && read.Ok? && !Found(replies(0)) && replies(1).Reply? && Conflict(replies(1).status) ==>
      |sent| == 3 && sent[2].Get? &&
      r == (if Found(replies(2)) then Ok(CdnUrl(cfg, remotePath)) else Err(FailedPrefix + replies(1).body))
    ensures (Configured(cfg) && read.Ok? && !Found(replies(0)) && replies(1).Reply? &&
             !Stored(replies(1).status) && !Conflict(replies(1).status)) ==>
      r == Err(FailedPrefix + replies(1).body) && |sent| == 2
  {
    sent := [];
    if cfg.GitHubToken == "" || cfg.GitHubRepo == "" {
      return Err(ConfigMissing), sent;
    }
    if read.Err? {
      return Err(read.error), sent;
    }
    var fileURL := ContentsUrl(cfg, remotePath);
    sent := sent + [Get(fileURL)];
    var resp := replies(0);
    if resp.Reply? && resp.status == 200 {
      return Ok(CdnUrl(cfg, remotePath)), sent;
    }
    sent := sent + [Put(fileURL, CommitMessage, cfg.GitHubBranch)];
    resp := replies(1);
    if resp.TransportError? {
      return Err(resp.message), sent;
    }
    if resp.status != 201 && resp.status != 200 {
      if resp.status == 409 || resp.status == 422 {
        sent := sent + [Get(fileURL)];
        var check := replies(2);
        if check.Reply? && check.status == 200 {
          return Ok(CdnUrl(cfg, remotePath)), sent;
        }
      }
      return Err(FailedPrefix + resp.body), sent;
    }
    return Ok(CdnUrl(cfg, remotePath)), sent;
  }

  /** The remote path can be read back off a CDN URL. */
  lemma CdnUrlPath(cfg: Config, remotePath: string)
    ensures HasPrefix(CdnUrl(cfg, remotePath), CdnPrefix(cfg))
    ensures CdnUrl(cfg, remotePath)[|CdnPrefix(cfg)|..] == remotePath
  {
    assert CdnUrl(cfg, remotePath)[..|CdnPrefix(cfg)|] == CdnPrefix(cfg);
  }

  /** Distinct remote paths get distinct CDN URLs under one configuration. */
  lemma CdnUrlInjective(cfg: Config, a: string, b: string)
    requires CdnUrl(cfg, a) == CdnUrl(cfg, b)
    ensures a == b
  {
    CdnUrlPath(cfg, a);
    CdnUrlPath(cfg, b);
  }
}
