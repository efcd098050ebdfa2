/**
  `is_github_repo` and the URL rewriting of `get_github_repo_url`: the
  configured `remote.origin.url` (the empty string when git reports none) is
  turned into the repository's `https://github.com/...` address, or `None`.
 */
module RemoteUrl {
  import opened Wrappers
  import opened Text

  const SshPrefix: string := "git@github.com:"
  const HttpsPrefix: string := "https://github.com/"
  const Host: string := "github.com"
  const GitSuffix: string := ".git"

  /** `s[:-4]` when `s` ends with `.git`, else `s`: at most one suffix goes. */
  function DropGitSuffix(s: string): (r: string)
    ensures EndsWith(s, GitSuffix) ==> r + GitSuffix == s
    ensures !EndsWith(s, GitSuffix) ==> r == s
  {
    if EndsWith(s, GitSuffix) then
      assert s == s[..|s| - 4] + s[|s| - 4..];
      s[..|s| - 4]
    else s
  }

  /** `is_github_repo`: a non-empty remote URL mentioning `github.com`. */
  function IsGithubRepo(remote: string): (b: bool)
    ensures b <==> remote != "" && exists i :: OccursAt(remote, Host, i)
  {
    ContainsOccurs(remote, Host);
    remote != "" && Contains(remote, Host)
  }

  /** An SSH-form remote always mentions the host. */
  lemma SshFormIsGithub(remote: string)
    requires StartsWith(remote, SshPrefix)
    ensures IsGithubRepo(remote)
  {
    assert remote[4..][..|Host|] == remote[..|SshPrefix|][4..14];
    ContainsAt(remote, Host, 4);
  }

  /**
    `get_github_repo_url`. The SSH branch applies Python's `replace`, which
    drops every occurrence of the SSH prefix, not only the leading one.
   */
  function RepoUrl(remote: string): (r: Option<string>)
    // A URL is produced exactly for the remotes `is_github_repo` accepts.
    ensures r.Some? <==> IsGithubRepo(remote)
    // SSH form: HTTPS prefix plus the remainder, minus one trailing `.git`.
    ensures StartsWith(remote, SshPrefix) && !Contains(remote[|SshPrefix|..], SshPrefix) ==>
      r == Some(HttpsPrefix + DropGitSuffix(remote[|SshPrefix|..]))
    // Any other GitHub URL loses one trailing `.git` and is otherwise kept.
    ensures !StartsWith(remote, SshPrefix) && IsGithubRepo(remote) ==> r == Some(DropGitSuffix(remote))
  {
    if remote == "" then None
    else if StartsWith(remote, SshPrefix) then
      SshFormIsGithub(remote);
      assert RemoveAll(remote, SshPrefix) == RemoveAll(remote[|SshPrefix|..], SshPrefix);
      Some(HttpsPrefix + DropGitSuffix(RemoveAll(remote, SshPrefix)))
    else if Contains(remote, Host) then Some(DropGitSuffix(remote))
    else None
  }

  /** A text containing `pattern` contains each of its characters. */
  lemma {:induction false} ContainsChar(s: string, pattern: string, k: nat)
    requires k < |pattern|
    ensures Contains(s, pattern) ==> pattern[k] in s
    decreases |s|
  {
    if |pattern| <= |s| && s[..|pattern|] == pattern {
      assert s[k] == pattern[k];
    } else if |s| > 0 {
      ContainsChar(s[1..], pattern, k);
      if pattern[k] in s[1..] {
        var j :| 0 <= j < |s[1..]| && s[1..][j] == pattern[k];
        assert s[j + 1] == pattern[k];
      }
    }
  }

  /** Appending `.git` and dropping it again gives the path back. */
  lemma DropAppendedSuffix(path: string)
    ensures DropGitSuffix(path + GitSuffix) == path
  {
    var s := path + GitSuffix;
    assert s[|s| - 4..] == GitSuffix;
    assert s[..|s| - 4] == path;
  }

  /** The SSH remote of an `owner/repo` path maps to its HTTPS address. */
  lemma SshRemote(path: string)
    requires '@' !in path
    ensures RepoUrl(SshPrefix + path + GitSuffix) == Some(HttpsPrefix + path)
  {
    var ssh := SshPrefix + path + GitSuffix;
    assert ssh[..|SshPrefix|] == SshPrefix;
    var rest := ssh[|SshPrefix|..];
    assert rest == path + GitSuffix;
    assert '@' !in rest by {
      assert '@' !in GitSuffix;
    }
    ContainsChar(rest, SshPrefix, 3);
    DropAppendedSuffix(path);
  }

  /** Any text after the HTTPS prefix is a GitHub remote not in SSH form. */
  lemma HttpsFormIsGithub(url: string)
    requires StartsWith(url, HttpsPrefix)
    ensures IsGithubRepo(url) && !StartsWith(url, SshPrefix)
  {
    assert url[0] == 'h';
    assert url[8..][..|Host|] == Host;
    ContainsAt(url, Host, 8);
  }

  /** The HTTPS remote with `.git` maps to the same address. */
  lemma HttpsGitRemote(path: string)
    ensures RepoUrl(HttpsPrefix + path + GitSuffix) == Some(HttpsPrefix + path)
  {
    var url := HttpsPrefix + path + GitSuffix;
    assert url[..|HttpsPrefix|] == HttpsPrefix;
    HttpsFormIsGithub(url);
    assert url == (HttpsPrefix + path) + GitSuffix;
    DropAppendedSuffix(HttpsPrefix + path);
  }

  /** The HTTPS prefix followed by a path without `.git` does not end with `.git`. */
  lemma HttpsNoSuffix(path: string)
    requires !EndsWith(path, GitSuffix)
    ensures !EndsWith(HttpsPrefix + path, GitSuffix)
  {
    var url := HttpsPrefix + path;
    if |path| >= 4 {
      assert url[|url| - 4..] == path[|path| - 4..];
    } else {
      assert url[|url| - 4] == HttpsPrefix[15 + |path|];
    }
  }

  /** The HTTPS remote without `.git` is its own address. */
  lemma HttpsRemote(path: string)
    requires !EndsWith(path, GitSuffix)
    ensures RepoUrl(HttpsPrefix + path) == Some(HttpsPrefix + path)
  {
    var url := HttpsPrefix + path;
    assert url[..|HttpsPrefix|] == HttpsPrefix;
    HttpsFormIsGithub(url);
    HttpsNoSuffix(path);
  }

  /**
    For an `owner/repo` path, the SSH remote, the HTTPS remote with `.git` and
    the HTTPS remote without it all give the same web address.
   */
  lemma SshAndHttpsAgree(path: string)
    requires '@' !in path && !EndsWith(path, GitSuffix)
    ensures RepoUrl(SshPrefix + path + GitSuffix) == RepoUrl(HttpsPrefix + path + GitSuffix)
    ensures RepoUrl(HttpsPrefix + path + GitSuffix) == RepoUrl(HttpsPrefix + path)
  {
    SshRemote(path);
    HttpsGitRemote(path);
    HttpsRemote(path);
  }
}
