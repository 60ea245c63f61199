/** The pure part of the GitHub integration: parsing a repository
    identifier, classifying a failed repository lookup, recognising a
    `.claude` directory in a listing, and validating a batch of
    repositories. Every call to the `gh` command-line tool is an oracle
    parameter: a total function from its argument to what the tool reported. */
module GitHub {
  import opened Wrappers
  import opened Strings

  const HttpsPrefix: string := "https://github.com/"
  const SshPrefix: string := "git@github.com:"
  const GitSuffix: string := ".git"

  // ---------------------------------------------------------------------
  // parse_repository_url
  // ---------------------------------------------------------------------

  /** The error the parser raises (a `ValueError` carrying this text). */
  function ParseErrorText(url: string): string {
    "Unable to parse repository URL: " + url
  }

  /** `path[:-4]` when `path` ends with ".git", else `path`. */
  function DropGitSuffix(path: string): string {
    if EndsWith(path, GitSuffix) then path[..|path| - |GitSuffix|] else path
  }

  /** The first two segments of a URL after its host prefix is replaced away
      and one trailing ".git" is dropped, when there are at least two. */
  function HostedOwnerRepo(url: string, prefix: string): Option<(string, string)>
    requires |prefix| > 0
  {
    var parts := Split(DropGitSuffix(ReplaceAll(url, prefix, "")), '/');
    if |parts| >= 2 then Some((parts[0], parts[1])) else None
  }

  /** The guard of the plain `owner/repo` form. */
  predicate IsPlainForm(url: string) {
    '/' in url && !Contains(url, "://") && '@' !in url
  }

  /** Owner and repository name of `owner/repo`, `https://github.com/owner/repo[.git][/...]`
      or `git@github.com:owner/repo[.git]`; any other text is an error. */
  function ParseRepositoryUrl(url: string): (r: Result<(string, string), string>)
    ensures r.Err? ==> r.error == ParseErrorText(url)
    ensures r.Ok? ==> IsPlainForm(url) || StartsWith(url, HttpsPrefix) || StartsWith(url, SshPrefix)
  {
    if IsPlainForm(url) && |Split(url, '/')| == 2 then
      Ok((Split(url, '/')[0], Split(url, '/')[1]))
    else if StartsWith(url, HttpsPrefix) && HostedOwnerRepo(url, HttpsPrefix).Some? then
      Ok(HostedOwnerRepo(url, HttpsPrefix).value)
    else if StartsWith(url, SshPrefix) && HostedOwnerRepo(url, SshPrefix).Some? then
      Ok(HostedOwnerRepo(url, SshPrefix).value)
    else
      Err(ParseErrorText(url))
  }

  /** A text whose only slash sits between `a` and `b` holds no pattern with
      two slashes. */
  lemma OneSlashNoPattern(a: string, b: string, pat: string, x: nat, y: nat)
    requires '/' !in a && '/' !in b
    requires x < y < |pat| && pat[x] == '/' && pat[y] == '/'
    ensures !Contains(a + "/" + b, pat)
  {
    var s := a + "/" + b;
    forall k | 0 <= k < |s| && k != |a|
      ensures s[k] != '/'
    {
      if k < |a| {
        assert s[k] == a[k] && a[k] in a;
      } else {
        assert s[k] == b[k - |a| - 1] && b[k - |a| - 1] in b;
      }
    }
    forall i | 0 <= i && i + |pat| <= |s|
      ensures !OccursAt(s, pat, i)
    {
      assert s[i..i + |pat|][x] == s[i + x];
      assert s[i..i + |pat|][y] == s[i + y];
    }
  }

  /** `owner + "/" + repo` splits into exactly those two parts. */
  lemma SplitOwnerRepo(o: string, r: string)
    requires '/' !in o && '/' !in r
    ensures Split(o + "/" + r, '/') == [o, r]
  {
    SplitAfterPart(o, r, '/');
    SplitNoSeparator(r, '/');
  }

  /** `o/r` has no ".git" ending unless `r` has. */
  lemma NoGitEnding(o: string, r: string)
    requires '/' !in r && !EndsWith(r, GitSuffix)
    ensures !EndsWith(o + "/" + r, GitSuffix)
  {
    var s := o + "/" + r;
    var n := |s|;
    if n >= 4 {
      if |r| >= 4 {
        assert s[n - 4..] == r[|r| - 4..];
      } else {
        assert s[n - 4..][3 - |r|] == s[|o|] == '/';
        assert GitSuffix[3 - |r|] != '/';
      }
    }
  }

  /** The plain form: text with no "://" and no "@" that splits on `/` into
      exactly two parts parses to those parts. */
  lemma PlainFormParses(o: string, r: string)
    requires '/' !in o && '/' !in r && '@' !in o && '@' !in r
    ensures ParseRepositoryUrl(o + "/" + r) == Ok((o, r))
  {
    var s := o + "/" + r;
    assert s[|o|] == '/';
    OneSlashNoPattern(o, r, "://", 1, 2);
    SplitOwnerRepo(o, r);
  }

  /** The HTTPS form without and with the ".git" ending. */
  lemma HttpsFormParses(o: string, r: string)
    requires '/' !in o && '/' !in r && !EndsWith(r, GitSuffix)
    ensures ParseRepositoryUrl(HttpsPrefix + o + "/" + r) == Ok((o, r))
    ensures ParseRepositoryUrl(HttpsPrefix + o + "/" + r + GitSuffix) == Ok((o, r))
  {
    var u1 := HttpsPrefix + (o + "/" + r);
    assert u1 == HttpsPrefix + o + "/" + r;
    ContainsAt(u1, "://", 5);
    HttpsBareSplit(o, r);
    var u2 := HttpsPrefix + (o + "/" + r + GitSuffix);
    assert u2 == HttpsPrefix + o + "/" + r + GitSuffix;
    ContainsAt(u2, "://", 5);
    HttpsGitSplit(o, r);
  }

  /** The segment split behind the first half of `HttpsFormParses`. */
  lemma HttpsBareSplit(o: string, r: string)
    requires '/' !in o && '/' !in r && !EndsWith(r, GitSuffix)
    ensures HostedOwnerRepo(HttpsPrefix + (o + "/" + r), HttpsPrefix) == Some((o, r))
  {
    var path := o + "/" + r;
    OneSlashNoPattern(o, r, HttpsPrefix, 6, 7);
    SplitOwnerRepo(o, r);
    NoGitEnding(o, r);
    ReplaceLeading(HttpsPrefix, path);
  }

  /** The segment split behind the second half of `HttpsFormParses`. */
  lemma HttpsGitSplit(o: string, r: string)
    requires '/' !in o && '/' !in r
    ensures HostedOwnerRepo(HttpsPrefix + (o + "/" + r + GitSuffix), HttpsPrefix) == Some((o, r))
  {
    var path := o + "/" + r;
    SplitOwnerRepo(o, r);
    OneSlashNoPattern(o, r + GitSuffix, HttpsPrefix, 6, 7);
    assert path + GitSuffix == o + "/" + (r + GitSuffix);
    ReplaceLeading(HttpsPrefix, path + GitSuffix);
    assert DropGitSuffix(path + GitSuffix) == path;
  }

  /** Path segments after the repository name in an HTTPS URL are ignored. */
  lemma HttpsExtraSegmentsIgnored(o: string, r: string, rest: string)
    requires '/' !in o && '/' !in r && !Contains(o + "/" + r + "/" + rest, HttpsPrefix)
    ensures ParseRepositoryUrl(HttpsPrefix + o + "/" + r + "/" + rest) == Ok((o, r))
  {
    var url := HttpsPrefix + (o + "/" + r + "/" + rest);
    assert url == HttpsPrefix + o + "/" + r + "/" + rest;
    ContainsAt(url, "://", 5);
    HttpsExtraSegmentsSplit(o, r, rest);
  }

  /** The segment split behind `HttpsExtraSegmentsIgnored`. */
  lemma HttpsExtraSegmentsSplit(o: string, r: string, rest: string)
    requires '/' !in o && '/' !in r && !Contains(o + "/" + r + "/" + rest, HttpsPrefix)
    ensures HostedOwnerRepo(HttpsPrefix + (o + "/" + r + "/" + rest), HttpsPrefix) == Some((o, r))
  {
    var path := o + "/" + r + "/" + rest;
    ReplaceLeading(HttpsPrefix, path);
    var cut := |o| + 1 + |r|;
    DropGitSuffixKeepsSlash(path, cut);
    SplitStartsWithTwo(o, r, DropGitSuffix(path));
  }

  /** Dropping ".git" never reaches back past a slash. */
  lemma DropGitSuffixKeepsSlash(path: string, cut: nat)
    requires cut < |path| && path[cut] == '/'
    ensures |DropGitSuffix(path)| > cut && DropGitSuffix(path)[..cut + 1] == path[..cut + 1]
  {
    if |path| >= 4 && |path| - 4 <= cut {
      assert path[|path| - 4..][cut - (|path| - 4)] == path[cut];
      assert GitSuffix[cut - (|path| - 4)] != '/';
    }
  }

  /** A text that begins `o/r/` splits into `o`, `r` and then the rest. */
  lemma SplitStartsWithTwo(o: string, r: string, kept: string)
    requires '/' !in o && '/' !in r
    requires |kept| > |o| + 1 + |r| && kept[..|o| + 1 + |r| + 1] == o + "/" + r + "/"
    ensures |Split(kept, '/')| >= 2 && Split(kept, '/')[0] == o && Split(kept, '/')[1] == r
  {
    var cut := |o| + 1 + |r|;
    var tail := kept[cut + 1..];
    assert kept == kept[..cut + 1] + tail;
    assert kept == o + "/" + (r + "/" + tail);
    SplitAfterPart(o, r + "/" + tail, '/');
    SplitAfterPart(r, tail, '/');
  }

  /** The SSH form with the ".git" ending. */
  lemma SshFormParses(o: string, r: string)
    requires '/' !in o && '/' !in r && '@' !in o && '@' !in r
    ensures ParseRepositoryUrl(SshPrefix + o + "/" + r + GitSuffix) == Ok((o, r))
  {
    var path := o + "/" + r;
    var url := SshPrefix + (path + GitSuffix);
    assert url == SshPrefix + o + "/" + r + GitSuffix;
    assert url[3] == '@';
    assert !StartsWith(url, HttpsPrefix) by {
      assert url[0] != HttpsPrefix[0];
    }
    assert '@' !in path + GitSuffix;
    NotContainsByChar(path + GitSuffix, SshPrefix, 3);
    ReplaceLeading(SshPrefix, path + GitSuffix);
    assert DropGitSuffix(path + GitSuffix) == path;
    SplitOwnerRepo(o, r);
  }

  /** The SSH form without the ".git" ending. */
  lemma SshBareFormParses(o: string, r: string)
    requires '/' !in o && '/' !in r && '@' !in o && '@' !in r && !EndsWith(r, GitSuffix)
    ensures ParseRepositoryUrl(SshPrefix + o + "/" + r) == Ok((o, r))
  {
    var path := o + "/" + r;
    var url := SshPrefix + path;
    assert url == SshPrefix + o + "/" + r;
    assert url[3] == '@';
    assert !StartsWith(url, HttpsPrefix) by {
      assert url[0] != HttpsPrefix[0];
    }
    assert '@' !in path;
    NotContainsByChar(path, SshPrefix, 3);
    ReplaceLeading(SshPrefix, path);
    NoGitEnding(o, r);
    SplitOwnerRepo(o, r);
  }

  /** Path segments after the repository name in an SSH URL are ignored. */
  lemma SshExtraSegmentsIgnored(o: string, r: string, rest: string)
    requires '/' !in o && '/' !in r && '@' !in o && '@' !in r && '@' !in rest
    ensures ParseRepositoryUrl(SshPrefix + o + "/" + r + "/" + rest) == Ok((o, r))
  {
    var path := o + "/" + r + "/" + rest;
    var url := SshPrefix + path;
    assert url == SshPrefix + o + "/" + r + "/" + rest;
    assert url[3] == '@';
    assert !StartsWith(url, HttpsPrefix) by {
      assert url[0] != HttpsPrefix[0];
    }
    SshExtraSegmentsSplit(o, r, rest);
  }

  /** The segment split behind `SshExtraSegmentsIgnored`. */
  lemma SshExtraSegmentsSplit(o: string, r: string, rest: string)
    requires '/' !in o && '/' !in r && '@' !in o && '@' !in r && '@' !in rest
    ensures HostedOwnerRepo(SshPrefix + (o + "/" + r + "/" + rest), SshPrefix) == Some((o, r))
  {
    var path := o + "/" + r + "/" + rest;
    assert '@' !in path;
    NotContainsByChar(path, SshPrefix, 3);
    ReplaceLeading(SshPrefix, path);
    var cut := |o| + 1 + |r|;
    DropGitSuffixKeepsSlash(path, cut);
    SplitStartsWithTwo(o, r, DropGitSuffix(path));
  }

  /** Every supported spelling of one repository parses to the same pair. */
  lemma AllFormsAgree(o: string, r: string)
    requires '/' !in o && '/' !in r && '@' !in o && '@' !in r && !EndsWith(r, GitSuffix)
    ensures ParseRepositoryUrl(o + "/" + r) == Ok((o, r))
    ensures ParseRepositoryUrl(HttpsPrefix + o + "/" + r) == Ok((o, r))
    ensures ParseRepositoryUrl(HttpsPrefix + o + "/" + r + GitSuffix) == Ok((o, r))
    ensures ParseRepositoryUrl(SshPrefix + o + "/" + r) == Ok((o, r))
    ensures ParseRepositoryUrl(SshPrefix + o + "/" + r + GitSuffix) == Ok((o, r))
  {
    PlainFormParses(o, r);
    HttpsFormParses(o, r);
    SshBareFormParses(o, r);
    SshFormParses(o, r);
  }

  /** Text with no slash and no known prefix is rejected. */
  lemma NoSlashFails()
    ensures ParseRepositoryUrl("invalid-url").Err?
  {
    assert !StartsWith("invalid-url", HttpsPrefix) by { assert "invalid-url"[0] != HttpsPrefix[0]; }
    assert !StartsWith("invalid-url", SshPrefix) by { assert "invalid-url"[0] != SshPrefix[0]; }
  }

  /** A plain path with more than two segments is rejected. */
  lemma ThreeSegmentsFail()
    ensures ParseRepositoryUrl("a/b/c").Err?
  {
    assert !StartsWith("a/b/c", HttpsPrefix);
    assert !StartsWith("a/b/c", SshPrefix);
    SplitAfterPart("a", "b/c", '/');
    SplitAfterPart("b", "c", '/');
    assert "a/b/c" == "a" + "/" + "b/c";
    assert "b/c" == "b" + "/" + "c";
    SplitNoSeparator("c", '/');
  }

  // ---------------------------------------------------------------------
  // validate_repository_access
  // ---------------------------------------------------------------------

  /** What `gh api repos/<owner>/<repo>` produced: decoded repository data,
      a non-zero exit with its stderr text, output that is not JSON, or a
      timeout. */
  datatype RepoInfo = RepoInfo(owner: Option<string>, name: Option<string>,
                               fullName: Option<string>, isPrivate: bool,
                               cloneUrl: Option<string>, defaultBranch: string)

  datatype Lookup = Answered(info: RepoInfo) | Refused(stderr: string) | Garbled | TimedOut

  /** The `GitHubRepositoryError`s that repository validation raises. */
  datatype RepositoryError =
    | Unparsable(url: string)
    | NotFound(repo: string)
    | AccessDenied(repo: string)
    | AccessFailed(repo: string, detail: string)
    | InvalidResponse(repo: string)
    | Timeout(url: string)

  /** The text of each error, as the exception's message. */
  function Message(e: RepositoryError): string {
    match e
    case Unparsable(url) => ParseErrorText(url)
    case NotFound(repo) => "Repository not found: " + repo
    case AccessDenied(repo) => "Access denied to repository: " + repo
    case AccessFailed(repo, detail) => "Failed to access repository " + repo + ": " + detail
    case InvalidResponse(repo) => "Invalid response from GitHub API for " + repo
    case Timeout(url) => "Repository validation timed out for " + url
  }

  /** Classification of a failed lookup from its stderr. The stripped text is
      searched, which finds "404" and "403" exactly when the raw text has them;
      "404" is tested first. */
  function ClassifyRefusal(repo: string, stderr: string): (e: RepositoryError)
    ensures e.NotFound? <==> Contains(stderr, "404")
    ensures e.AccessDenied? <==> !Contains(stderr, "404") && Contains(stderr, "403")
    ensures e.AccessFailed? <==> !Contains(stderr, "404") && !Contains(stderr, "403")
    ensures e.NotFound? || e.AccessDenied? || e.AccessFailed?
    ensures e.AccessFailed? ==> e.detail == Strip(stderr)
    ensures e.NotFound? || e.AccessDenied? || e.AccessFailed? ==> e.repo == repo
  {
    StripKeepsContains(stderr, "404");
    StripKeepsContains(stderr, "403");
    var msg := Strip(stderr);
    if Contains(msg, "404") then NotFound(repo)
    else if Contains(msg, "403") then AccessDenied(repo)
    else AccessFailed(repo, msg)
  }

  /** `validate_repository_access`: parse, look the repository up, and turn
      every failure into a repository error. */
  function ValidateRepositoryAccess(url: string, lookup: string -> Lookup): (r: Result<RepoInfo, RepositoryError>)
    ensures ParseRepositoryUrl(url).Err? ==> r == Err(Unparsable(url))
    ensures r.Ok? ==> ParseRepositoryUrl(url).Ok?
    ensures r.Ok? <==> ParseRepositoryUrl(url).Ok? && lookup(RepoId(ParseRepositoryUrl(url).value)).Answered?
  {
    match ParseRepositoryUrl(url)
    case Err(_) => Err(Unparsable(url))
    case Ok(pair) =>
      var repo := RepoId(pair);
      match lookup(repo)
      case Answered(info) => Ok(info)
      case Refused(stderr) => Err(ClassifyRefusal(repo, stderr))
      case Garbled => Err(InvalidResponse(repo))
      case TimedOut => Err(Timeout(url))
  }

  /** `f"{owner}/{repo}"`. */
  function RepoId(pair: (string, string)): string {
    pair.0 + "/" + pair.1
  }

  // ---------------------------------------------------------------------
  // check_repository_has_claude_folder
  // ---------------------------------------------------------------------

  /** One entry of a repository listing, as `list_repository_contents` reports it. */
  datatype Entry = Entry(name: Option<string>, kind: Option<string>, size: int, path: Option<string>)

  datatype Listing = Listed(entries: seq<Entry>) | ListFailed(error: RepositoryError)

  predicate IsClaudeDir(e: Entry) {
    e.name == Some(".claude") && e.kind == Some("dir")
  }

  /** `any(...)` over the entries, from the first. */
  function AnyClaudeDir(entries: seq<Entry>): (b: bool)
    ensures b <==> exists i :: 0 <= i < |entries| && IsClaudeDir(entries[i])
  {
    if entries == [] then false
    else IsClaudeDir(entries[0]) || (assert forall i :: 0 < i < |entries| ==> entries[i] == entries[1..][i - 1];
                                     AnyClaudeDir(entries[1..]))
  }

  /** True exactly when the listing succeeded and has a directory named `.claude`. */
  function HasClaudeFolder(url: string, list: string -> Listing): (b: bool)
    ensures b <==> list(url).Listed? && exists i :: 0 <= i < |list(url).entries| && IsClaudeDir(list(url).entries[i])
    ensures list(url).ListFailed? ==> !b
  {
    match list(url)
    case Listed(entries) => AnyClaudeDir(entries)
    case ListFailed(_) => false
  }

  // ---------------------------------------------------------------------
  // validate_multiple_repositories
  // ---------------------------------------------------------------------

  datatype ValidRepository = ValidRepository(url: string, info: RepoInfo)

  datatype BatchReport = BatchReport(valid: seq<ValidRepository>, invalid: seq<string>, errors: map<string, string>)

  predicate IsValidUrl(url: string, lookup: string -> Lookup) {
    ValidateRepositoryAccess(url, lookup).Ok?
  }

  /** The accessible repositories among `urls`, in input order. */
  function ValidOf(urls: seq<string>, lookup: string -> Lookup): seq<ValidRepository> {
    if urls == [] then []
    else
      var u := urls[|urls| - 1];
      ValidOf(urls[..|urls| - 1], lookup)
      + match ValidateRepositoryAccess(u, lookup)
        case Ok(info) => [ValidRepository(u, info)]
        case Err(_) => []
  }

  /** The inaccessible ones, in input order. */
  function InvalidOf(urls: seq<string>, lookup: string -> Lookup): seq<string> {
    if urls == [] then []
    else
      var u := urls[|urls| - 1];
      InvalidOf(urls[..|urls| - 1], lookup) + if IsValidUrl(u, lookup) then [] else [u]
  }

  /** The error text of every inaccessible URL. */
  function ErrorsOf(urls: seq<string>, lookup: string -> Lookup): map<string, string> {
    map u | u in urls && !IsValidUrl(u, lookup) :: Message(ValidateRepositoryAccess(u, lookup).error)
  }

  /** Checks every URL in turn, appending it to the valid or the invalid list
      and recording the error text of the invalid ones. */
  method ValidateMultipleRepositories(urls: seq<string>, lookup: string -> Lookup) returns (r: BatchReport)
    ensures r.valid == ValidOf(urls, lookup)
    ensures r.invalid == InvalidOf(urls, lookup)
    ensures r.errors == ErrorsOf(urls, lookup)
  {
    r := BatchReport([], [], map[]);
    var i := 0;
    while i < |urls|
      invariant 0 <= i <= |urls|
      invariant r.valid == ValidOf(urls[..i], lookup)
      invariant r.invalid == InvalidOf(urls[..i], lookup)
      invariant r.errors == ErrorsOf(urls[..i], lookup)
    {
      var u := urls[i];
      BatchStep(urls, i, lookup);
      var outcome := ValidateRepositoryAccess(u, lookup);
      if outcome.Ok? {
        r := r.(valid := r.valid + [ValidRepository(u, outcome.value)]);
      } else {
        r := r.(invalid := r.invalid + [u], errors := r.errors[u := Message(outcome.error)]);
      }
      i := i + 1;
    }
    assert urls[..i] == urls;
  }

  /** What checking one more URL adds to each part of the report. */
  lemma BatchStep(urls: seq<string>, i: nat, lookup: string -> Lookup)
    requires i < |urls|
    ensures var u := urls[i];
            var outcome := ValidateRepositoryAccess(u, lookup);
            ValidOf(urls[..i + 1], lookup)
              == ValidOf(urls[..i], lookup) + (if outcome.Ok? then [ValidRepository(u, outcome.value)] else [])
            && InvalidOf(urls[..i + 1], lookup) == InvalidOf(urls[..i], lookup) + (if outcome.Ok? then [] else [u])
            && ErrorsOf(urls[..i + 1], lookup)
               == if outcome.Ok? then ErrorsOf(urls[..i], lookup) else ErrorsOf(urls[..i], lookup)[u := Message(outcome.error)]
  {
    assert urls[..i + 1][..i] == urls[..i];
    assert urls[..i + 1] == urls[..i] + [urls[i]];
  }

  /** The two lists share out the input: every URL lands in exactly one of
      them, so their lengths add up to the input's, and the error map has a
      key for exactly the invalid URLs. */
  lemma {:induction false} BatchPartition(urls: seq<string>, lookup: string -> Lookup)
    ensures |ValidOf(urls, lookup)| + |InvalidOf(urls, lookup)| == |urls|
    ensures forall u :: u in InvalidOf(urls, lookup) <==> u in urls && !IsValidUrl(u, lookup)
    ensures forall k :: 0 <= k < |ValidOf(urls, lookup)| ==>
              ValidOf(urls, lookup)[k].url in urls && IsValidUrl(ValidOf(urls, lookup)[k].url, lookup)
    ensures ErrorsOf(urls, lookup).Keys == set u | u in InvalidOf(urls, lookup)
  {
    if urls != [] {
      var init := urls[..|urls| - 1];
      BatchPartition(init, lookup);
      assert urls == init + [urls[|urls| - 1]];
    }
  }

  /** A URL that validates appears in the valid list. */
  lemma {:induction false} ValidUrlListed(urls: seq<string>, lookup: string -> Lookup, u: string)
    requires u in urls && IsValidUrl(u, lookup)
    ensures exists k :: 0 <= k < |ValidOf(urls, lookup)| && ValidOf(urls, lookup)[k].url == u
  {
    var init := urls[..|urls| - 1];
    assert urls == init + [urls[|urls| - 1]];
    if urls[|urls| - 1] == u {
      var k := |ValidOf(init, lookup)|;
      assert ValidOf(urls, lookup)[k].url == u;
    } else {
      ValidUrlListed(init, lookup, u);
      var k :| 0 <= k < |ValidOf(init, lookup)| && ValidOf(init, lookup)[k].url == u;
      assert ValidOf(urls, lookup)[k] == ValidOf(init, lookup)[k];
    }
  }
}
