/** The two flows built on `ask_commit`: `ask_init`, which plans a branch,
    a commit and a compare URL and asks for confirmation, and `ask_pr`,
    which names a pull request after a tracker branch. The tracker branch,
    the repository and the confirmation are parameters. */
module Planner {
  import opened Wrappers
  import opened Errors
  import opened Strings
  import opened Numbers
  import opened CommitBuilder

  /** The branch slug of a commit name: spaces become `-`, apostrophes
      are dropped, and the text is lower-cased. The slug holds no space
      and no apostrophe and is its own lower-casing. */
  function Slug(name: string): (r: string)
    ensures ' ' !in r && '\'' !in r
    ensures ToLower(r) == r
  {
    var dashed := Replace(name, ' ', "-");
    var x := Replace(dashed, '\'', "");
    ReplaceChars(name, ' ', "-");
    ReplaceChars(dashed, '\'', "");
    assert ' ' !in x && '\'' !in x;
    ToLowerChars(x);
    ToLowerIdempotent(x);
    ToLower(x)
  }

  /** Slugging a slug changes nothing. */
  lemma SlugIdempotent(name: string)
    ensures Slug(Slug(name)) == Slug(name)
  {
    var r := Slug(name);
    ReplaceChars(r, ' ', "-");
    ReplaceChars(r, '\'', "");
    assert Replace(r, ' ', "-") == r;
    assert Replace(Replace(r, ' ', "-"), '\'', "") == r;
  }

  lemma ToLowerAppend(a: string, b: string)
    ensures ToLower(a + b) == ToLower(a) + ToLower(b)
  {
  }

  /** The slug is computed character by character: the slug of a
      concatenation is the concatenation of the slugs. */
  lemma SlugAppend(a: string, b: string)
    ensures Slug(a + b) == Slug(a) + Slug(b)
  {
    ReplaceAppend(a, b, ' ', "-");
    ReplaceAppend(Replace(a, ' ', "-"), Replace(b, ' ', "-"), '\'', "");
    ToLowerAppend(Replace(Replace(a, ' ', "-"), '\'', ""), Replace(Replace(b, ' ', "-"), '\'', ""));
  }

  /** The slug of one character: a space becomes `-`, an apostrophe
      disappears, any other character is lower-cased. With `SlugAppend`
      and `SlugEmpty` this determines the slug of every name. */
  lemma SlugChar(c: char)
    ensures Slug([c]) == if c == ' ' then "-" else if c == '\'' then "" else [LowerChar(c)]
  {
  }

  lemma SlugEmpty()
    ensures Slug("") == ""
  {
  }

  /** A lower-case word without spaces or apostrophes is its own slug. */
  lemma SlugOfWord(w: string)
    requires ' ' !in w && '\'' !in w && ToLower(w) == w
    ensures Slug(w) == w
  {
    ReplaceChars(w, ' ', "-");
    ReplaceChars(w, '\'', "");
  }

  /** The branch `ask_init` creates: the commit type, `/`, the slug. */
  function BranchName(commitType: string, name: string): (r: string)
    ensures |r| == |commitType| + 1 + |Slug(name)|
    ensures r[..|commitType|] == commitType && r[|commitType|] == '/'
    ensures r[|commitType| + 1..] == Slug(name)
    ensures '/' !in commitType ==> Split(r, '/')[0] == commitType
  {
    var r := commitType + "/" + Slug(name);
    assert r == commitType + ['/'] + Slug(name);
    SplitAtFirstIfFree(commitType, Slug(name), '/');
    r
  }

  /** The GitHub page that compares the new branch with the default one. */
  function CompareUrl(repo: string, branch: string): (r: string)
    ensures |r| == |repo| + |branch| + 37
    ensures r[..19] == "https://github.com/" && r[19..19 + |repo|] == repo
    ensures r[19 + |repo|..] == "/compare/" + branch + "?expand=1"
  {
    "https://github.com/" + repo + "/compare/" + branch + "?expand=1"
  }

  /** What `ask_init` returns once confirmed. */
  datatype InitPlan = InitPlan(message: string, branch: string, compareUrl: string)

  /** `ask_init`: the prompts of `ask_commit`, then the repository lookup,
      then the confirmation. The first error is returned as it is; a
      refusal becomes `OperationCanceled`; only a confirmation yields the
      plan. */
  function AskInit(a: CommitAnswers, repo: Result<string, InquireError>, confirm: Result<bool, InquireError>)
    : (r: Result<InitPlan, InquireError>)
    ensures r.Ok? <==> AskCommit(a).Ok? && repo.Ok? && confirm == Ok(true)
    ensures AskCommit(a).Err? ==> r == Err(AskCommit(a).error)
    ensures AskCommit(a).Ok? && repo.Err? ==> r == Err(repo.error)
    ensures AskCommit(a).Ok? && repo.Ok? && confirm == Ok(false) ==> r == Err(OperationCanceled)
    ensures AskCommit(a).Ok? && repo.Ok? && confirm.Err? ==> r == Err(confirm.error)
    ensures r.Ok? ==> r.value.message == AskCommit(a).value.message
  {
    match AskCommit(a)
    case Err(e) => Err(e)
    case Ok(c) =>
      var branch := BranchName(c.commitType, c.name);
      match repo
      case Err(e) => Err(e)
      case Ok(rp) =>
        var url := CompareUrl(rp, branch);
        match confirm
        case Ok(true) => Ok(InitPlan(c.message, branch, url))
        case Ok(false) => Err(OperationCanceled)
        case Err(e) => Err(e)
  }

  /** The same, conditional on `sep` not occurring in `a`. */
  lemma SplitAtFirstIfFree(a: string, rest: string, sep: char)
    ensures sep !in a ==> Split(a + [sep] + rest, sep)[0] == a
  {
    if sep !in a {
      SplitAtFirst(a, rest, sep);
    }
  }

  lemma {:induction false} SplitAtFirst(a: string, rest: string, sep: char)
    requires sep !in a
    ensures Split(a + [sep] + rest, sep)[0] == a
  {
    SplitPrefix(a, rest, sep);
  }

  /** The confirmed branch is the chosen type, `/` and the slug of the
      trimmed name, so the part before its first `/` is the type; the
      compare URL is built around that same branch. */
  lemma InitPlanBranch(a: CommitAnswers, repo: Result<string, InquireError>, confirm: Result<bool, InquireError>)
    requires AskInit(a, repo, confirm).Ok?
    ensures var p := AskInit(a, repo, confirm).value;
            && p.branch == Keyword(a.kind.value) + "/" + Slug(Trim(a.name.value))
            && Split(p.branch, '/')[0] == Keyword(a.kind.value)
            && p.compareUrl == "https://github.com/" + repo.value + "/compare/" + p.branch + "?expand=1"
  {
    var k := a.kind.value;
    var p := AskInit(a, repo, confirm).value;
    var slug := Slug(Trim(a.name.value));
    assert p.branch == Keyword(k) + "/" + slug;
    assert '/' !in Keyword(k) by {
      KeywordIsLowercase(k);
    }
    assert Keyword(k) + "/" + slug == Keyword(k) + ['/'] + slug;
    SplitAtFirst(Keyword(k), slug, '/');
  }

  /** The confirmed commit message reads back with the type of the branch,
      the effective scope and the trimmed name, provided the trimmed scope
      holds no `): `. */
  lemma InitPlanMessage(a: CommitAnswers, repo: Result<string, InquireError>, confirm: Result<bool, InquireError>)
    requires AskInit(a, repo, confirm).Ok?
    requires a.scope.value.Some? ==>
               var s := Trim(a.scope.value.value); forall j: nat :: j <= |s| ==> !OccursAt(s, "): ", j)
    ensures ParseHeader(AskInit(a, repo, confirm).value.message)
         == Some(Header(Keyword(a.kind.value), EffectiveScope(a.scope.value), Trim(a.name.value)))
  {
    var c := AskCommit(a).value;
    assert c.message == CommitMessage(Keyword(a.kind.value), a.scope.value, Trim(a.name.value));
    KeywordsAreTheKinds(Keyword(a.kind.value));
    CommitMessageRoundTrip(Keyword(a.kind.value), a.scope.value, Trim(a.name.value));
  }

  /** A refused confirmation cancels `ask_init`, whatever was answered. */
  lemma RefusalCancels(a: CommitAnswers, repo: string)
    requires AskCommit(a).Ok?
    ensures AskInit(a, Ok(repo), Ok(false)) == Err(OperationCanceled)
    ensures AskInit(a, Ok(repo), Ok(true)).Ok?
  {
  }

  /** The tag appended to a pull request's name: the first segment
      upper-cased and the second as written, in brackets. */
  function Tag(prefix: string, number: string): (r: string)
    ensures |r| == |prefix| + |number| + 4
    ensures r[..2] == " [" && r[2..2 + |prefix|] == ToUpper(prefix) && r[2 + |prefix|] == '-'
    ensures r[3 + |prefix|..|r| - 1] == number && r[|r| - 1] == ']'
  {
    " [" + ToUpper(prefix) + "-" + number + "]"
  }

  /** The issue tag of a tracker branch: present when the branch splits
      on `-` into two or more segments and the second is a `u32`. */
  function IssueTag(linear: string): (r: Option<string>)
    ensures r.Some? ==> var segs := Split(linear, '-');
              |segs| > 1 && IsU32Literal(segs[1]) && r.value == Tag(segs[0], segs[1])
    ensures r.None? ==> var segs := Split(linear, '-');
              |segs| == 1 || !IsU32Literal(segs[1])
  {
    var segs := Split(linear, '-');
    if |segs| > 1 && ParseU32(segs[1]).Some? then Some(Tag(segs[0], segs[1])) else None
  }

  /** A branch without `-` carries no tag. */
  lemma {:induction false} IssueTagNoDash(linear: string)
    requires '-' !in linear
    ensures IssueTag(linear) == None
  {
    SplitNone(linear, '-');
  }

  /** `a-b`: tagged exactly when `b` is a `u32`. */
  lemma {:induction false} IssueTagTwo(a: string, b: string)
    requires '-' !in a && '-' !in b
    ensures IssueTag(a + "-" + b) == if IsU32Literal(b) then Some(Tag(a, b)) else None
  {
    SplitPrefix(a, b, '-');
    SplitNone(b, '-');
    assert Split(a + "-" + b, '-') == [a, b];
  }

  /** `a-b-rest`: tagged exactly when `b` is a `u32`, and the rest of the
      branch plays no part in the tag. */
  lemma {:induction false} IssueTagLonger(a: string, b: string, rest: string)
    requires '-' !in a && '-' !in b
    ensures IssueTag(a + "-" + b + "-" + rest) == if IsU32Literal(b) then Some(Tag(a, b)) else None
  {
    assert a + "-" + b + "-" + rest == a + ['-'] + (b + ['-'] + rest);
    SplitPrefix(a, b + ['-'] + rest, '-');
    SplitPrefix(b, rest, '-');
  }

  /** A pull request to open: its name and its branch. */
  datatype PrConfig = PrConfig(prName: string, branch: string)

  /** `ask_pr`: the tracker branch prompt, then `ask_commit`. The first
      error is returned as it is. The pull request is named after the
      commit message, with the issue tag appended when the tracker branch
      has one, and its branch is the type, `/` and the tracker branch as
      written. */
  method AskPr(linear: Result<string, InquireError>, a: CommitAnswers) returns (r: Result<PrConfig, InquireError>)
    ensures r.Ok? <==> linear.Ok? && AskCommit(a).Ok?
    ensures linear.Err? ==> r == Err(linear.error)
    ensures linear.Ok? && AskCommit(a).Err? ==> r == Err(AskCommit(a).error)
    ensures r.Ok? ==> r.value.branch == Keyword(a.kind.value) + "/" + linear.value
    ensures r.Ok? && IssueTag(linear.value).None? ==> r.value.prName == AskCommit(a).value.message
    ensures r.Ok? && IssueTag(linear.value).Some? ==>
              r.value.prName == AskCommit(a).value.message + IssueTag(linear.value).value
  {
    if linear.Err? {
      return Err(linear.error);
    }
    var linearBranch := linear.value;
    var commit := AskCommit(a);
    if commit.Err? {
      return Err(commit.error);
    }
    var prName := commit.value.message;
    var segs := Split(linearBranch, '-');
    if |segs| > 1 && ParseU32(segs[1]).Some? {
      prName := prName + Tag(segs[0], segs[1]);
    }
    var branch := commit.value.commitType + "/" + linearBranch;
    return Ok(PrConfig(prName, branch));
  }

  /** `confirm_pr`: shows the plan and returns the confirmation answer as
      it is; unlike `ask_init`, a refusal is `Ok(false)`, not an error. */
  function ConfirmPr(config: PrConfig, answer: Result<bool, InquireError>): (r: Result<bool, InquireError>)
    ensures r == answer
  {
    answer
  }

  // The examples below run the planner on concrete answers. Each
  // identity of fixed texts they need (marked "stepping stone") is its own
  // lemma, so that no example has the verifier unfold literal text
  // inside the recursive string functions.

  lemma ExampleWordsAreSlugs(w: string)
    requires w == "handle" || w == "expired" || w == "tokens"
    ensures Slug(w) == w
  {
    SlugOfWord(w);
  }

  lemma ExampleSpaceSlug()
    ensures Slug(" ") == "-"
  {
  }

  // Stepping stone: an identity of fixed texts, stated on its own.
  lemma ExampleNameWords()
    ensures "handle expired tokens" == "handle" + (" " + ("expired" + (" " + "tokens")))
    ensures "handle" + ("-" + ("expired" + ("-" + "tokens"))) == "handle-expired-tokens"
  {
  }

  /** "handle expired tokens" slugs to "handle-expired-tokens". */
  lemma ExampleSlug()
    ensures Slug("handle expired tokens") == "handle-expired-tokens"
  {
    ExampleNameWords();
    SlugAppend("handle", " " + ("expired" + (" " + "tokens")));
    SlugAppend(" ", "expired" + (" " + "tokens"));
    SlugAppend("expired", " " + "tokens");
    SlugAppend(" ", "tokens");
    ExampleWordsAreSlugs("handle");
    ExampleWordsAreSlugs("expired");
    ExampleWordsAreSlugs("tokens");
    ExampleSpaceSlug();
  }

  lemma ExampleTagParts()
    ensures "web-482-login-fix" == "web" + "-" + "482" + "-" + "login-fix"
    ensures IsU32Literal("482")
    ensures Tag("web", "482") == " [WEB-482]"
  {
  }

  /** "web-482-login-fix" is tagged `[WEB-482]`. */
  lemma ExampleIssueTag()
    ensures IssueTag("web-482-login-fix") == Some(" [WEB-482]")
  {
    ExampleTagParts();
    IssueTagLonger("web", "482", "login-fix");
  }

  /** "proj" and "proj-abc" are not tagged. */
  lemma ExampleNoIssueTag()
    ensures IssueTag("proj") == None
    ensures IssueTag("proj-abc") == None
  {
    IssueTagNoDash("proj");
    assert !IsU32Literal("abc") by {
      assert ParseU32("abc") == None;
    }
    IssueTagTwo("proj", "abc");
  }

  lemma ExampleLoginIsTrimmed()
    ensures Trim("add login") == "add login"
  {
    TrimUnchanged("add login");
  }

  // Stepping stone: an identity of fixed texts, stated on its own.
  lemma ExamplePrTexts()
    ensures "feat" + ": " + "add login" == "feat: add login"
  {
  }

  // Stepping stone: an identity of fixed texts, stated on its own.
  lemma ExampleTaggedText()
    ensures "feat: add login" + " [WEB-482]" == "feat: add login [WEB-482]"
  {
  }

  /** feat / no scope / "add login" gives "feat: add login". */
  lemma ExampleAddLogin()
    ensures AskCommit(CommitAnswers(Ok(Feat), Ok(None), Ok("add login"))) == Ok(Commit("feat: add login", "feat", "add login"))
  {
    ExampleLoginIsTrimmed();
    AskCommitPlain(Feat, "add login");
    ExamplePrTexts();
  }

  /** On tracker branch "web-482-login-fix" the commit "feat: add login"
      names the pull request "feat: add login [WEB-482]" on branch
      "feat/web-482-login-fix", which is what `AskPr` returns for these
      answers. */
  lemma ExamplePr()
    ensures IssueTag("web-482-login-fix").Some?
    ensures "feat: add login" + IssueTag("web-482-login-fix").value == "feat: add login [WEB-482]"
  {
    ExampleIssueTag();
    ExampleTaggedText();
  }

  /** The pull request branch keeps the tracker branch as written. */
  lemma ExamplePrBranch()
    ensures Keyword(Feat) + "/" + "web-482-login-fix" == "feat/web-482-login-fix"
  {
  }

  /** `AskPr` on tracker branch "web-482-login-fix" with feat / no scope /
      "add login" returns the pull request "feat: add login [WEB-482]" on
      branch "feat/web-482-login-fix". */
  method ExampleAskPr() returns (r: Result<PrConfig, InquireError>)
    ensures r == Ok(PrConfig("feat: add login [WEB-482]", "feat/web-482-login-fix"))
  {
    ExampleAddLogin();
    ExamplePr();
    ExamplePrBranch();
    r := AskPr(Ok("web-482-login-fix"), CommitAnswers(Ok(Feat), Ok(None), Ok("add login")));
  }

  // Stepping stone: an identity of fixed texts, stated on its own.
  lemma ExampleInitTexts(repo: string)
    ensures "fix" + "/" + "handle-expired-tokens" == "fix/handle-expired-tokens"
    ensures "https://github.com/" + repo + "/compare/" + "fix/handle-expired-tokens" + "?expand=1"
         == "https://github.com/" + repo + "/compare/fix/handle-expired-tokens?expand=1"
  {
  }

  /** `ask_init` with fix / auth / "handle expired tokens", confirmed:
      branch "fix/handle-expired-tokens" and its compare URL. */
  lemma ExampleInit(repo: string)
    ensures AskInit(CommitAnswers(Ok(Fix), Ok(Some("auth")), Ok("handle expired tokens")), Ok(repo), Ok(true))
         == Ok(InitPlan("fix(auth): handle expired tokens", "fix/handle-expired-tokens",
                        "https://github.com/" + repo + "/compare/fix/handle-expired-tokens?expand=1"))
  {
    var a := CommitAnswers(Ok(Fix), Ok(Some("auth")), Ok("handle expired tokens"));
    ExampleFixAuth();
    SubjectIsTrimmed();
    ExampleSlug();
    ExampleInitTexts(repo);
    var p := AskInit(a, Ok(repo), Ok(true));
    assert p.Ok? && p.value.message == "fix(auth): handle expired tokens" by {}
    InitPlanBranch(a, Ok(repo), Ok(true));
    assert p.value.branch == "fix/handle-expired-tokens" by {}
  }
}
