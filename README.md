# ghl configuration core, modelled in Dafny

`ghl` is a command-line helper for a Git/GitHub workflow. Its
`src/config.rs` does two jobs:

- It derives names. `ask_commit` builds a conventional-commit message
  (`type(scope): name`). `ask_init` builds a branch slug, a `type/slug`
  branch and a GitHub compare URL. `ask_pr` builds a pull-request name,
  tagged with an issue key of the form `[WEB-482]` when the tracker branch
  carries one.
- It keeps two preferences, a GitHub token and a default pull-request
  description, as files under `~/.ghl`.

The model replaces every prompt by a parameter. Each answer is a
`Result`: what the user entered, or the prompt's `InquireError`. The
type menu answer is the chosen `CommitKind`. The repository name and the
confirmation are parameters too. The filesystem is a `Disk`: a flag for
the directory and an optional text for each of the two files. A file
operation that fails is named by a `fault` parameter. A disk is
`Consistent` when no file exists outside an existing directory, and both
setters keep it so.

Modules:

- `Wrappers`: `Option` and `Result`.
- `Errors`: the error kinds the source propagates.
- `Strings`: the Rust `str` operations used, over `seq<char>`:
  - `trim`, with Unicode White_Space
  - `replace` and `split`
  - a substring search (`Find`, with `OccursAt` and `OccursShift`). The configuration module never calls `find`: the search serves only the model's own commit-header reader, `ParseHeader`
  - ASCII case mapping
  - the first word of `split_whitespace`
- `Numbers`: `u32::from_str` (`ParseU32`).
- `CommitBuilder`: `ask_commit` and the validator. It also has a reader
  for headers (`ParseHeader`), so that the message format can be shown to
  read back unambiguously.
- `Planner`: `ask_init`, `ask_pr` and `confirm_pr`. `ask_pr` is a
  method, because the source reassigns `pr_name`.
- `Preferences`: `get_paths`, and the two setters as specification
  functions. The class `Store` has the same setters as step-by-step
  methods, each proved equal to its specification function, and the two
  getters.

## Model

| member | source | states |
|---|---|---|
| Strings.Trim | src/config.rs:119 | the result is empty exactly when the text is all Unicode whitespace; otherwise it neither starts nor ends with whitespace |
| Strings.TrimStart | src/config.rs:119 | only leading whitespace is dropped; the result is a suffix that does not start with whitespace |
| Strings.TrimEnd | src/config.rs:119 | only trailing whitespace is dropped; the result is a prefix that does not end with whitespace |
| Strings.TrimIsInfix | src/config.rs:119 | the trimmed text is the infix of the text that starts right after its leading whitespace |
| Strings.TrimDropsWhitespace | src/config.rs:119 | what trimming removes, before and after the kept infix, is all whitespace |
| Strings.TrimIdempotent | src/config.rs:119 | trimming twice is trimming once |
| Strings.TrimUnchanged | src/config.rs:126 | text whose first and last characters are not whitespace is its own trim |
| Strings.Replace | src/config.rs:138 | the empty text stays empty; a one-character text becomes the replacement when it is the pattern and stays otherwise |
| Strings.ReplaceChars | src/config.rs:138 | every result character comes from the replacement or is a non-pattern character of the text; a text without the pattern is unchanged |
| Strings.ReplaceAppend | src/config.rs:138 | replacing in a concatenation concatenates the replaced pieces, so with the one-character clauses the result is fixed on every text |
| Strings.ToLower | src/config.rs:138 | same length, each character lower-cased (ASCII) |
| Strings.ToUpper | src/config.rs:173 | same length, each character upper-cased (ASCII) |
| Strings.ToLowerChars | src/config.rs:138 | lower-cased text has no upper-case ASCII letter and introduces no other character |
| Strings.ToLowerIdempotent | src/config.rs:138 | lower-casing twice is lower-casing once |
| Strings.Split | src/config.rs:168 | at least one piece, no piece holds the separator, joining the pieces with it gives the text back |
| Strings.SplitJoin | src/config.rs:168 | splitting undoes joining separator-free pieces |
| Strings.SplitPrefix | src/config.rs:168 | a separator-free prefix followed by the separator is the first piece |
| Strings.SplitNone | src/config.rs:168 | text without the separator is one piece |
| Strings.FirstWord | src/config.rs:111 | the first item of `split_whitespace`: after the leading whitespace, the longest prefix without whitespace; empty exactly when the text is all whitespace |
| Strings.FirstWordIs | src/config.rs:111 | a word followed by whitespace is the first word |
| Numbers.Accumulate | src/config.rs:169 | the checked digit loop succeeds exactly when all characters are digits and the value stays within `u32::MAX`, and then yields that value |
| Numbers.ParseU32 | src/config.rs:169 | `u32::from_str`: succeeds exactly on an optional `+` followed by one or more digits of value at most 4294967295 |
| Numbers.DecimalValue | src/config.rs:169 | the digits printed denote the number |
| Numbers.ParseDecimal | src/config.rs:169 | every `u32`, printed with or without `+`, parses back to itself |
| Numbers.ParseU32Rejects | src/config.rs:169 | 4294967296, "", "+", "-1" and "abc" do not parse |
| CommitBuilder.Label | src/config.rs:96-106 | each menu line is its keyword, padded with spaces to twelve columns, then its description; `LabelStartsWithKeyword` proves that the keyword is the line's first word |
| CommitBuilder.Description | src/config.rs:96-106 | the eleven description texts of the menu, as written; `Label` places each one from column twelve on |
| CommitBuilder.Keyword | src/config.rs:96-108 | every keyword is non-empty and shorter than the twelve-column pad |
| CommitBuilder.KeywordIsLowercase | src/config.rs:96-108 | every keyword is lower-case ASCII letters |
| CommitBuilder.LabelStartsWithKeyword | src/config.rs:96-111 | the first word of each menu line is its keyword |
| CommitBuilder.TypeOf | src/config.rs:110-112 | the type kept from the chosen menu line is that kind's keyword |
| CommitBuilder.KeywordsAreTheKinds | src/config.rs:96-111 | the eleven keywords are exactly the types the menu produces |
| CommitBuilder.NotEmptyValidator | src/config.rs:208-213 | refuses exactly the empty text, with "You must enter a value." |
| CommitBuilder.BlankNamePasses | src/config.rs:116-119 | a blank name passes the validator and trims to "" |
| CommitBuilder.CommitMessage | src/config.rs:121-130 | absent or empty scope gives `type: name`, any other `type(trim(scope)): name` |
| CommitBuilder.CommitMessageIsRender | src/config.rs:121-130 | the message is the rendering of the header whose scope is the effective scope |
| CommitBuilder.ParseRender | src/config.rs:121-130 | a header whose type has no `(`/`:` and whose scope has no `): ` reads back as itself |
| CommitBuilder.RenderParse | src/config.rs:121-130 | whatever reads back as a header is that header's rendering |
| CommitBuilder.CommitMessageRoundTrip | src/config.rs:119-130 | a commit message reads back as its keyword, its effective scope and its name |
| CommitBuilder.AskCommit | src/config.rs:95-133 | the first prompt error comes back unchanged; otherwise the type is the keyword, the name is trimmed and the message is built from both and the scope |
| CommitBuilder.AskCommitTypeIsKeyword | src/config.rs:110-112 | the returned type is one of the eleven keywords |
| CommitBuilder.BlankScope | src/config.rs:123-126 | a whitespace-only scope gives `type(): name` |
| CommitBuilder.AskCommitScoped | src/config.rs:119-130 | answers that need no trimming go into `type(scope): name` as written |
| CommitBuilder.AskCommitPlain | src/config.rs:119-130 | with no scope, a name that needs no trimming goes into `type: name` as written |
| CommitBuilder.ExampleFixAuth | src/config.rs:119-130 | fix / auth / "handle expired tokens" gives "fix(auth): handle expired tokens" |
| Planner.Slug | src/config.rs:138 | the slug holds no space and no apostrophe and is its own lower-casing |
| Planner.SlugIdempotent | src/config.rs:138 | slugging twice is slugging once |
| Planner.SlugAppend | src/config.rs:138 | the slug of a concatenation is the concatenation of the slugs |
| Planner.SlugChar | src/config.rs:138 | the slug of one character: a space becomes `-`, an apostrophe disappears, any other character is lower-cased |
| Planner.SlugEmpty | src/config.rs:138 | the empty name has the empty slug; with `SlugChar` and `SlugAppend` this fixes the slug of every name |
| Planner.SlugOfWord | src/config.rs:138 | a lower-case word without spaces or apostrophes is its own slug |
| Planner.ExampleSlug | src/config.rs:138 | "handle expired tokens" slugs to "handle-expired-tokens" |
| Planner.BranchName | src/config.rs:138-139 | the `{type}/{slug}` format: the type, then `/`, then the slug; a type without `/` is read back as the first `/`-piece; `InitPlanBranch` ties it to `ask_init` |
| Planner.CompareUrl | src/config.rs:142 | the URL is `https://github.com/`, the repository, `/compare/`, the branch, then `?expand=1`; `InitPlanBranch` ties it to `ask_init` |
| Planner.AskInit | src/config.rs:135-159 | `ask_commit`'s error, then the repository's, then the confirmation's come back unchanged; a refusal is `OperationCanceled`; only a confirmation yields the plan, carrying the commit message |
| Planner.InitPlanBranch | src/config.rs:138-142 | the branch is keyword `/` slug of the trimmed name, its first `/`-piece is the keyword, and the URL is built around it |
| Planner.InitPlanMessage | src/config.rs:136-155 | the planned message reads back with the branch's type, the effective scope and the trimmed name |
| Planner.RefusalCancels | src/config.rs:153-158 | with everything answered, `false` cancels and `true` confirms |
| Planner.Tag | src/config.rs:170-175 | the ` [{}-{}]` format: ` [`, the upper-cased first segment, `-`, the second segment as written, `]`; `IssueTag` states when it is appended |
| Planner.IssueTag | src/config.rs:168-176 | a tag exists only when the `-`-split has two or more pieces and the second is a `u32`, and then it is ` [FIRST-second]` |
| Planner.IssueTagNoDash | src/config.rs:168-176 | a branch without `-` has no tag |
| Planner.IssueTagTwo | src/config.rs:168-176 | `a-b` is tagged exactly when `b` is a `u32` |
| Planner.IssueTagLonger | src/config.rs:168-176 | `a-b-rest` is tagged exactly when `b` is a `u32`; the rest plays no part |
| Planner.ExampleIssueTag | src/config.rs:168-176 | "web-482-login-fix" is tagged " [WEB-482]" |
| Planner.ExampleNoIssueTag | src/config.rs:168-176 | "proj" and "proj-abc" are not tagged |
| Planner.AskPr | src/config.rs:161-181 | the tracker branch's error, then `ask_commit`'s, come back unchanged; the name is the message, plus the tag when there is one; the branch is keyword `/` tracker branch as written |
| Planner.ExampleAddLogin | src/config.rs:121-130 | feat / no scope / "add login" gives "feat: add login" |
| Planner.ExamplePr | src/config.rs:168-176 | "feat: add login" on "web-482-login-fix" becomes "feat: add login [WEB-482]" |
| Planner.ExamplePrBranch | src/config.rs:178 | the branch text `ExampleAskPr` relies on: keyword "feat", `/` and the tracker branch as written give "feat/web-482-login-fix" |
| Planner.ExampleAskPr | src/config.rs:161-181 | `AskPr` on "web-482-login-fix" with feat / no scope / "add login" returns "feat: add login [WEB-482]" on "feat/web-482-login-fix" |
| Planner.ExampleInit | src/config.rs:135-159 | confirmed fix / auth / "handle expired tokens" plans "fix(auth): handle expired tokens" on branch "fix/handle-expired-tokens", with the compare URL for that branch |
| Planner.ConfirmPr | src/config.rs:183-196 | the confirmation answer comes back as it is, a refusal included |
| Preferences.GetPaths | src/config.rs:198-205 | the token file is `home/.ghl/token` and the description file `home/.ghl/desc.md` |
| Preferences.PathsAreDistinct | src/config.rs:198-205 | both files lie directly inside the directory and are different files |
| Preferences.ReadFile | src/config.rs:44-48 | a read gives the file's text, or `NotFound` when the file does not exist |
| Preferences.Persist | src/config.rs:33-39 | the write sequence succeeds exactly when no operation it attempts fails, then holds the new text; a failure returns that operation's error and leaves the old text or a fresh empty file |
| Preferences.SetToken | src/config.rs:18-42 | prompt error unchanged; skipped or empty answer is a no-op returning `false`; success stores the trimmed answer; when creating the directory, creating the file or writing fails, that operation's I/O error is returned and the slot keeps its old text or an empty file; the description is never touched; an existing directory is never lost |
| Preferences.CurrentDesc | src/config.rs:51 | `get_default_desc().unwrap_or_default()`: the saved description, or "" when there is none |
| Preferences.SetDesc | src/config.rs:50-87 | prompt error unchanged; skipped, empty or unchanged answer is a no-op returning `false`; success stores the answer as written; when a new answer's directory creation, file creation or write fails, that operation's I/O error is returned; any error leaves the slot with its old text or an empty file; the token is never touched; an existing directory is never lost |
| Preferences.TokenReadsBack | src/config.rs:18-48 | after a successful set, the getter returns the trimmed answer |
| Preferences.TokenWritten | src/config.rs:20-39 | without failure any non-empty answer is stored trimmed; a whitespace-only one is stored as "" |
| Preferences.TokenLastWriteWins | src/config.rs:18-48 | the last token written is the one read back |
| Preferences.DescSetTwice | src/config.rs:50-93 | the same new text set twice returns `true` then `false`, and the slot holds it |
| Preferences.DescFromNothing | src/config.rs:51-86 | with no description saved, any non-empty answer is new and is stored |
| Preferences.NothingSaved | src/config.rs:44-93 | before anything is saved both getters fail with `NotFound` |
| Preferences.SettersKeepConsistent | src/config.rs:33-39 | neither setter leaves a file outside an existing directory, since the directory is created before the file |
| Preferences.FailedTokenWrite | src/config.rs:33-39 | whenever one of the token write's operations fails, the setter returns that operation's error and leaves the old token or an empty file |
| Preferences.FailedDescWrite | src/config.rs:72-84 | whenever one of a new description's write operations fails, the setter returns that operation's error and leaves the old description or an empty file |
| Preferences.Store.constructor | src/config.rs:198-205 | a store starting from a given disk |
| Preferences.Store.GetGithubToken | src/config.rs:44-48 | the token file's text when it exists, `NotFound` otherwise |
| Preferences.Store.GetDefaultDesc | src/config.rs:89-93 | the description file's text when it exists, `NotFound` otherwise |
| Preferences.Store.SetGithubToken | src/config.rs:18-42 | the new disk and the result are those of `SetToken` on the old disk; a consistent disk stays consistent |
| Preferences.Store.SetDefaultDesc | src/config.rs:50-87 | the new disk and the result are those of `SetDesc` on the old disk; a consistent disk stays consistent |

## Left out

- Prompts (`Select`, `Text`, `Editor` with vim, `Confirm`) are interactive. Each answer is a parameter, so a prompt is assumed to return at most once with a value or an error.
- The validator's re-prompt loop is left out. An answer is taken as given, so the model does not assume the name or the tracker branch is non-empty.
- `println!` and `colored` output (src/config.rs:144-152, 184-194) is terminal rendering only.
- `home::home_dir` and its two unwraps (src/config.rs:199-200) are a foreign call. The home directory is a parameter, and the panics when it is missing or not UTF-8 are not modelled.
- `git::get_current_repo` (src/config.rs:141) is not part of this model. Its outcome is the `repo` parameter.
- Real I/O error causes are not modelled. A failed `create_dir`, `File::create` or `write` is named by the `fault` parameter and carries no further cause.
- A check of `read_dir` or `read` also fails on an unreadable existing path. The model treats those checks as failing only when the path is missing.
- `read_to_string` on a file that is not UTF-8 fails in Rust. The model reads every existing file successfully.
- Preferences.Persist: a failing `fs::write` is modelled as failing before it truncates the file. Rust may fail after truncation, and the file would then be empty.
- Strings.ToLower, Strings.ToUpper: only ASCII letters are mapped. Rust's `to_lowercase`/`to_uppercase` follow full Unicode case mapping.
- Numbers.ParseU32: the model returns only success and value. The source only asks `is_ok()`, so the kind of error is not modelled.
- The Select menu's list mechanics (paging, filtering) are left out. The answer is the chosen `CommitKind`, and its line text is kept so the type can be derived from it.
- The code differs from a "trimmed, non-empty" reading of its documented behaviour. The model follows the code:
  - Token emptiness is checked before trimming (src/config.rs:22, 29), so a whitespace-only token is stored as "".
  - An existing empty token or description file reads as "". When `File::create` succeeds and the write after it fails (src/config.rs:37-39, 81-84), the next read returns `Ok("")`, not NotFound.
  - A whitespace-only scope gives `type(): name`.
