/** The commit descriptor builder: the type menu, the scope and name
    prompts, the name validator and the conventional-commit message. The
    prompts are parameters: each answer is either the text the user gave or
    the prompt's error. */
module CommitBuilder {
  import opened Wrappers
  import opened Errors
  import opened Strings

  /** The eleven entries of the type menu, in menu order. */
  datatype CommitKind =
    Feat | Fix | Docs | Style | Refactor | Perf | Test | Build | Ci | Chore | Revert

  /** The menu line shown for each kind: its keyword, padded with spaces
      to twelve columns, then a short description. */
  function Label(k: CommitKind): (r: string)
    ensures |r| == 12 + |Description(k)|
    ensures r[..|Keyword(k)|] == Keyword(k)
    ensures forall i :: |Keyword(k)| <= i < 12 ==> r[i] == ' '
    ensures r[12..] == Description(k)
  {
    var w := Keyword(k);
    var pad := Spaces(12 - |w|);
    LabelSplits(w, pad, Description(k));
    w + (pad + Description(k))
  }

  function Description(k: CommitKind): (r: string)
  {
    match k
    case Feat => "A new feature"
    case Fix => "A bug fix"
    case Docs => "Documentation only changes"
    case Style => "Changes that do not affect the meaning of the code"
    case Refactor => "A code change that neither fixes a bug nor adds a feature"
    case Perf => "A code change that improves performance"
    case Test => "Adding missing tests or correcting existing tests"
    case Build => "Changes that affect the build system or external dependencies"
    case Ci => "Changes to our CI configuration files and scripts"
    case Chore => "Other changes that don't modify src or test files"
    case Revert => "Reverts a previous commit"
  }

  /** The conventional-commit keyword of each kind. */
  function Keyword(k: CommitKind): (w: string)
    ensures 0 < |w| < 12
  {
    match k
    case Feat => "feat"
    case Fix => "fix"
    case Docs => "docs"
    case Style => "style"
    case Refactor => "refactor"
    case Perf => "perf"
    case Test => "test"
    case Build => "build"
    case Ci => "ci"
    case Chore => "chore"
    case Revert => "revert"
  }

  lemma KeywordIsLowercase(k: CommitKind)
    ensures forall i :: 0 <= i < |Keyword(k)| ==> 'a' <= Keyword(k)[i] <= 'z'
  {
  }

  const Keywords: set<string> :=
    {"feat", "fix", "docs", "style", "refactor", "perf", "test", "build", "ci", "chore", "revert"}

  /** The type kept from the chosen menu line is its first whitespace
      separated word, which is always that kind's keyword. */
  function TypeOf(k: CommitKind): (t: string)
    ensures t == Keyword(k)
  {
    LabelStartsWithKeyword(k);
    FirstWord(Label(k))
  }

  lemma LabelStartsWithKeyword(k: CommitKind)
    ensures FirstWord(Label(k)) == Keyword(k)
  {
    var w := Keyword(k);
    var pad := Spaces(12 - |w|);
    KeywordIsLowercase(k);
    LabelSplits(w, pad, Description(k));
    FirstWordIs(w, pad + Description(k));
  }

  // Stepping stone: regrouping a menu line as the keyword followed by
  // everything after it, proved on arbitrary texts so that the literal
  // menu lines are never unfolded.
  lemma LabelSplits(w: string, pad: string, d: string)
    ensures w + pad + d == w + (pad + d)
  {
  }

  /** The keywords are exactly the types the menu can produce. */
  lemma KeywordsAreTheKinds(t: string)
    ensures t in Keywords <==> exists k :: Keyword(k) == t
  {
    if t in Keywords {
      if t == "feat" { assert Keyword(Feat) == t; }
      else if t == "fix" { assert Keyword(Fix) == t; }
      else if t == "docs" { assert Keyword(Docs) == t; }
      else if t == "style" { assert Keyword(Style) == t; }
      else if t == "refactor" { assert Keyword(Refactor) == t; }
      else if t == "perf" { assert Keyword(Perf) == t; }
      else if t == "test" { assert Keyword(Test) == t; }
      else if t == "build" { assert Keyword(Build) == t; }
      else if t == "ci" { assert Keyword(Ci) == t; }
      else if t == "chore" { assert Keyword(Chore) == t; }
      else { assert Keyword(Revert) == t; }
    }
  }

  /** The outcome of a prompt validator. */
  datatype Validation = Valid | Invalid(message: string)

  /** The validator of the required prompts: it refuses the empty answer
      and nothing else (in particular not an all-whitespace one). */
  function NotEmptyValidator(value: string): (v: Validation)
    ensures v.Valid? <==> value != ""
    ensures v.Invalid? ==> v.message == "You must enter a value."
  {
    if value == "" then Invalid("You must enter a value.") else Valid
  }

  /** A name the validator lets through may still trim to nothing. */
  lemma BlankNamePasses()
    ensures NotEmptyValidator(" ").Valid? && Trim(" ") == ""
  {
  }

  /** The commit message built from the type, the optional scope and the
      (already trimmed) name: an absent or empty scope gives `type: name`,
      any other scope `type(trimmed scope): name`. */
  function CommitMessage(commitType: string, scope: Option<string>, name: string): (m: string)
    ensures scope.None? || scope == Some("") ==> m == commitType + ": " + name
    ensures scope.Some? && scope.value != "" ==>
              m == commitType + "(" + Trim(scope.value) + "): " + name
  {
    match scope
    case Some(s) =>
      if s == "" then commitType + ": " + name
      else commitType + "(" + Trim(s) + "): " + name
    case None => commitType + ": " + name
  }

  /** A conventional-commit header as a downstream reader sees it. */
  datatype Header = Header(commitType: string, scope: Option<string>, subject: string)

  /** The header's text: `type: subject` or `type(scope): subject`. */
  function Render(h: Header): string
  {
    match h.scope
    case None => h.commitType + ": " + h.subject
    case Some(s) => h.commitType + "(" + s + "): " + h.subject
  }

  /** The scope that ends up in the message: none for an absent or empty
      answer, the trimmed answer otherwise. */
  function EffectiveScope(scope: Option<string>): Option<string>
  {
    match scope
    case Some(s) => if s == "" then None else Some(Trim(s))
    case None => None
  }

  /** The message is the rendering of the header with the effective scope. */
  lemma CommitMessageIsRender(commitType: string, scope: Option<string>, name: string)
    ensures CommitMessage(commitType, scope, name)
         == Render(Header(commitType, EffectiveScope(scope), name))
  {
  }

  /** A type word holds neither `(` nor `:`. */
  predicate IsTypeWord(t: string)
  {
    forall i :: 0 <= i < |t| ==> t[i] != '(' && t[i] != ':'
  }

  lemma KeywordsAreTypeWords(t: string)
    requires t in Keywords
    ensures IsTypeWord(t)
  {
  }

  /** Length of the leading run without `(` or `:`. */
  function TypeLength(m: string): (n: nat)
    ensures n <= |m| && IsTypeWord(m[..n])
    ensures n < |m| ==> m[n] == '(' || m[n] == ':'
  {
    if m == [] || m[0] == '(' || m[0] == ':' then 0
    else
      var n := 1 + TypeLength(m[1..]);
      assert m[..n] == [m[0]] + m[1..][..n - 1];
      n
  }

  /** Reads a header back from a message: the type runs up to the first
      `(` or `:`; then either `: ` and the subject, or `(`, the scope up to
      the first `): `, and the subject. */
  function ParseHeader(m: string): Option<Header>
  {
    var n := TypeLength(m);
    ParseAfterType(m[..n], m[n..])
  }

  /** The part of `ParseHeader` after the type word `t`. */
  function ParseAfterType(t: string, rest: string): Option<Header>
  {
    if |rest| >= 2 && rest[..2] == ": " then
      Some(Header(t, None, rest[2..]))
    else if |rest| >= 1 && rest[0] == '(' then
      match Find(rest[1..], "): ")
      case Some(i) => Some(Header(t, Some(rest[1..][..i]), rest[1..][i + 3..]))
      case None => None
    else
      None
  }

  /** A header that reads back unambiguously: a type word, and a scope
      that does not itself contain `): `. */
  predicate Unambiguous(h: Header)
  {
    && IsTypeWord(h.commitType)
    && (h.scope.Some? ==> forall j: nat :: j <= |h.scope.value| ==> !OccursAt(h.scope.value, "): ", j))
  }

  lemma {:induction false} TypeLengthOf(t: string, rest: string)
    requires IsTypeWord(t)
    requires rest != [] && (rest[0] == '(' || rest[0] == ':')
    ensures TypeLength(t + rest) == |t|
  {
    if t != [] {
      assert (t + rest)[1..] == t[1..] + rest;
      TypeLengthOf(t[1..], rest);
    }
  }

  /** In `s + "): " + subject`, the first `): ` is the one after `s` when
      `s` holds none: a match starting inside `s` would need a `)` or `:`
      where a space is. */
  lemma FindCloser(s: string, subject: string)
    requires forall j: nat :: j <= |s| ==> !OccursAt(s, "): ", j)
    ensures Find(s + "): " + subject, "): ") == Some(|s|)
  {
    var x := s + "): " + subject;
    assert x[|s|..|s| + 3] == "): ";
    assert OccursAt(x, "): ", |s|);
    forall j: nat | j < |s| ensures !OccursAt(x, "): ", j) {
      if j + 3 <= |s| {
        assert x[j..j + 3] == s[j..j + 3];
        assert !OccursAt(s, "): ", j);
      } else if j + 2 == |s| {
        assert x[j..j + 3][2] == ')';
      } else {
        assert x[j..j + 3][1] == ')';
      }
    }
  }

  /** The type word of a message ends where its first `(` or `:` stands. */
  lemma ParseHeaderAt(t: string, rest: string)
    requires IsTypeWord(t)
    requires rest != [] && (rest[0] == '(' || rest[0] == ':')
    ensures ParseHeader(t + rest) == ParseAfterType(t, rest)
  {
    TypeLengthOf(t, rest);
    assert (t + rest)[..|t|] == t;
    assert (t + rest)[|t|..] == rest;
  }

  /** Reading back a rendered header gives it back. */
  lemma ParseRender(h: Header)
    requires Unambiguous(h)
    ensures ParseHeader(Render(h)) == Some(h)
  {
    var t := h.commitType;
    match h.scope
    case None =>
      var rest := ": " + h.subject;
      assert Render(h) == t + rest;
      ParseHeaderAt(t, rest);
      assert ParseAfterType(t, rest) == Some(h) by {
        assert rest[..2] == ": " && rest[2..] == h.subject;
      }
    case Some(s) =>
      var inner := s + "): " + h.subject;
      var rest := "(" + inner;
      assert Render(h) == t + rest;
      ParseHeaderAt(t, rest);
      assert ParseAfterType(t, rest) == Some(h) by {
        assert !(|rest| >= 2 && rest[..2] == ": ") by { assert rest[0] == '('; }
        assert rest[1..] == inner;
        FindCloser(s, h.subject);
        assert inner[..|s|] == s;
        assert inner[|s| + 3..] == h.subject;
      }
  }

  /** Whatever reads back as a header is exactly that header's rendering. */
  lemma RenderParse(m: string, h: Header)
    requires ParseHeader(m) == Some(h)
    ensures Render(h) == m
  {
    var n := TypeLength(m);
    var t, rest := m[..n], m[n..];
    assert m == t + rest;
    assert ParseAfterType(t, rest) == Some(h);
    if |rest| >= 2 && rest[..2] == ": " {
      RenderPlain(t, rest);
    } else {
      var i := Find(rest[1..], "): ").value;
      RenderScoped(t, rest, i);
    }
  }

  lemma RenderPlain(t: string, rest: string)
    requires |rest| >= 2 && rest[..2] == ": "
    ensures Render(Header(t, None, rest[2..])) == t + rest
  {
    assert rest == ": " + rest[2..];
  }

  lemma RenderScoped(t: string, rest: string, i: nat)
    requires rest != [] && rest[0] == '(' && OccursAt(rest[1..], "): ", i)
    ensures Render(Header(t, Some(rest[1..][..i]), rest[1..][i + 3..])) == t + rest
  {
    var inner := rest[1..];
    var scope, subject := inner[..i], inner[i + 3..];
    assert inner[i..i + 3] == "): ";
    assert inner == scope + inner[i..i + 3] + subject by {}
    assert rest == [rest[0]] + inner by {}
    RenderPieces(t, scope, subject);
  }

  lemma RenderPieces(t: string, scope: string, subject: string)
    ensures Render(Header(t, Some(scope), subject)) == t + ("(" + (scope + "): " + subject))
  {
  }

  /** A commit message built by `ask_commit` reads back as its type, its
      effective scope and its name, provided the trimmed scope does not
      itself contain `): `. */
  lemma CommitMessageRoundTrip(commitType: string, scope: Option<string>, name: string)
    requires commitType in Keywords
    requires scope.Some? ==> forall j: nat :: j <= |Trim(scope.value)| ==> !OccursAt(Trim(scope.value), "): ", j)
    ensures ParseHeader(CommitMessage(commitType, scope, name))
         == Some(Header(commitType, EffectiveScope(scope), name))
  {
    KeywordsAreTypeWords(commitType);
    ParseRender(Header(commitType, EffectiveScope(scope), name));
  }

  /** The answers to the three prompts of `ask_commit`. The type menu
      answer is the chosen kind; the scope prompt may be skipped (`None`). */
  datatype CommitAnswers = CommitAnswers(
    kind: Result<CommitKind, InquireError>,
    scope: Result<Option<string>, InquireError>,
    name: Result<string, InquireError>)

  /** What `ask_commit` returns: the message, the type and the trimmed name. */
  datatype Commit = Commit(message: string, commitType: string, name: string)

  /** `ask_commit`: the first prompt error is returned as it is; otherwise
      the type is the chosen kind's keyword, the name is trimmed and the
      message is built from them and the scope. */
  function AskCommit(a: CommitAnswers): (r: Result<Commit, InquireError>)
    ensures r.Ok? <==> a.kind.Ok? && a.scope.Ok? && a.name.Ok?
    ensures a.kind.Err? ==> r == Err(a.kind.error)
    ensures a.kind.Ok? && a.scope.Err? ==> r == Err(a.scope.error)
    ensures a.kind.Ok? && a.scope.Ok? && a.name.Err? ==> r == Err(a.name.error)
    ensures r.Ok? ==> r.value.commitType == Keyword(a.kind.value)
    ensures r.Ok? ==> r.value.name == Trim(a.name.value)
    ensures r.Ok? ==> r.value.message == CommitMessage(r.value.commitType, a.scope.value, r.value.name)
  {
    match a.kind
    case Err(e) => Err(e)
    case Ok(k) =>
      var t := TypeOf(k);
      match a.scope
      case Err(e) => Err(e)
      case Ok(scope) =>
        match a.name
        case Err(e) => Err(e)
        case Ok(raw) =>
          var name := Trim(raw);
          Ok(Commit(CommitMessage(t, scope, name), t, name))
  }

  /** The type `ask_commit` returns is always one of the eleven keywords. */
  lemma AskCommitTypeIsKeyword(a: CommitAnswers)
    requires AskCommit(a).Ok?
    ensures AskCommit(a).value.commitType in Keywords
  {
    KeywordsAreTheKinds(Keyword(a.kind.value));
  }

  /** A whitespace-only scope is not empty, so it is kept and trims to
      nothing: the message is `type(): name`. */
  lemma BlankScope(commitType: string, blank: string, name: string)
    requires blank != "" && AllWhitespace(blank)
    ensures CommitMessage(commitType, Some(blank), name) == Render(Header(commitType, Some(""), name))
    ensures EffectiveScope(Some(blank)) == Some("")
  {
  }

  /** With answers that need no trimming, `ask_commit` writes the scope and
      the name into the message as they are. */
  lemma AskCommitScoped(k: CommitKind, scope: string, name: string)
    requires scope != "" && Trim(scope) == scope && Trim(name) == name
    ensures AskCommit(CommitAnswers(Ok(k), Ok(Some(scope)), Ok(name)))
         == Ok(Commit(Keyword(k) + "(" + scope + "): " + name, Keyword(k), name))
  {
    var r := AskCommit(CommitAnswers(Ok(k), Ok(Some(scope)), Ok(name)));
    assert r.Ok? && r.value.commitType == Keyword(k) && r.value.name == name by {}
    assert r.value.message == CommitMessage(Keyword(k), Some(scope), name) by {}
    assert CommitMessage(Keyword(k), Some(scope), name) == Keyword(k) + "(" + scope + "): " + name by {}
  }

  /** With no scope and a name that needs no trimming, `ask_commit` writes
      `type: name`. */
  lemma AskCommitPlain(k: CommitKind, name: string)
    requires Trim(name) == name
    ensures AskCommit(CommitAnswers(Ok(k), Ok(None), Ok(name)))
         == Ok(Commit(Keyword(k) + ": " + name, Keyword(k), name))
  {
    var r := AskCommit(CommitAnswers(Ok(k), Ok(None), Ok(name)));
    assert r.Ok? && r.value.commitType == Keyword(k) && r.value.name == name by {}
    assert r.value.message == CommitMessage(Keyword(k), None, name) by {}
    assert CommitMessage(Keyword(k), None, name) == Keyword(k) + ": " + name by {}
  }

  lemma AuthIsTrimmed()
    ensures Trim("auth") == "auth"
  {
    TrimUnchanged("auth");
  }

  lemma SubjectIsTrimmed()
    ensures Trim("handle expired tokens") == "handle expired tokens"
  {
    TrimUnchanged("handle expired tokens");
  }

  // Stepping stone for the examples: an identity of fixed texts, stated on
  // its own so that no example unfolds literal text inside a recursive
  // function.
  lemma FixAuthText()
    ensures "fix" + "(" + "auth" + "): " + "handle expired tokens" == "fix(auth): handle expired tokens"
  {
  }

  /** fix / auth / "handle expired tokens" gives "fix(auth): handle expired tokens". */
  lemma ExampleFixAuth()
    ensures AskCommit(CommitAnswers(Ok(Fix), Ok(Some("auth")), Ok("handle expired tokens")))
         == Ok(Commit("fix(auth): handle expired tokens", "fix", "handle expired tokens"))
  {
    AuthIsTrimmed();
    SubjectIsTrimmed();
    AskCommitScoped(Fix, "auth", "handle expired tokens");
    FixAuthText();
  }
}
