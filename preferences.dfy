/** The two saved preferences, the GitHub token and the default pull
    request description: two files in the `.ghl` directory of the home
    directory. The files are modelled as two optional slots (absent, or
    holding their text) and the directory as a flag; a failing file
    operation is a parameter naming the operation that fails when it is
    attempted. */
module Preferences {
  import opened Wrappers
  import opened Errors
  import opened Strings

  /** The configuration directory and the two files inside it. */
  datatype Paths = Paths(dir: string, token: string, desc: string)

  /** `get_paths`, for a given home directory. */
  function GetPaths(home: string): (p: Paths)
    ensures p.token == home + "/.ghl/token" && p.desc == home + "/.ghl/desc.md"
  {
    var dir := home + "/.ghl";
    Paths(dir, dir + "/token", dir + "/desc.md")
  }

  /** Both files lie directly inside the directory and are different
      files, so writing one never touches the other. */
  lemma PathsAreDistinct(home: string)
    ensures var p := GetPaths(home);
            && p.token[..|p.dir|] == p.dir && p.token[|p.dir|..] == "/token"
            && p.desc[..|p.dir|] == p.dir && p.desc[|p.dir|..] == "/desc.md"
            && p.token != p.desc
  {
    var p := GetPaths(home);
    assert p.token[|p.dir|..] == "/token";
    assert p.desc[|p.dir|..] == "/desc.md";
    assert |p.token| != |p.desc|;
  }

  /** What is on disk: whether the directory exists, and each file's text
      if it exists. */
  datatype Disk = Disk(dirExists: bool, token: Option<string>, desc: Option<string>)

  /** A disk the filesystem can produce: a file exists only inside an
      existing directory. */
  predicate Consistent(d: Disk)
  {
    (d.token.Some? || d.desc.Some?) ==> d.dirExists
  }

  /** `fs::read_to_string` on a file: its text, or `NotFound`. */
  function ReadFile(file: Option<string>): (r: Result<string, IoError>)
    ensures r.Ok? <==> file.Some?
    ensures r.Ok? ==> r.value == file.value
    ensures r.Err? ==> r.error == NotFound
  {
    match file
    case Some(text) => Ok(text)
    case None => Err(NotFound)
  }

  /** The state of one file and of the directory after a write attempt. */
  datatype Written = Written(dirExists: bool, file: Option<string>, result: Result<bool, InquireError>)

  /** No operation the write sequence attempts fails: the directory is
      created only when missing, the file only when missing, and the
      write is always attempted. */
  predicate WriteSucceeds(dirExists: bool, file: Option<string>, fault: Option<FsOp>)
  {
    && (dirExists || fault != Some(CreateDir))
    && (file.Some? || fault != Some(CreateFile))
    && fault != Some(Write)
  }

  /** The write sequence both setters share: create the directory if it
      is missing, create the file (empty) if it is missing, then replace
      its text. The first operation that fails ends the sequence with its
      error; what was done before it stays done. */
  function Persist(dirExists: bool, file: Option<string>, content: string, fault: Option<FsOp>): (w: Written)
    ensures w.result.Ok? <==> WriteSucceeds(dirExists, file, fault)
    ensures w.result.Ok? ==> w.result.value && w.dirExists && w.file == Some(content)
    ensures w.result.Err? ==> fault.Some? && w.result.error == Io(Failed(fault.value))
    ensures w.result.Err? ==> w.file == file || (file.None? && w.file == Some(""))
    ensures dirExists ==> w.dirExists
  {
    if !dirExists && fault == Some(CreateDir) then
      Written(false, file, Err(Io(Failed(CreateDir))))
    else if file.None? && fault == Some(CreateFile) then
      Written(true, file, Err(Io(Failed(CreateFile))))
    else if fault == Some(Write) then
      Written(true, if file.Some? then file else Some(""), Err(Io(Failed(Write))))
    else
      Written(true, Some(content), Ok(true))
  }

  /** The disk after a setter, and what the setter returned. */
  datatype Outcome = Outcome(disk: Disk, result: Result<bool, InquireError>)

  /** The text a skippable prompt produced when it is one a setter acts
      on: answered, and not empty. */
  predicate Acted(input: Result<Option<string>, InquireError>)
  {
    input.Ok? && input.value.Some? && input.value.value != ""
  }

  /** `set_github_token`: a prompt error is returned as it is; a skipped
      or empty answer changes nothing and returns `false`; otherwise the
      trimmed answer is written to the token file. The description is
      never touched. */
  function SetToken(d: Disk, input: Result<Option<string>, InquireError>, fault: Option<FsOp>): (o: Outcome)
    ensures o.disk.desc == d.desc
    ensures d.dirExists ==> o.disk.dirExists
    ensures input.Err? ==> o == Outcome(d, Err(input.error))
    ensures input.Ok? && !Acted(input) ==> o == Outcome(d, Ok(false))
    ensures o.result == Ok(true) <==> Acted(input) && WriteSucceeds(d.dirExists, d.token, fault)
    ensures o.result == Ok(true) ==> o.disk.token == Some(Trim(input.value.value)) && o.disk.dirExists
    ensures Acted(input) && !WriteSucceeds(d.dirExists, d.token, fault) ==>
              fault.Some? && o.result == Err(Io(Failed(fault.value)))
    ensures o.result.Err? ==> o.disk.token == d.token || (d.token.None? && o.disk.token == Some(""))
  {
    if !Acted(input) then
      if input.Err? then Outcome(d, Err(input.error)) else Outcome(d, Ok(false))
    else
      var w := Persist(d.dirExists, d.token, Trim(input.value.value), fault);
      Outcome(Disk(w.dirExists, w.file, d.desc), w.result)
  }

  /** The description `set_default_desc` starts from: the saved one, or
      the empty text when there is none. */
  function CurrentDesc(d: Disk): (r: string)
    ensures d.desc.Some? ==> r == d.desc.value
    ensures d.desc.None? ==> r == ""
  {
    ReadFile(d.desc).UnwrapOr("")
  }

  /** `set_default_desc`: a prompt error is returned as it is; a skipped
      or empty answer, or one equal to the current description, changes
      nothing and returns `false`; otherwise the answer is written as it
      is. The token is never touched. */
  function SetDesc(d: Disk, input: Result<Option<string>, InquireError>, fault: Option<FsOp>): (o: Outcome)
    ensures o.disk.token == d.token
    ensures d.dirExists ==> o.disk.dirExists
    ensures input.Err? ==> o == Outcome(d, Err(input.error))
    ensures input.Ok? && !Acted(input) ==> o == Outcome(d, Ok(false))
    ensures Acted(input) && input.value.value == CurrentDesc(d) ==> o == Outcome(d, Ok(false))
    ensures o.result == Ok(true) <==>
              Acted(input) && input.value.value != CurrentDesc(d)
              && WriteSucceeds(d.dirExists, d.desc, fault)
    ensures o.result == Ok(true) ==> o.disk.desc == Some(input.value.value) && o.disk.dirExists
    ensures Acted(input) && input.value.value != CurrentDesc(d) && !WriteSucceeds(d.dirExists, d.desc, fault) ==>
              fault.Some? && o.result == Err(Io(Failed(fault.value)))
    ensures o.result.Err? ==> o.disk.desc == d.desc || (d.desc.None? && o.disk.desc == Some(""))
  {
    if !Acted(input) then
      if input.Err? then Outcome(d, Err(input.error)) else Outcome(d, Ok(false))
    else if input.value.value == CurrentDesc(d) then
      Outcome(d, Ok(false))
    else
      var w := Persist(d.dirExists, d.desc, input.value.value, fault);
      Outcome(Disk(w.dirExists, d.token, w.file), w.result)
  }

  /** A successful token write is read back, trimmed. */
  lemma TokenReadsBack(d: Disk, input: Result<Option<string>, InquireError>, fault: Option<FsOp>)
    requires SetToken(d, input, fault).result == Ok(true)
    ensures ReadFile(SetToken(d, input, fault).disk.token) == Ok(Trim(input.value.value))
  {
  }

  /** Without a failing operation, any non-empty answer is stored, and a
      whitespace-only one is stored as the empty token. */
  lemma TokenWritten(d: Disk, text: string)
    requires text != ""
    ensures SetToken(d, Ok(Some(text)), None)
         == Outcome(Disk(true, Some(Trim(text)), d.desc), Ok(true))
    ensures AllWhitespace(text) ==> SetToken(d, Ok(Some(text)), None).disk.token == Some("")
  {
  }

  /** The last token written is the one read back. */
  lemma TokenLastWriteWins(d: Disk, first: string, second: string)
    requires first != "" && second != ""
    ensures var d1 := SetToken(d, Ok(Some(first)), None).disk;
            ReadFile(SetToken(d1, Ok(Some(second)), None).disk.token) == Ok(Trim(second))
  {
    TokenWritten(d, first);
    TokenWritten(SetToken(d, Ok(Some(first)), None).disk, second);
  }

  /** Setting the same new description twice returns `true`, then
      `false`, and the slot holds that text; the token is untouched. */
  lemma DescSetTwice(d: Disk, text: string)
    requires text != "" && text != CurrentDesc(d)
    ensures var o1 := SetDesc(d, Ok(Some(text)), None);
            var o2 := SetDesc(o1.disk, Ok(Some(text)), None);
            && o1.result == Ok(true) && o2.result == Ok(false)
            && o2.disk == o1.disk
            && ReadFile(o2.disk.desc) == Ok(text)
            && o2.disk.token == d.token
  {
    var o1 := SetDesc(d, Ok(Some(text)), None);
    assert o1.disk.desc == Some(text);
    assert CurrentDesc(o1.disk) == text;
  }

  /** With no description saved, the empty text counts as the current
      one, so no answer the setter acts on equals it. */
  lemma DescFromNothing(d: Disk, text: string)
    requires d.desc.None? && text != ""
    ensures SetDesc(d, Ok(Some(text)), None) == Outcome(Disk(true, d.token, Some(text)), Ok(true))
  {
  }

  /** Before anything is saved both reads fail with `NotFound`. */
  lemma NothingSaved()
    ensures ReadFile(Disk(false, None, None).token) == Err(NotFound)
    ensures ReadFile(Disk(false, None, None).desc) == Err(NotFound)
  {
  }

  /** A token write whose directory creation, file creation or write
      fails returns that operation's error, and leaves the slot with its
      old text or, when the file was created just before the failure,
      with the empty text. */
  lemma FailedTokenWrite(d: Disk, input: Result<Option<string>, InquireError>, fault: Option<FsOp>)
    requires Acted(input) && !WriteSucceeds(d.dirExists, d.token, fault)
    ensures fault.Some? && SetToken(d, input, fault).result == Err(Io(Failed(fault.value)))
    ensures var t := SetToken(d, input, fault).disk.token;
            t == d.token || (d.token.None? && t == Some(""))
  {
  }

  /** The same for a new description: the failing operation's error is
      returned, and the slot keeps its old text or holds the empty text. */
  lemma FailedDescWrite(d: Disk, input: Result<Option<string>, InquireError>, fault: Option<FsOp>)
    requires Acted(input) && input.value.value != CurrentDesc(d)
    requires !WriteSucceeds(d.dirExists, d.desc, fault)
    ensures fault.Some? && SetDesc(d, input, fault).result == Err(Io(Failed(fault.value)))
    ensures var t := SetDesc(d, input, fault).disk.desc;
            t == d.desc || (d.desc.None? && t == Some(""))
  {
  }

  /** Neither setter, whatever its outcome, leaves a file outside an
      existing directory. */
  lemma SettersKeepConsistent(d: Disk, input: Result<Option<string>, InquireError>, fault: Option<FsOp>)
    requires Consistent(d)
    ensures Consistent(SetToken(d, input, fault).disk)
    ensures Consistent(SetDesc(d, input, fault).disk)
  {
    if Acted(input) {
      var t := Persist(d.dirExists, d.token, Trim(input.value.value), fault);
      assert t.file.Some? ==> t.dirExists;
      if input.value.value != CurrentDesc(d) {
        var w := Persist(d.dirExists, d.desc, input.value.value, fault);
        assert w.file.Some? ==> w.dirExists;
      }
    }
  }

  /** The saved preferences as mutable state: the directory flag and the
      two file slots of a `Disk`. */
  class Store {
    var dirExists: bool
    var token: Option<string>
    var desc: Option<string>

    function State(): Disk
      reads this
    {
      Disk(dirExists, token, desc)
    }

    constructor(d: Disk)
      ensures State() == d
    {
      dirExists := d.dirExists;
      token := d.token;
      desc := d.desc;
    }

    /** `get_github_token`. */
    function GetGithubToken(): (r: Result<string, IoError>)
      reads this
      ensures r.Ok? <==> token.Some?
      ensures r.Ok? ==> r.value == token.value
      ensures r.Err? ==> r.error == NotFound
    {
      ReadFile(token)
    }

    /** `get_default_desc`. */
    function GetDefaultDesc(): (r: Result<string, IoError>)
      reads this
      ensures r.Ok? <==> desc.Some?
      ensures r.Ok? ==> r.value == desc.value
      ensures r.Err? ==> r.error == NotFound
    {
      ReadFile(desc)
    }

    /** `set_github_token`, step by step. */
    method SetGithubToken(input: Result<Option<string>, InquireError>, fault: Option<FsOp>)
      returns (r: Result<bool, InquireError>)
      modifies this
      ensures Outcome(State(), r) == SetToken(old(State()), input, fault)
      ensures Consistent(old(State())) ==> Consistent(State())
    {
      if input.Err? {
        return Err(input.error);
      }
      if input.value.None? {
        return Ok(false);
      }
      var raw := input.value.value;
      if raw == "" {
        return Ok(false);
      }
      var trimmed := Trim(raw);
      if !dirExists {
        if fault == Some(CreateDir) {
          return Err(Io(Failed(CreateDir)));
        }
        dirExists := true;
      }
      if token.None? {
        if fault == Some(CreateFile) {
          return Err(Io(Failed(CreateFile)));
        }
        token := Some("");
      }
      if fault == Some(Write) {
        return Err(Io(Failed(Write)));
      }
      token := Some(trimmed);
      return Ok(true);
    }

    /** `set_default_desc`, step by step. */
    method SetDefaultDesc(input: Result<Option<string>, InquireError>, fault: Option<FsOp>)
      returns (r: Result<bool, InquireError>)
      modifies this
      ensures Outcome(State(), r) == SetDesc(old(State()), input, fault)
      ensures Consistent(old(State())) ==> Consistent(State())
    {
      var actual := GetDefaultDesc().UnwrapOr("");
      if input.Err? {
        return Err(input.error);
      }
      if input.value.None? {
        return Ok(false);
      }
      var text := input.value.value;
      if text == "" {
        return Ok(false);
      }
      if actual == text {
        return Ok(false);
      }
      if !dirExists {
        if fault == Some(CreateDir) {
          return Err(Io(Failed(CreateDir)));
        }
        dirExists := true;
      }
      if desc.None? {
        if fault == Some(CreateFile) {
          return Err(Io(Failed(CreateFile)));
        }
        desc := Some("");
      }
      if fault == Some(Write) {
        return Err(Io(Failed(Write)));
      }
      desc := Some(text);
      return Ok(true);
    }
  }
}
