/** The restore script after its properties are read: the user rename in
    the dump (`replace_username_psql_file`), the `psql` command line
    (`create_command_to_restore`) and the password the runner needs
    (`run_restore_command`).

    The command connects as `from_username`, the user the dump was taken
    for; `to_username` only feeds the rename of the dump's text. */
module RestoreCommand {
  import opened Outcome
  import opened Text
  import opened Substitution
  import opened Assoc
  import RestoreProperties

  /** `path.split('\\')[-1]`: the part of a Windows-style path after its
      last backslash, or the whole path when it has none.  It is the
      longest suffix of `path` free of backslashes. */
  function FileName(path: string): (r: string)
    ensures '\\' !in r
    ensures EndsWith(path, r)
    ensures |r| < |path| ==> path[|path| - |r| - 1] == '\\'
    ensures '\\' !in path ==> r == path
  {
    var r := Last(Split(path, "\\"));
    FileNameFree(path);
    FileNameSuffix(path);
    if '\\' in path then r else FileNameWhole(path); r
  }

  /** The last piece holds no backslash. */
  lemma FileNameFree(path: string)
    ensures '\\' !in Last(Split(path, "\\"))
  {
    LastPieceFree(path, "\\");
    ContainsChar(Last(Split(path, "\\")), '\\');
  }

  /** The last piece ends the path, right after a backslash when it is
      not the whole path. */
  lemma FileNameSuffix(path: string)
    ensures var r := Last(Split(path, "\\"));
      && EndsWith(path, r)
      && (|r| < |path| ==> path[|path| - |r| - 1] == '\\')
  {
    var ps := Split(path, "\\");
    var r := Last(ps);
    SplitLast(path, "\\");
    if |ps| == 1 {
      SinglePiece(path, "\\");
    } else {
      CharOfSlice(path, |path| - |r| - 1, '\\');
    }
  }

  lemma CharOfSlice(s: string, i: nat, c: char)
    requires i < |s| && s[i..i + 1] == [c]
    ensures s[i] == c
  {
    assert s[i..i + 1][0] == s[i];
  }

  /** A path without a backslash is its own file name. */
  lemma FileNameWhole(path: string)
    requires '\\' !in path
    ensures Last(Split(path, "\\")) == path
  {
    ContainsChar(path, '\\');
    SplitNone(path, "\\");
  }

  /** The rename of `replace_username_psql_file` on the text of the dump:
      every non-overlapping occurrence of `from_username`, left to right,
      becomes `to_username`.  The dump's path is looked up first, as the
      source opens the file before it reads the two names. */
  function RenameUser(props: map<string, string>, content: string): (r: Result<string>)
    ensures r.Ok? <==> "restore_filename" in props && "from_username" in props && "to_username" in props
    ensures r.Err? ==> r.error.MissingKey? && r.error.key !in props
    ensures r.Err? ==> r.error.key in {"restore_filename", "from_username", "to_username"}
    ensures r.Ok? ==> var from, to := props["from_username"], props["to_username"];
      |r.value| == |content| + Count(content, from) * (|to| - |from|)
    ensures r.Ok? && props["from_username"] != [] ==>
      r.value == Join(Split(content, props["from_username"]), props["to_username"])
    ensures r.Ok? && !Contains(content, props["from_username"]) ==> r.value == content
    ensures r.Ok? && props["from_username"] == props["to_username"] ==> r.value == content
  {
    var _ :- Lookup(props, "restore_filename");
    var from :- Lookup(props, "from_username");
    var to :- Lookup(props, "to_username");
    ReplaceFacts(content, from, to);
    Ok(Replace(content, from, to))
  }

  lemma ReplaceFacts(content: string, from: string, to: string)
    ensures |Replace(content, from, to)| == |content| + Count(content, from) * (|to| - |from|)
    ensures from != [] ==> Replace(content, from, to) == Join(Split(content, from), to)
    ensures !Contains(content, from) ==> Replace(content, from, to) == content
    ensures from == to ==> Replace(content, from, to) == content
  {
    ReplaceLength(content, from, to);
    if from != [] { ReplaceIsJoinSplit(content, from, to); }
    if !Contains(content, from) { ReplaceAbsent(content, from, to); }
    ReplaceIdentity(content, from);
  }

  /** The settings the rename reads, in order. */
  const RenameKeys: seq<string> := ["restore_filename", "from_username", "to_username"]

  /** A failing rename reports the first of its settings that is absent. */
  lemma RenameUserFirstMissing(props: map<string, string>, content: string)
    requires RenameUser(props, content).Err?
    ensures FirstMissing(RenameUser(props, content).error, Present(props, RenameKeys))
  {
    var e, ls := RenameUser(props, content).error, Present(props, RenameKeys);
    if "restore_filename" !in props { MissingAt(e, ls, 0); }
    else if "from_username" !in props { MissingAt(e, ls, 1); }
    else { MissingAt(e, ls, 2); }
  }

  /** The f-string of the restore command, written word by word with the
      single spaces between the words. */
  function RestoreLine(psql: string, server: string, db: string, name: string, port: string, file: string): (cmd: string)
    ensures EndsWith(cmd, " -f " + file)
  {
    var cmd := psql + "psql" + " " + "-h" + " " + server + " " + "-d" + " " + db
      + " " + "--username" + " " + name + " " + "--port" + " " + port
      + " " + "-f" + " " + file;
    assert cmd[|cmd| - |" -f " + file|..] == " -f " + file;
    cmd
  }

  /** The words of a restore command: the tool, then its options, the
      last being the dump's file name. */
  function RestoreWords(psql: string, server: string, db: string, name: string, port: string, file: string): seq<string> {
    [psql + "psql", "-h", server, "-d", db, "--username", name, "--port", port, "-f", file]
  }

  lemma RestoreLineWords(psql: string, server: string, db: string, name: string, port: string, file: string)
    ensures RestoreLine(psql, server, db, name, port, file) == Join(RestoreWords(psql, server, db, name, port, file), " ")
  {
    var ws := RestoreWords(psql, server, db, name, port, file);
    assert Join(ws[..1], " ") == ws[0];
    JoinSnoc(ws, 1, " "); JoinSnoc(ws, 2, " "); JoinSnoc(ws, 3, " "); JoinSnoc(ws, 4, " ");
    JoinSnoc(ws, 5, " "); JoinSnoc(ws, 6, " "); JoinSnoc(ws, 7, " "); JoinSnoc(ws, 8, " ");
    JoinSnoc(ws, 9, " "); JoinSnoc(ws, 10, " ");
    assert ws[..11] == ws;
  }

  /** `create_command_to_restore`: the file name is taken first, then the
      settings in the order the f-string reads them. */
  function Command(props: map<string, string>): (r: Result<string>)
    ensures r.Ok? <==>
      && "restore_filename" in props && "psql_path" in props && "database_server" in props
      && "db" in props && "from_username" in props && "port" in props
    ensures r.Err? ==> r.error.MissingKey? && r.error.key !in props
    ensures r.Err? ==> r.error.key in {"restore_filename", "psql_path", "database_server", "db", "from_username", "port"}
    ensures r.Ok? ==> EndsWith(r.value, " -f " + FileName(props["restore_filename"]))
  {
    var path :- Lookup(props, "restore_filename");
    var file := FileName(path);
    var psql :- Lookup(props, "psql_path");
    var server :- Lookup(props, "database_server");
    var db :- Lookup(props, "db");
    var name :- Lookup(props, "from_username");
    var port :- Lookup(props, "port");
    Ok(RestoreLine(psql, server, db, name, port, file))
  }

  /** The settings the command reads: the dump's path for the file name,
      then those of the f-string, left to right. */
  const CommandKeys: seq<string> := ["restore_filename", "psql_path", "database_server", "db", "from_username", "port"]

  /** A failing command build reports the first of its settings that is
      absent. */
  lemma CommandFirstMissing(props: map<string, string>)
    requires Command(props).Err?
    ensures FirstMissing(Command(props).error, Present(props, CommandKeys))
  {
    var e, ls := Command(props).error, Present(props, CommandKeys);
    if "restore_filename" !in props { MissingAt(e, ls, 0); }
    else if "psql_path" !in props { MissingAt(e, ls, 1); }
    else if "database_server" !in props { MissingAt(e, ls, 2); }
    else if "db" !in props { MissingAt(e, ls, 3); }
    else if "from_username" !in props { MissingAt(e, ls, 4); }
    else { MissingAt(e, ls, 5); }
  }

  /** When no setting and no file name contains a space, splitting the
      command on spaces gives back exactly the intended words: the
      `from_username` after `--username` and the bare file name after `-f`. */
  lemma CommandWords(props: map<string, string>)
    requires Command(props).Ok?
    requires var ws := RestoreWords(props["psql_path"], props["database_server"], props["db"],
      props["from_username"], props["port"], FileName(props["restore_filename"]));
      forall i :: 0 <= i < |ws| ==> ' ' !in ws[i]
    ensures Split(Command(props).value, " ") == RestoreWords(props["psql_path"], props["database_server"],
      props["db"], props["from_username"], props["port"], FileName(props["restore_filename"]))
  {
    var ws := RestoreWords(props["psql_path"], props["database_server"], props["db"],
      props["from_username"], props["port"], FileName(props["restore_filename"]));
    forall i | 0 <= i < |ws| ensures !Contains(ws[i], " ") {
      ContainsChar(ws[i], ' ');
    }
    SplitJoin(ws, " ");
    RestoreLineWords(props["psql_path"], props["database_server"], props["db"],
      props["from_username"], props["port"], FileName(props["restore_filename"]));
  }

  /** The command never reads `to_username`, nor `password`. */
  lemma CommandIgnoresTarget(props: map<string, string>, key: string, value: string)
    requires key == "to_username" || key == "password"
    ensures Command(props[key := value]) == Command(props)
  {
    var p := props[key := value];
    assert Lookup(p, "restore_filename") == Lookup(props, "restore_filename");
    assert Lookup(p, "psql_path") == Lookup(props, "psql_path");
    assert Lookup(p, "database_server") == Lookup(props, "database_server");
    assert Lookup(p, "db") == Lookup(props, "db");
    assert Lookup(p, "from_username") == Lookup(props, "from_username");
    assert Lookup(p, "port") == Lookup(props, "port");
  }

  /** What the script hands to the runner: the command and the password
      for `PGPASSWORD`. */
  datatype Plan = Plan(command: string, password: string)

  /** A restore up to the start of `psql`: the text the dump file holds
      afterwards, and the plan or the error that stopped the script. */
  datatype Attempt = Attempt(dump: string, outcome: Result<Plan>)

  /** The settings the rename reads are all there. */
  predicate RenameReady(props: map<string, string>) {
    "restore_filename" in props && "from_username" in props && "to_username" in props
  }

  /** Every setting the script reads is there. */
  predicate Complete(props: map<string, string>) {
    && RenameReady(props)
    && "psql_path" in props && "database_server" in props && "db" in props
    && "port" in props && "password" in props
  }

  /** The command build, then the password lookup of `run_restore_command`. */
  function Launch(props: map<string, string>): (r: Result<Plan>)
    ensures r.Ok? <==> Command(props).Ok? && "password" in props
    ensures r.Err? ==> r.error.MissingKey? && r.error.key !in props
    ensures r.Ok? ==> r.value == Plan(Command(props).value, props["password"])
  {
    var command :- Command(props);
    var password :- Lookup(props, "password");
    Ok(Plan(command, password))
  }

  /** What the script does once its properties are read: rename the user
      in the dump's text `content` and write it back, build the command
      and look up the password, stopping at the first missing setting.  The
      dump is rewritten as soon as the rename's settings are there, even
      when a later setting is missing. */
  function Prepare(props: map<string, string>, content: string): (a: Attempt)
    ensures a.outcome.Ok? <==> Complete(props)
    ensures a.outcome.Err? ==> a.outcome.error.MissingKey? && a.outcome.error.key !in props
    ensures a.outcome.Ok? ==>
      && EndsWith(a.outcome.value.command, " -f " + FileName(props["restore_filename"]))
      && a.outcome.value == Plan(Command(props).value, props["password"])
    ensures RenameReady(props) ==> a.dump == Replace(content, props["from_username"], props["to_username"])
    ensures !RenameReady(props) ==> a.dump == content
  {
    match RenameUser(props, content)
    case Err(e) => Attempt(content, Err(e))
    case Ok(renamed) => Attempt(renamed, Launch(props))
  }

  /** A failing preparation reports the first absent setting in the order
      the script reads them: the rename's, then the command's, then the
      password. */
  lemma PrepareFirstMissing(props: map<string, string>, content: string)
    requires Prepare(props, content).outcome.Err?
    ensures FirstMissing(Prepare(props, content).outcome.error, Present(props, RenameKeys + CommandKeys + ["password"]))
  {
    var e := Prepare(props, content).outcome.error;
    var rename, command, password := Present(props, RenameKeys), Present(props, CommandKeys), Present(props, ["password"]);
    PresentAppend(props, RenameKeys, CommandKeys);
    PresentAppend(props, RenameKeys + CommandKeys, ["password"]);
    if RenameUser(props, content).Err? {
      RenameUserFirstMissing(props, content);
      FirstMissingPrefix(e, rename, command + password);
      assert rename + (command + password) == rename + command + password;
    } else if Command(props).Err? {
      CommandFirstMissing(props);
      FirstMissingPrefix(e, command, password);
      FirstMissingAfter(e, rename, command + password);
      assert rename + (command + password) == rename + command + password;
    } else {
      assert AllPresent(rename + command);
      MissingAt(e, password, 0);
      FirstMissingAfter(e, rename + command, password);
    }
  }

  /** The restore script end to end on the lines of its properties file and
      the text of the dump.  A file that does not read stops the script
      before the dump is touched; otherwise the settings are those of the
      file's last line for each key, and the script goes through exactly
      when all of them are there. */
  function Restore(lines: seq<string>, content: string): (a: Attempt)
    ensures !RestoreProperties.AllOk(lines) ==>
      && a.dump == content && a.outcome.Err? && a.outcome.error.Unpack?
      && Count(a.outcome.error.text, "=") != 1
    ensures a.outcome.Ok? <==> RestoreProperties.AllOk(lines) && Complete(MapOf(RestoreProperties.Pairs(lines)))
    ensures RestoreProperties.AllOk(lines) && a.outcome.Err? ==>
      a.outcome.error.MissingKey? && a.outcome.error.key !in KeysOf(RestoreProperties.Pairs(lines))
    ensures a.outcome.Ok? ==> var m := MapOf(RestoreProperties.Pairs(lines));
      && EndsWith(a.outcome.value.command, " -f " + FileName(m["restore_filename"]))
      && a.outcome.value.password == m["password"]
    ensures RestoreProperties.AllOk(lines) && RenameReady(MapOf(RestoreProperties.Pairs(lines))) ==>
      var m := MapOf(RestoreProperties.Pairs(lines));
      a.dump == Replace(content, m["from_username"], m["to_username"])
    ensures !(RestoreProperties.AllOk(lines) && RenameReady(MapOf(RestoreProperties.Pairs(lines)))) ==>
      a.dump == content
  {
    match RestoreProperties.ReadRestoreProperties(lines)
    case Err(e) => Attempt(content, Err(e))
    case Ok(props) => Prepare(props, content)
  }
}
