/** `create_command_for_backup` and the part of `run_command` that decides
    whether a user's dump is dispatched.

    One timestamp is taken before the loop and shared by every user; for
    each user in order one `pg_dump` command line is formatted and handed
    to the runner together with the user's password.  A missing key raises
    `KeyError` and ends the loop, so the users after it get no command. */
module BackupCommand {
  import opened Outcome
  import opened Text
  import BackupProperties

  /** The settings the dump command's f-string reads, left to right. */
  function DumpReads(common: map<string, string>, user: map<string, string>): seq<(string, bool)> {
    [("psql_path", "psql_path" in common), ("database_server", "database_server" in common),
     ("db", "db" in user), ("username", "username" in user), ("port", "port" in common)]
  }

  /** The formatted `pg_dump` command line for one user.  `stamp` is the
      run's timestamp, formatted by the caller. */
  function DumpCommand(common: map<string, string>, user: map<string, string>, stamp: string): (r: Result<string>)
    ensures r.Ok? <==>
      && "psql_path" in common && "database_server" in common && "port" in common
      && "db" in user && "username" in user
    ensures r.Err? ==> r.error.MissingKey?
    ensures r.Err? ==> var k := r.error.key;
      || (k in {"psql_path", "database_server", "port"} && k !in common)
      || (k in {"db", "username"} && k !in user)
    ensures r.Ok? ==> EndsWith(r.value, " > " + user["username"] + "_" + stamp + ".sql")
  {
    var psql :- Lookup(common, "psql_path");
    var server :- Lookup(common, "database_server");
    var db :- Lookup(user, "db");
    var name :- Lookup(user, "username");
    var port :- Lookup(common, "port");
    Ok(DumpLine(psql, server, db, name, port, stamp))
  }

  /** A failing dump command reports the first setting its f-string reads
      that is absent, as Python raises `KeyError` at the first failing
      subscript. */
  lemma DumpCommandFirstMissing(common: map<string, string>, user: map<string, string>, stamp: string)
    requires DumpCommand(common, user, stamp).Err?
    ensures FirstMissing(DumpCommand(common, user, stamp).error, DumpReads(common, user))
  {
    var e, ls := DumpCommand(common, user, stamp).error, DumpReads(common, user);
    if "psql_path" !in common { MissingAt(e, ls, 0); }
    else if "database_server" !in common { MissingAt(e, ls, 1); }
    else if "db" !in user { MissingAt(e, ls, 2); }
    else if "username" !in user { MissingAt(e, ls, 3); }
    else { MissingAt(e, ls, 4); }
  }

  /** The f-string of the dump command, written word by word with the
      single spaces between the words. */
  function DumpLine(psql: string, server: string, db: string, name: string, port: string, stamp: string): (cmd: string)
    ensures EndsWith(cmd, " > " + name + "_" + stamp + ".sql")
  {
    var target := name + "_" + stamp + ".sql";
    var cmd := psql + "pg_dump" + " " + "-h" + " " + server + " " + "-d" + " " + db
      + " " + "--username" + " " + name + " " + "--port" + " " + port
      + " " + "--no-owner" + " " + "--schema" + " " + name + " " + ">" + " " + target;
    assert cmd[|cmd| - |" > " + target|..] == " > " + target;
    cmd
  }

  lemma DumpLineWords(psql: string, server: string, db: string, name: string, port: string, stamp: string)
    ensures DumpLine(psql, server, db, name, port, stamp) == Join(DumpWords(psql, server, db, name, port, stamp), " ")
  {
    var w := DumpWords(psql, server, db, name, port, stamp);
    var p1 := [w[0]];
    var p2 := p1 + [w[1]]; JoinAppend(p1, [w[1]], " ");
    var p3 := p2 + [w[2]]; JoinAppend(p2, [w[2]], " ");
    var p4 := p3 + [w[3]]; JoinAppend(p3, [w[3]], " ");
    var p5 := p4 + [w[4]]; JoinAppend(p4, [w[4]], " ");
    var p6 := p5 + [w[5]]; JoinAppend(p5, [w[5]], " ");
    var p7 := p6 + [w[6]]; JoinAppend(p6, [w[6]], " ");
    var p8 := p7 + [w[7]]; JoinAppend(p7, [w[7]], " ");
    var p9 := p8 + [w[8]]; JoinAppend(p8, [w[8]], " ");
    var p10 := p9 + [w[9]]; JoinAppend(p9, [w[9]], " ");
    var p11 := p10 + [w[10]]; JoinAppend(p10, [w[10]], " ");
    var p12 := p11 + [w[11]]; JoinAppend(p11, [w[11]], " ");
    var p13 := p12 + [w[12]]; JoinAppend(p12, [w[12]], " ");
    var p14 := p13 + [w[13]]; JoinAppend(p13, [w[13]], " ");
    assert p14 == w;
  }

  /** The words of a dump command: the tool, then its options, then the
      shell redirect into `{username}_{stamp}.sql`. */
  function DumpWords(psql: string, server: string, db: string, name: string, port: string, stamp: string): seq<string> {
    [psql + "pg_dump", "-h", server, "-d", db, "--username", name, "--port", port,
     "--no-owner", "--schema", name, ">", name + "_" + stamp + ".sql"]
  }

  /** No word contains a space. */
  predicate Words(ws: seq<string>) {
    forall i :: 0 <= i < |ws| ==> ' ' !in ws[i]
  }

  /** When no setting contains a space, splitting the command on spaces
      gives back exactly the intended words: the user's `db` after `-d`,
      the user's `username` after both `--username` and `--schema`, and the
      redirect target `{username}_{stamp}.sql`. */
  lemma DumpCommandWords(common: map<string, string>, user: map<string, string>, stamp: string)
    requires DumpCommand(common, user, stamp).Ok?
    requires var ws := DumpWords(common["psql_path"], common["database_server"], user["db"], user["username"], common["port"], stamp);
      Words(ws)
    ensures Split(DumpCommand(common, user, stamp).value, " ") ==
      DumpWords(common["psql_path"], common["database_server"], user["db"], user["username"], common["port"], stamp)
  {
    var ws := DumpWords(common["psql_path"], common["database_server"], user["db"], user["username"], common["port"], stamp);
    JoinWords(ws);
    DumpLineWords(common["psql_path"], common["database_server"], user["db"], user["username"], common["port"], stamp);
  }

  lemma JoinWords(ws: seq<string>)
    requires |ws| >= 1 && Words(ws)
    ensures Split(Join(ws, " "), " ") == ws
  {
    forall i | 0 <= i < |ws| ensures !Contains(ws[i], " ") {
      ContainsChar(ws[i], ' ');
    }
    SplitJoin(ws, " ");
  }

  /** What the loop hands to the runner for one user: the command line and
      the password the runner puts into `PGPASSWORD`. */
  datatype Job = Job(command: string, password: string)

  /** The jobs dispatched, in user order, and the error that ended the loop
      early, if any. */
  datatype Batch = Batch(jobs: seq<Job>, failure: Option<Error>)

  /** One iteration: format the command, then look up the password as
      `run_command` does before it starts the process. */
  function Dispatch(common: map<string, string>, user: map<string, string>, stamp: string): (r: Result<Job>)
    ensures r.Ok? <==> DumpCommand(common, user, stamp).Ok? && "password" in user
    ensures r.Ok? ==> r.value.command == DumpCommand(common, user, stamp).value && r.value.password == user["password"]
    ensures r.Err? ==> r.error.MissingKey? && (r.error.key == "password" || DumpCommand(common, user, stamp).Err?)
  {
    var command :- DumpCommand(common, user, stamp);
    var password :- Lookup(user, "password");
    Ok(Job(command, password))
  }

  /** A user that is not dispatched reports the first absent setting among
      those of the command and then the password. */
  lemma DispatchFirstMissing(common: map<string, string>, user: map<string, string>, stamp: string)
    requires Dispatch(common, user, stamp).Err?
    ensures FirstMissing(Dispatch(common, user, stamp).error, DumpReads(common, user) + [("password", "password" in user)])
  {
    var e, ls := Dispatch(common, user, stamp).error, DumpReads(common, user) + [("password", "password" in user)];
    if "psql_path" !in common { MissingAt(e, ls, 0); }
    else if "database_server" !in common { MissingAt(e, ls, 1); }
    else if "db" !in user { MissingAt(e, ls, 2); }
    else if "username" !in user { MissingAt(e, ls, 3); }
    else if "port" !in common { MissingAt(e, ls, 4); }
    else { MissingAt(e, ls, 5); }
  }

  /** The loop of `create_command_for_backup` over `users` with the one
      timestamp `stamp`: the jobs are those of the longest prefix of users
      that dispatch, and the loop stops at the first user that does not. */
  function Run(common: map<string, string>, users: seq<map<string, string>>, stamp: string): (b: Batch)
    ensures |b.jobs| <= |users|
    ensures forall i :: 0 <= i < |b.jobs| ==> Dispatch(common, users[i], stamp) == Ok(b.jobs[i])
    ensures b.failure.None? ==> |b.jobs| == |users|
    ensures b.failure.Some? ==> |b.jobs| < |users| && Dispatch(common, users[|b.jobs|], stamp) == Err(b.failure.value)
    decreases |users|
  {
    if users == [] then Batch([], None)
    else
      match Dispatch(common, users[0], stamp)
      case Err(e) => Batch([], Some(e))
      case Ok(job) =>
        var rest := Run(common, users[1..], stamp);
        RunCons(common, users, stamp, job, rest);
        Batch([job] + rest.jobs, rest.failure)
  }

  lemma RunCons(common: map<string, string>, users: seq<map<string, string>>, stamp: string, job: Job, rest: Batch)
    requires users != [] && Dispatch(common, users[0], stamp) == Ok(job)
    requires |rest.jobs| < |users|
    requires forall i :: 0 <= i < |rest.jobs| ==> Dispatch(common, users[1..][i], stamp) == Ok(rest.jobs[i])
    requires rest.failure.Some? ==> |rest.jobs| < |users| - 1 && Dispatch(common, users[1..][|rest.jobs|], stamp) == Err(rest.failure.value)
    ensures forall i :: 0 <= i < |rest.jobs| + 1 ==> Dispatch(common, users[i], stamp) == Ok(([job] + rest.jobs)[i])
    ensures rest.failure.Some? ==> Dispatch(common, users[|rest.jobs| + 1], stamp) == Err(rest.failure.value)
  {
    forall i | 0 <= i < |rest.jobs| + 1
      ensures Dispatch(common, users[i], stamp) == Ok(([job] + rest.jobs)[i])
    {
      if i > 0 { assert users[i] == users[1..][i - 1]; }
    }
  }

  /** Every dispatched command ends by redirecting into
      `{username}_{stamp}.sql`, with the same `stamp` for every user. */
  lemma RunSharesStamp(common: map<string, string>, users: seq<map<string, string>>, stamp: string, i: nat)
    requires i < |Run(common, users, stamp).jobs|
    ensures "username" in users[i]
    ensures EndsWith(Run(common, users, stamp).jobs[i].command, " > " + users[i]["username"] + "_" + stamp + ".sql")
  {
    assert Dispatch(common, users[i], stamp).Ok?;
  }

  /** The backup script end to end on the lines of its properties file: a
      file that does not parse dispatches nothing. */
  function Backup(lines: seq<string>, stamp: string): (b: Batch)
    ensures BackupProperties.ReadProperties(lines).Err? ==>
      b == Batch([], Some(BackupProperties.ReadProperties(lines).error))
    ensures BackupProperties.ReadProperties(lines).Ok? ==>
      var p := BackupProperties.ReadProperties(lines).value;
      && |b.jobs| <= |p.users|
      && (forall i :: 0 <= i < |b.jobs| ==> Dispatch(p.common, p.users[i], stamp) == Ok(b.jobs[i]))
      && (b.failure.None? ==> |b.jobs| == |p.users|)
      && (b.failure.Some? ==> |b.jobs| < |p.users| && Dispatch(p.common, p.users[|b.jobs|], stamp) == Err(b.failure.value))
      && (b.failure.None? <==> forall i :: 0 <= i < |p.users| ==> Dispatch(p.common, p.users[i], stamp).Ok?)
  {
    match BackupProperties.ReadProperties(lines)
    case Err(e) => Batch([], Some(e))
    case Ok(p) => Run(p.common, p.users, stamp)
  }
}
