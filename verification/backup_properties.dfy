/** `read_properties_file` of the backup script.

    Each line is stripped; blank lines are skipped.  A line with `=` and
    no `||` assigns one common setting; a line with `||` describes one user
    as `||`-separated `key=value` fields; any other line is dropped.  Every
    `key=value` piece must hold exactly one `=`, otherwise the whole read
    fails. */
module BackupProperties {
  import opened Outcome
  import opened Text
  import opened Substitution
  import opened Assoc
  import opened Pair

  /** `common_info` and `user_info_list`. */
  datatype Properties = Properties(common: map<string, string>, users: seq<map<string, string>>)

  const Empty := Properties(map[], [])

  /** Which branch of the read loop a line takes. */
  datatype LineKind = Blank | Common | User | Other

  function Kind(line: string): LineKind {
    var t := Strip(line);
    if t == [] then Blank
    else if Contains(t, "=") && !Contains(t, "||") then Common
    else if Contains(t, "||") then User
    else Other
  }

  /** Every `key=value` field holds exactly one `=`. */
  predicate FieldsOk(fields: seq<string>) {
    forall i :: 0 <= i < |fields| ==> Count(fields[i], "=") == 1
  }

  /** The fields of a user line, split on `||`. */
  function UserFields(line: string): seq<string> {
    Split(Strip(line), "||")
  }

  /** A line the loop gets through without raising. */
  predicate LineOk(line: string) {
    match Kind(line)
    case Common => Count(Strip(line), "=") == 1
    case User => FieldsOk(UserFields(line))
    case _ => true
  }

  /** The `(key, value)` pairs of well-formed fields, in order. */
  function FieldPairs(fields: seq<string>): (r: seq<(string, string)>)
    requires FieldsOk(fields)
    ensures |r| == |fields|
    ensures forall i :: 0 <= i < |fields| ==> fields[i] == r[i].0 + "=" + r[i].1
  {
    seq(|fields|, i requires 0 <= i < |fields| => KeyValue(fields[i]).value)
  }

  /** The setting a well-formed common line assigns. */
  function CommonPair(line: string): (string, string)
    requires Kind(line) == Common && LineOk(line)
  {
    KeyValue(Strip(line)).value
  }

  /** The dictionary a well-formed user line describes. */
  function UserMap(line: string): map<string, string>
    requires Kind(line) == User && LineOk(line)
  {
    MapOf(FieldPairs(UserFields(line)))
  }

  /** The inner loop over the fields of a user line: `user_info[key] = value`
      for each field, raising at the first field without exactly one `=`. */
  function Fields(d: map<string, string>, fields: seq<string>): (r: Result<map<string, string>>)
    ensures r.Ok? <==> FieldsOk(fields)
    ensures r.Ok? ==> r.value == Insert(d, FieldPairs(fields))
    ensures r.Err? ==> r.error.Unpack? && Count(r.error.text, "=") != 1
    decreases |fields|
  {
    if fields == [] then Ok(d)
    else
      FieldsOkTail(fields);
      var kv :- KeyValue(fields[0]);
      var r := Fields(d[kv.0 := kv.1], fields[1..]);
      if r.Ok? then
        FieldPairsCons(d, fields);
        r
      else r
  }

  lemma FieldsOkTail(fields: seq<string>)
    requires fields != []
    ensures FieldsOk(fields) <==> Count(fields[0], "=") == 1 && FieldsOk(fields[1..])
  {
    if Count(fields[0], "=") == 1 && FieldsOk(fields[1..]) {
      forall i | 0 <= i < |fields| ensures Count(fields[i], "=") == 1 {
        if i > 0 { assert fields[i] == fields[1..][i - 1]; }
      }
    }
  }

  lemma FieldPairsCons(d: map<string, string>, fields: seq<string>)
    requires fields != [] && FieldsOk(fields)
    ensures FieldsOk(fields[1..])
    ensures var kv := KeyValue(fields[0]).value;
      Insert(d, FieldPairs(fields)) == Insert(d[kv.0 := kv.1], FieldPairs(fields[1..]))
  {
    FieldsOkTail(fields);
    var kv := KeyValue(fields[0]).value;
    var ps := FieldPairs(fields);
    assert ps[0] == kv;
    assert ps[1..] == FieldPairs(fields[1..]);
  }

  /** One pass of the read loop over `line`. */
  function Step(p: Properties, line: string): (r: Result<Properties>)
    ensures r.Ok? <==> LineOk(line)
    ensures Kind(line) == Blank || Kind(line) == Other ==> r == Ok(p)
    ensures r.Ok? && Kind(line) == Common ==>
      r.value == Properties(p.common[CommonPair(line).0 := CommonPair(line).1], p.users)
    ensures r.Ok? && Kind(line) == User ==> r.value == Properties(p.common, p.users + [UserMap(line)])
    ensures r.Err? ==> r.error.Unpack? && Count(r.error.text, "=") != 1
  {
    match Kind(line)
    case Blank => Ok(p)
    case Other => Ok(p)
    case Common =>
      var kv :- KeyValue(Strip(line));
      Ok(p.(common := p.common[kv.0 := kv.1]))
    case User =>
      var u :- Fields(map[], UserFields(line));
      Ok(p.(users := p.users + [u]))
  }

  /** The common lines, in file order. */
  function CommonLines(lines: seq<string>): (r: seq<string>)
    ensures forall i :: 0 <= i < |r| ==> Kind(r[i]) == Common
  {
    if lines == [] then []
    else (if Kind(lines[0]) == Common then [lines[0]] else []) + CommonLines(lines[1..])
  }

  /** The user lines, in file order. */
  function UserLines(lines: seq<string>): (r: seq<string>)
    ensures forall i :: 0 <= i < |r| ==> Kind(r[i]) == User
  {
    if lines == [] then []
    else (if Kind(lines[0]) == User then [lines[0]] else []) + UserLines(lines[1..])
  }

  predicate AllOk(lines: seq<string>) {
    forall i :: 0 <= i < |lines| ==> LineOk(lines[i])
  }

  lemma AllOkTail(lines: seq<string>)
    requires lines != []
    ensures AllOk(lines) <==> LineOk(lines[0]) && AllOk(lines[1..])
  {
    if LineOk(lines[0]) && AllOk(lines[1..]) {
      forall i | 0 <= i < |lines| ensures LineOk(lines[i]) {
        if i > 0 { assert lines[i] == lines[1..][i - 1]; }
      }
    }
  }

  /** The settings the common lines assign, in file order. */
  function CommonPairs(lines: seq<string>): (r: seq<(string, string)>)
    requires AllOk(lines)
    ensures |r| == |CommonLines(lines)|
  {
    if lines == [] then []
    else
      AllOkTail(lines);
      (if Kind(lines[0]) == Common then [CommonPair(lines[0])] else []) + CommonPairs(lines[1..])
  }

  /** One dictionary per user line, in file order. */
  function UserMaps(lines: seq<string>): (r: seq<map<string, string>>)
    requires AllOk(lines)
    ensures |r| == |UserLines(lines)|
  {
    if lines == [] then []
    else
      AllOkTail(lines);
      (if Kind(lines[0]) == User then [UserMap(lines[0])] else []) + UserMaps(lines[1..])
  }

  /** The read loop over `lines`, starting from `p`. */
  function ParseFrom(p: Properties, lines: seq<string>): (r: Result<Properties>)
    ensures r.Ok? <==> AllOk(lines)
    ensures r.Ok? ==> r.value == Properties(Insert(p.common, CommonPairs(lines)), p.users + UserMaps(lines))
    ensures r.Err? ==> r.error.Unpack? && Count(r.error.text, "=") != 1
    decreases |lines|
  {
    if lines == [] then Ok(p)
    else
      AllOkTail(lines);
      var q :- Step(p, lines[0]);
      var r := ParseFrom(q, lines[1..]);
      if r.Ok? then
        ParseFromStep(p, q, lines);
        r
      else r
  }

  lemma ParseFromStep(p: Properties, q: Properties, lines: seq<string>)
    requires lines != [] && AllOk(lines) && Step(p, lines[0]) == Ok(q)
    ensures AllOk(lines[1..])
    ensures Insert(q.common, CommonPairs(lines[1..])) == Insert(p.common, CommonPairs(lines))
    ensures q.users + UserMaps(lines[1..]) == p.users + UserMaps(lines)
  {
    AllOkTail(lines);
    StepCommon(p, q, lines);
    StepUsers(p, q, lines);
  }

  lemma StepCommon(p: Properties, q: Properties, lines: seq<string>)
    requires lines != [] && AllOk(lines) && Step(p, lines[0]) == Ok(q)
    ensures AllOk(lines[1..])
    ensures Insert(q.common, CommonPairs(lines[1..])) == Insert(p.common, CommonPairs(lines))
  {
    AllOkTail(lines);
    var x := lines[0];
    var rest := CommonPairs(lines[1..]);
    if Kind(x) == Common {
      var c := CommonPair(x);
      assert CommonPairs(lines) == [c] + rest;
      InsertAppend(p.common, [c], rest);
      assert Insert(p.common, [c]) == q.common by {
        assert [c][1..] == [];
      }
    } else {
      assert CommonPairs(lines) == rest;
      assert q.common == p.common;
    }
  }

  lemma StepUsers(p: Properties, q: Properties, lines: seq<string>)
    requires lines != [] && AllOk(lines) && Step(p, lines[0]) == Ok(q)
    ensures AllOk(lines[1..])
    ensures q.users + UserMaps(lines[1..]) == p.users + UserMaps(lines)
  {
    AllOkTail(lines);
    var x := lines[0];
    var extra := if Kind(x) == User then [UserMap(x)] else [];
    assert q.users == p.users + extra;
    UserMapsCons(lines);
    AppendAssoc(p.users, extra, UserMaps(lines[1..]));
  }

  lemma UserMapsCons(lines: seq<string>)
    requires lines != [] && AllOk(lines)
    ensures AllOk(lines[1..])
    ensures UserMaps(lines) == (if Kind(lines[0]) == User then [UserMap(lines[0])] else []) + UserMaps(lines[1..])
  {
    AllOkTail(lines);
  }

  lemma AppendAssoc<T>(a: seq<T>, b: seq<T>, c: seq<T>)
    ensures a + b + c == a + (b + c)
  {
  }

  /** `read_properties_file` on the lines of a file. */
  function ReadProperties(lines: seq<string>): (r: Result<Properties>)
    ensures r.Ok? <==> forall i :: 0 <= i < |lines| ==> LineOk(lines[i])
    ensures r.Ok? ==> r.value.common == MapOf(CommonPairs(lines))
    ensures r.Ok? ==> r.value.users == UserMaps(lines) && |r.value.users| == |UserLines(lines)|
    ensures r.Err? ==> r.error.Unpack? && Count(r.error.text, "=") != 1
  {
    ParseFrom(Empty, lines)
  }

  /** Reading `a + b` is reading `a`, then continuing over `b`. */
  lemma {:induction false} ParseFromAppend(p: Properties, a: seq<string>, b: seq<string>)
    ensures ParseFrom(p, a + b) ==
      match ParseFrom(p, a)
      case Err(e) => Err(e)
      case Ok(q) => ParseFrom(q, b)
    decreases |a|
  {
    if a == [] {
      assert a + b == b;
    } else {
      assert (a + b)[0] == a[0];
      assert (a + b)[1..] == a[1..] + b;
      match Step(p, a[0])
      case Err(_) =>
      case Ok(q) => ParseFromAppend(q, a[1..], b);
    }
  }

  /** Blank lines, and lines with neither `=` nor `||`, change nothing. */
  lemma IgnoredLine(a: seq<string>, x: string, b: seq<string>)
    requires Kind(x) == Blank || Kind(x) == Other
    ensures ReadProperties(a + [x] + b) == ReadProperties(a + b)
  {
    ParseFromAppend(Empty, a, [x] + b);
    ParseFromAppend(Empty, a, b);
    assert a + [x] + b == a + ([x] + b);
    match ParseFrom(Empty, a)
    case Err(_) =>
    case Ok(q) => ParseFromSkip(q, x, b);
  }

  lemma ParseFromSkip(q: Properties, x: string, b: seq<string>)
    requires Kind(x) == Blank || Kind(x) == Other
    ensures ParseFrom(q, [x] + b) == ParseFrom(q, b)
  {
    assert ([x] + b)[0] == x && ([x] + b)[1..] == b;
    assert Step(q, x) == Ok(q);
  }

  /** A common line sets exactly its own key, overwriting any earlier value,
      and leaves the user list as it was. */
  lemma CommonLineOverwrites(a: seq<string>, x: string)
    requires Kind(x) == Common && LineOk(x) && ReadProperties(a).Ok?
    ensures var p := ReadProperties(a).value;
      ReadProperties(a + [x]) == Ok(Properties(p.common[CommonPair(x).0 := CommonPair(x).1], p.users))
  {
    ParseFromAppend(Empty, a, [x]);
  }

  /** A user line appends exactly one dictionary and leaves the common
      settings as they were. */
  lemma UserLineAppends(a: seq<string>, x: string)
    requires Kind(x) == User && LineOk(x) && ReadProperties(a).Ok?
    ensures var p := ReadProperties(a).value;
      ReadProperties(a + [x]) == Ok(Properties(p.common, p.users + [UserMap(x)]))
  {
    ParseFromAppend(Empty, a, [x]);
  }

  /** Lines that assign no common value to `k` leave its value as it was. */
  lemma {:induction false} LaterLinesKeep(p: Properties, b: seq<string>, k: string)
    requires k in p.common && ParseFrom(p, b).Ok?
    requires forall i :: 0 <= i < |b| && Kind(b[i]) == Common && LineOk(b[i]) ==> CommonPair(b[i]).0 != k
    ensures k in ParseFrom(p, b).value.common && ParseFrom(p, b).value.common[k] == p.common[k]
    decreases |b|
  {
    if b != [] {
      var q := Step(p, b[0]).value;
      assert forall i :: 0 <= i < |b[1..]| ==> b[1..][i] == b[i + 1];
      LaterLinesKeep(q, b[1..], k);
    }
  }

  /** The last common line for a key decides its value. */
  lemma LastCommonLineWins(a: seq<string>, x: string, b: seq<string>)
    requires Kind(x) == Common && LineOk(x) && ReadProperties(a + [x] + b).Ok?
    requires forall i :: 0 <= i < |b| && Kind(b[i]) == Common && LineOk(b[i]) ==> CommonPair(b[i]).0 != CommonPair(x).0
    ensures CommonPair(x).0 in ReadProperties(a + [x] + b).value.common
    ensures ReadProperties(a + [x] + b).value.common[CommonPair(x).0] == CommonPair(x).1
  {
    ParseFromAppend(Empty, a + [x], b);
    ParseFromAppend(Empty, a, [x]);
    var q := ParseFrom(Empty, a + [x]).value;
    LaterLinesKeep(q, b, CommonPair(x).0);
  }

  /** A user line ending in `||` always fails: its last field is empty or a
      lone `|`, neither of which holds an `=`. */
  lemma TrailingSeparatorFails(line: string)
    requires Kind(line) == User
    requires var t := Strip(line); |t| >= 2 && t[|t| - 2..] == "||"
    ensures !LineOk(line)
    ensures forall lines :: line in lines ==> ReadProperties(lines).Err?
  {
    var t := Strip(line);
    var fields := UserFields(line);
    var last := Last(fields);
    SplitLast(t, "||");
    SplitPiecesFree(t, "||");
    assert !Contains(last, "||");
    if |last| >= 2 {
      assert last[|last| - 2..] == "||";
      assert Occurs(last, "||", |last| - 2);
      assert false;
    }
    if last == [] {
      assert Count(last, "=") == 0;
    } else {
      assert last == "|";
      assert last[..1] == "|" && last[1..] == [];
      assert Count(last, "=") == Count([], "=") == 0;
    }
    assert !FieldsOk(fields);
  }
}
