/** `read_restore_properties_file` of the restore script: a flat file of
    `key=value` lines.  Each line is stripped; blank lines are skipped and
    every other line must hold exactly one `=`.  There is no `||` handling:
    a line is one setting or the read fails. */
module RestoreProperties {
  import opened Outcome
  import opened Text
  import opened Substitution
  import opened Assoc
  import opened Pair

  /** A line the loop gets through without raising. */
  predicate LineOk(line: string) {
    Strip(line) == [] || Count(Strip(line), "=") == 1
  }

  predicate AllOk(lines: seq<string>) {
    forall i :: 0 <= i < |lines| ==> LineOk(lines[i])
  }

  lemma AllOkTail(lines: seq<string>)
    requires lines != []
    ensures AllOk(lines) <==> LineOk(lines[0]) && AllOk(lines[1..])
  {
    if LineOk(lines[0]) && AllOk(lines[1..]) {
      forall i | 0 <= i < |lines| ensures LineOk(lines[i]) {
        if i > 0 { assert lines[i] == lines[1..][i - 1]; }
      }
    }
  }

  /** One pass of the read loop: `restore_data[key] = value`. */
  function Step(d: map<string, string>, line: string): (r: Result<map<string, string>>)
    ensures r.Ok? <==> LineOk(line)
    ensures Strip(line) == [] ==> r == Ok(d)
    ensures r.Ok? && Strip(line) != [] ==>
      var kv := KeyValue(Strip(line)).value;
      && Strip(line) == kv.0 + "=" + kv.1
      && r.value == d[kv.0 := kv.1]
    ensures r.Err? ==> r.error == Unpack(Strip(line)) && Count(Strip(line), "=") != 1
  {
    var t := Strip(line);
    if t == [] then Ok(d)
    else
      var kv :- KeyValue(t);
      Ok(d[kv.0 := kv.1])
  }

  /** The non-blank lines, in file order. */
  function NonBlank(lines: seq<string>): (r: seq<string>)
    ensures forall i :: 0 <= i < |r| ==> Strip(r[i]) != []
  {
    if lines == [] then []
    else (if Strip(lines[0]) == [] then [] else [lines[0]]) + NonBlank(lines[1..])
  }

  /** One `(key, value)` pair per non-blank line, in file order. */
  function Pairs(lines: seq<string>): (r: seq<(string, string)>)
    requires AllOk(lines)
    ensures |r| == |NonBlank(lines)|
    decreases |lines|
  {
    if lines == [] then []
    else
      AllOkTail(lines);
      var t := Strip(lines[0]);
      (if t == [] then [] else [KeyValue(t).value]) + Pairs(lines[1..])
  }

  /** The read loop over `lines`, starting from `d`. */
  function ParseFrom(d: map<string, string>, lines: seq<string>): (r: Result<map<string, string>>)
    ensures r.Ok? <==> AllOk(lines)
    ensures r.Ok? ==> r.value == Insert(d, Pairs(lines))
    ensures r.Err? ==> r.error.Unpack? && Count(r.error.text, "=") != 1
    decreases |lines|
  {
    if lines == [] then Ok(d)
    else
      AllOkTail(lines);
      var d' :- Step(d, lines[0]);
      var r := ParseFrom(d', lines[1..]);
      if r.Ok? then
        ParseFromStep(d, d', lines);
        r
      else r
  }

  lemma ParseFromStep(d: map<string, string>, d': map<string, string>, lines: seq<string>)
    requires lines != [] && AllOk(lines) && Step(d, lines[0]) == Ok(d')
    ensures AllOk(lines[1..])
    ensures Insert(d', Pairs(lines[1..])) == Insert(d, Pairs(lines))
  {
    AllOkTail(lines);
    var t := Strip(lines[0]);
    var rest := Pairs(lines[1..]);
    if t == [] {
      assert Pairs(lines) == rest;
    } else {
      var kv := KeyValue(t).value;
      assert Pairs(lines) == [kv] + rest;
      InsertAppend(d, [kv], rest);
      assert Insert(d, [kv]) == d' by {
        assert [kv][1..] == [];
      }
    }
  }

  /** `read_restore_properties_file` on the lines of a file. */
  function ReadRestoreProperties(lines: seq<string>): (r: Result<map<string, string>>)
    ensures r.Ok? <==> forall i :: 0 <= i < |lines| ==> LineOk(lines[i])
    ensures r.Ok? ==> r.value == MapOf(Pairs(lines)) && r.value.Keys == KeysOf(Pairs(lines))
    ensures r.Err? ==> r.error.Unpack? && Count(r.error.text, "=") != 1
  {
    ParseFrom(map[], lines)
  }

  /** Each pair spells out its line: the stripped line is `key=value`, and
      neither side holds an `=`. */
  lemma {:induction false} PairsSpellLines(lines: seq<string>, i: nat)
    requires AllOk(lines) && i < |Pairs(lines)|
    ensures var kv := Pairs(lines)[i];
      && Strip(NonBlank(lines)[i]) == kv.0 + "=" + kv.1
      && '=' !in kv.0 && '=' !in kv.1
    decreases |lines|
  {
    AllOkTail(lines);
    var t := Strip(lines[0]);
    if t == [] {
      assert Pairs(lines) == Pairs(lines[1..]);
      assert NonBlank(lines) == NonBlank(lines[1..]);
      PairsSpellLines(lines[1..], i);
    } else {
      assert Pairs(lines) == [KeyValue(t).value] + Pairs(lines[1..]);
      assert NonBlank(lines) == [lines[0]] + NonBlank(lines[1..]);
      if i > 0 {
        PairsSpellLines(lines[1..], i - 1);
      }
    }
  }

  /** Reading `a + b` is reading `a`, then continuing over `b`. */
  lemma {:induction false} ParseFromAppend(d: map<string, string>, a: seq<string>, b: seq<string>)
    ensures ParseFrom(d, a + b) ==
      match ParseFrom(d, a)
      case Err(e) => Err(e)
      case Ok(d') => ParseFrom(d', b)
    decreases |a|
  {
    if a == [] {
      assert a + b == b;
    } else {
      assert (a + b)[0] == a[0];
      assert (a + b)[1..] == a[1..] + b;
      match Step(d, a[0])
      case Err(_) =>
      case Ok(d') => ParseFromAppend(d', a[1..], b);
    }
  }

  /** Blank and whitespace-only lines change nothing. */
  lemma BlankLineIgnored(a: seq<string>, x: string, b: seq<string>)
    requires AllSpace(x)
    ensures ReadRestoreProperties(a + [x] + b) == ReadRestoreProperties(a + b)
  {
    StripSpec(x);
    ParseFromAppend(map[], a, [x] + b);
    ParseFromAppend(map[], a, b);
    assert a + [x] + b == a + ([x] + b);
    match ParseFrom(map[], a)
    case Err(_) =>
    case Ok(d) =>
      assert ParseFrom(d, [x] + b) == ParseFrom(d, b) by {
        assert ([x] + b)[0] == x && ([x] + b)[1..] == b;
        assert Step(d, x) == Ok(d);
      }
  }

  /** A later line for a key overwrites the earlier value and touches no
      other key. */
  lemma LaterLineOverwrites(a: seq<string>, key: string, value: string)
    requires ReadRestoreProperties(a).Ok?
    requires '=' !in key && '=' !in value && key + "=" + value == Strip(key + "=" + value)
    ensures ReadRestoreProperties(a + [key + "=" + value]) == Ok(ReadRestoreProperties(a).value[key := value])
  {
    var x := key + "=" + value;
    KeyValueOfPair(key, value);
    ParseFromAppend(map[], a, [x]);
    var d := ParseFrom(map[], a).value;
    assert ParseFrom(d, [x]) == Ok(d[key := value]) by {
      assert [x][0] == x && [x][1..] == [];
      assert Step(d, x) == Ok(d[key := value]);
    }
  }

  /** The value a key ends up with is the one on its last line. */
  lemma LastLineWins(lines: seq<string>, i: nat)
    requires AllOk(lines) && i < |Pairs(lines)|
    requires forall j :: i < j < |Pairs(lines)| ==> Pairs(lines)[j].0 != Pairs(lines)[i].0
    ensures var kv := Pairs(lines)[i];
      ReadRestoreProperties(lines).Ok? && kv.0 in ReadRestoreProperties(lines).value
      && ReadRestoreProperties(lines).value[kv.0] == kv.1
  {
    InsertLastWins(map[], Pairs(lines), i);
  }
}
