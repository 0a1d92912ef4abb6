/** Python string primitives the two scripts rely on: `str.strip()`,
    the `in` substring test, and `str.split(sep)` / `sep.join(parts)` for a
    non-empty separator. */
module Text {
  import opened Outcome

  /** Python's `str.isspace()` for one character: the code points whose
      bidirectional class is WS, B or S, or whose category is Zs. */
  predicate IsSpace(c: char) {
    var n := c as int;
    || 0x09 <= n <= 0x0D
    || 0x1C <= n <= 0x20
    || n == 0x85 || n == 0xA0 || n == 0x1680
    || 0x2000 <= n <= 0x200A
    || n == 0x2028 || n == 0x2029 || n == 0x202F || n == 0x205F || n == 0x3000
  }

  predicate AllSpace(s: string) {
    forall i :: 0 <= i < |s| ==> IsSpace(s[i])
  }

  /** `s.lstrip()` */
  function StripStart(s: string): string {
    if s != [] && IsSpace(s[0]) then StripStart(s[1..]) else s
  }

  /** `s.rstrip()` */
  function StripEnd(s: string): string {
    if s != [] && IsSpace(s[|s| - 1]) then StripEnd(s[..|s| - 1]) else s
  }

  /** `s.lstrip()` drops exactly the leading whitespace. */
  lemma {:induction false} StripStartSpec(s: string)
    ensures var r := StripStart(s);
      && |r| <= |s| && r == s[|s| - |r|..]
      && AllSpace(s[..|s| - |r|])
      && (r != [] ==> !IsSpace(r[0]))
  {
    if s != [] && IsSpace(s[0]) {
      StripStartSpec(s[1..]);
      var r := StripStart(s);
      assert s[1..][..|s| - 1 - |r|] == s[1..|s| - |r|];
      assert forall k :: 1 <= k < |s| - |r| ==> s[k] == s[1..][..|s| - 1 - |r|][k - 1];
    } else {
      assert s[0..] == s;
    }
  }

  /** `s.rstrip()` drops exactly the trailing whitespace. */
  lemma {:induction false} StripEndSpec(s: string)
    ensures var r := StripEnd(s);
      && |r| <= |s| && r == s[..|r|]
      && AllSpace(s[|r|..])
      && (r != [] ==> !IsSpace(r[|r| - 1]))
  {
    if s != [] && IsSpace(s[|s| - 1]) {
      var p := s[..|s| - 1];
      StripEndSpec(p);
      var r := StripEnd(s);
      assert p[..|r|] == s[..|r|];
      assert forall k :: |r| <= k < |s| - 1 ==> s[k] == p[|r|..][k - |r|];
    } else {
      assert s[..|s|] == s;
    }
  }

  /** `s.strip()` */
  function Strip(s: string): string {
    StripEnd(StripStart(s))
  }

  /** `s.strip()` removes exactly the leading and trailing whitespace: what
      is left is empty only for an all-space line and otherwise starts and
      ends with a non-space character. */
  lemma StripSpec(s: string)
    ensures var r := Strip(s);
      && (r == [] <==> AllSpace(s))
      && (r != [] ==> !IsSpace(r[0]) && !IsSpace(r[|r| - 1]))
      && exists i :: 0 <= i <= |s| - |r| && r == s[i..i + |r|] && AllSpace(s[..i]) && AllSpace(s[i + |r|..])
  {
    var a := StripStart(s);
    var r := StripEnd(a);
    StripStartSpec(s);
    StripEndSpec(a);
    var i := |s| - |a|;
    assert r == s[i..i + |r|] by {
      assert s[i..][..|r|] == s[i..i + |r|];
    }
    assert AllSpace(s[i + |r|..]) by {
      assert s[i + |r|..] == a[|r|..];
    }
    if r == [] {
      assert a[0..] == a;
      SpaceSplice(s, i);
    } else {
      assert r[0] == s[i];
    }
    assert 0 <= i <= |s| - |r| && r == s[i..i + |r|] && AllSpace(s[..i]) && AllSpace(s[i + |r|..]);
  }

  lemma SpaceSplice(s: string, i: nat)
    requires i <= |s| && AllSpace(s[..i]) && AllSpace(s[i..])
    ensures AllSpace(s)
  {
    forall k | 0 <= k < |s| ensures IsSpace(s[k]) {
      if k < i { assert s[k] == s[..i][k]; } else { assert s[k] == s[i..][k - i]; }
    }
  }

  /** Stripping is idempotent: a stripped line is left as it is. */
  lemma StripIdempotent(s: string)
    ensures Strip(Strip(s)) == Strip(s)
  {
    var r := Strip(s);
    StripSpec(s);
    StripStartSpec(r);
    StripEndSpec(r);
    assert StripStart(r) == r;
    assert StripEnd(r) == r;
  }

  /** `t` occurs in `s` starting at index `i`. */
  predicate Occurs(s: string, t: string, i: nat) {
    i + |t| <= |s| && s[i..i + |t|] == t
  }

  /** Python's `t in s`. */
  predicate Contains(s: string, t: string) {
    exists i: nat | i <= |s| :: Occurs(s, t, i)
  }

  /** For a one-character needle, `t in s` is plain membership. */
  lemma ContainsChar(s: string, c: char)
    ensures Contains(s, [c]) <==> c in s
  {
    if c in s {
      var i :| 0 <= i < |s| && s[i] == c;
      assert s[i..i + 1] == [c];
      assert Occurs(s, [c], i);
    }
    if Contains(s, [c]) {
      var i: nat :| i <= |s| && Occurs(s, [c], i);
      assert s[i..i + 1] == [c];
      assert s[i] == s[i..i + 1][0];
    }
  }

  lemma OccursShift(s: string, t: string, j: nat)
    requires s != []
    ensures Occurs(s[1..], t, j) <==> Occurs(s, t, j + 1)
  {
    if j + 1 + |t| <= |s| {
      assert s[1..][j..j + |t|] == s[j + 1..j + 1 + |t|];
    }
  }

  lemma ContainsTail(s: string, t: string)
    requires s != []
    ensures Contains(s, t) <==> Occurs(s, t, 0) || Contains(s[1..], t)
  {
    if Contains(s, t) && !Occurs(s, t, 0) {
      var i: nat :| i <= |s| && Occurs(s, t, i);
      OccursShift(s, t, i - 1);
    }
    if Contains(s[1..], t) {
      var j: nat :| j <= |s[1..]| && Occurs(s[1..], t, j);
      OccursShift(s, t, j);
    }
  }

  lemma NoEarlierShift(s: string, t: string, k: nat)
    requires s != [] && !Occurs(s, t, 0)
    requires forall j: nat :: j < k ==> !Occurs(s[1..], t, j)
    ensures forall j: nat :: j < k + 1 ==> !Occurs(s, t, j)
  {
    forall j: nat | 0 < j < k + 1 ensures !Occurs(s, t, j) {
      OccursShift(s, t, j - 1);
    }
  }

  /** `s.find(t)` for non-empty `t`: the first index where `t` occurs. */
  function IndexOf(s: string, t: string): (r: Option<nat>)
    requires t != []
    ensures r.Some? ==> Occurs(s, t, r.value)
    ensures r.Some? ==> forall j: nat :: j < r.value ==> !Occurs(s, t, j)
    ensures r.None? <==> !Contains(s, t)
    decreases |s|
  {
    if |s| < |t| then None
    else if s[..|t|] == t then Some(0)
    else
      assert !Occurs(s, t, 0);
      match IndexOf(s[1..], t)
      case None => ContainsTail(s, t); None
      case Some(i) => OccursShift(s, t, i); NoEarlierShift(s, t, i); Some(i + 1)
  }

  /** `s.split(sep)` for a non-empty separator: the pieces between the
      non-overlapping occurrences of `sep`, found left to right. */
  function Split(s: string, sep: string): (parts: seq<string>)
    requires sep != []
    ensures |parts| >= 1
    decreases |s|
  {
    match IndexOf(s, sep)
    case None => [s]
    case Some(i) => [s[..i]] + Split(s[i + |sep|..], sep)
  }

  /** The first piece of a split ends where the first separator starts. */
  lemma SplitFirst(s: string, sep: string, i: nat)
    requires sep != [] && IndexOf(s, sep) == Some(i)
    ensures i + |sep| <= |s|
    ensures Split(s, sep) == [s[..i]] + Split(s[i + |sep|..], sep)
  {
    assert Occurs(s, sep, i);
    var r := Split(s, sep);
    assert r == [s[..i]] + Split(s[i + |sep|..], sep);
  }

  /** Text without the separator is one piece. */
  lemma SplitNone(s: string, sep: string)
    requires sep != [] && !Contains(s, sep)
    ensures Split(s, sep) == [s]
  {
  }

  /** `sep.join(parts)` */
  function Join(parts: seq<string>, sep: string): string {
    if |parts| == 0 then []
    else if |parts| == 1 then parts[0]
    else parts[0] + sep + Join(parts[1..], sep)
  }

  /** Joining the pieces of a split with the same separator gives the text back. */
  lemma {:induction false} JoinSplit(s: string, sep: string)
    requires sep != []
    ensures Join(Split(s, sep), sep) == s
    decreases |s|
  {
    match IndexOf(s, sep)
    case None =>
      SplitNone(s, sep);
    case Some(i) =>
      var rest := s[i + |sep|..];
      SplitFirst(s, sep, i);
      JoinSplit(rest, sep);
      JoinCons(s[..i], Split(rest, sep), sep);
      assert s == s[..i] + sep + rest by {
        assert s[i..i + |sep|] == sep;
      }
  }

  lemma JoinCons(a: string, parts: seq<string>, sep: string)
    requires parts != []
    ensures Join([a] + parts, sep) == a + sep + Join(parts, sep)
  {
    assert ([a] + parts)[1..] == parts;
  }

  lemma OccursPrefix(s: string, t: string, i: nat, j: nat)
    requires i <= |s| && Occurs(s[..i], t, j)
    ensures Occurs(s, t, j)
  {
    assert s[..i][j..j + |t|] == s[j..j + |t|];
  }

  /** No piece of a split contains the separator. */
  lemma {:induction false} SplitPiecesFree(s: string, sep: string)
    requires sep != []
    ensures forall k :: 0 <= k < |Split(s, sep)| ==> !Contains(Split(s, sep)[k], sep)
    decreases |s|
  {
    match IndexOf(s, sep)
    case None =>
      SplitNone(s, sep);
    case Some(i) =>
      var rest := s[i + |sep|..];
      SplitFirst(s, sep, i);
      SplitPiecesFree(rest, sep);
      if Contains(s[..i], sep) {
        var j: nat :| Occurs(s[..i], sep, j);
        OccursPrefix(s, sep, i, j);
        assert false;
      }
      assert forall k :: 1 <= k < |Split(s, sep)| ==> Split(s, sep)[k] == Split(rest, sep)[k - 1];
  }

  /** The last piece of a split holds no separator. */
  lemma LastPieceFree(s: string, sep: string)
    requires sep != []
    ensures !Contains(Last(Split(s, sep)), sep)
  {
    SplitPiecesFree(s, sep);
    var ps := Split(s, sep);
    assert !Contains(ps[|ps| - 1], sep);
  }

  /** A split into one piece leaves the text whole. */
  lemma SinglePiece(s: string, sep: string)
    requires sep != [] && |Split(s, sep)| == 1
    ensures Last(Split(s, sep)) == s
  {
    JoinSplit(s, sep);
  }

  /** The last element of a non-empty sequence, Python's `xs[-1]`. */
  function Last<T>(xs: seq<T>): T
    requires xs != []
  {
    xs[|xs| - 1]
  }

  /** Joining at least two pieces ends with the separator and the last piece. */
  lemma {:induction false} JoinLast(parts: seq<string>, sep: string)
    requires |parts| > 1
    ensures Join(parts, sep) == Join(parts[..|parts| - 1], sep) + sep + Last(parts)
    decreases |parts|
  {
    if |parts| > 2 {
      JoinLast(parts[1..], sep);
      assert parts[1..][..|parts| - 2] == parts[..|parts| - 1][1..];
    }
  }

  /** Extending a join by one more piece. */
  lemma JoinSnoc(parts: seq<string>, k: nat, sep: string)
    requires 0 < k < |parts|
    ensures Join(parts[..k + 1], sep) == Join(parts[..k], sep) + sep + parts[k]
  {
    JoinLast(parts[..k + 1], sep);
    assert parts[..k + 1][..k] == parts[..k];
  }

  /** Joining two non-empty runs of pieces puts one separator between them. */
  lemma {:induction false} JoinAppend(a: seq<string>, b: seq<string>, sep: string)
    requires a != [] && b != []
    ensures Join(a + b, sep) == Join(a, sep) + sep + Join(b, sep)
    decreases |a|
  {
    assert a + b == [a[0]] + (a[1..] + b);
    JoinCons(a[0], a[1..] + b, sep);
    if |a| > 1 {
      JoinAppend(a[1..], b, sep);
      assert a == [a[0]] + a[1..];
      JoinCons(a[0], a[1..], sep);
    }
  }

  /** Python's `s.endswith(suffix)`. */
  predicate EndsWith(s: string, suffix: string) {
    |suffix| <= |s| && s[|s| - |suffix|..] == suffix
  }

  /** The last piece of a split is a suffix of the text and, when there is
      more than one piece, the separator stands right before it. */
  lemma SplitLast(s: string, sep: string)
    requires sep != []
    ensures |Last(Split(s, sep))| <= |s|
    ensures s[|s| - |Last(Split(s, sep))|..] == Last(Split(s, sep))
    ensures |Split(s, sep)| > 1 ==>
      |Last(Split(s, sep))| + |sep| <= |s| &&
      s[|s| - |Last(Split(s, sep))| - |sep|..|s| - |Last(Split(s, sep))|] == sep
  {
    var ps := Split(s, sep);
    JoinSplit(s, sep);
    if |ps| > 1 {
      JoinLast(ps, sep);
      var head := Join(ps[..|ps| - 1], sep);
      assert s == head + sep + Last(ps);
      assert s[|head| + |sep|..] == Last(ps);
      assert s[|head|..|head| + |sep|] == sep;
    }
  }

  lemma FirstOccurrenceAtJoint(a: string, sep: string, b: string)
    requires |sep| == 1 && !Contains(a, sep)
    ensures IndexOf(a + sep + b, sep) == Some(|a|)
  {
    var s := a + sep + b;
    assert Occurs(s, sep, |a|) by { assert s[|a|..|a| + 1] == sep; }
    forall j: nat | j < |a| ensures !Occurs(s, sep, j) {
      assert s[j..j + 1] == a[j..j + 1];
      assert !Occurs(a, sep, j);
    }
  }

  /** Splitting on a one-character separator undoes joining pieces that do
      not contain it. */
  lemma {:induction false} SplitJoin(parts: seq<string>, sep: string)
    requires |sep| == 1 && |parts| >= 1
    requires forall k :: 0 <= k < |parts| ==> !Contains(parts[k], sep)
    ensures Split(Join(parts, sep), sep) == parts
    decreases |parts|
  {
    if |parts| == 1 {
      assert IndexOf(parts[0], sep).None?;
    } else {
      var a, rest := parts[0], Join(parts[1..], sep);
      var s := a + sep + rest;
      FirstOccurrenceAtJoint(a, sep, rest);
      assert s[..|a|] == a;
      assert s[|a| + |sep|..] == rest;
      SplitJoin(parts[1..], sep);
    }
  }
}
