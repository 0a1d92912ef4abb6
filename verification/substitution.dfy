/** Python's `str.replace(from, to)` and `str.count(from)`.

    Both scan the text left to right; at each position where `from` starts,
    the occurrence is consumed whole, so occurrences never overlap.  An
    empty `from` matches before every character and once at the end. */
module Substitution {
  import opened Outcome
  import opened Text

  /** `s.count(from)` */
  function Count(s: string, from: string): nat
    decreases |s|
  {
    if from == [] then |s| + 1
    else if |s| < |from| then 0
    else if s[..|from|] == from then 1 + Count(s[|from|..], from)
    else Count(s[1..], from)
  }

  /** `s.replace("", to)`: `to` before every character and at the end. */
  function Interleave(s: string, to: string): string
    decreases |s|
  {
    if s == [] then to else to + [s[0]] + Interleave(s[1..], to)
  }

  /** `s.replace(from, to)` */
  function Replace(s: string, from: string, to: string): string
    decreases |s|
  {
    if from == [] then Interleave(s, to)
    else if |s| < |from| then s
    else if s[..|from|] == from then to + Replace(s[|from|..], from, to)
    else [s[0]] + Replace(s[1..], from, to)
  }

  /** The scan copies a stretch free of `from` unchanged. */
  lemma {:induction false} ScanSkip(s: string, from: string, to: string, i: nat)
    requires from != [] && i <= |s|
    requires forall j: nat :: j < i ==> !Occurs(s, from, j)
    ensures Replace(s, from, to) == s[..i] + Replace(s[i..], from, to)
    decreases i
  {
    if i > 0 {
      NoOccurrenceShift(s, from, i);
      ScanSkip(s[1..], from, to, i - 1);
      ReplaceNoMatch(s, from, to);
      assert s[1..][i - 1..] == s[i..];
      ConsSlice(s, i, Replace(s[i..], from, to));
    } else {
      assert s[..0] == [] && s[0..] == s;
    }
  }

  lemma ConsSlice(s: string, i: nat, t: string)
    requires 0 < i <= |s|
    ensures [s[0]] + (s[1..][..i - 1] + t) == s[..i] + t
  {
    assert [s[0]] + s[1..][..i - 1] == s[..i];
  }

  lemma ReplaceNoMatch(s: string, from: string, to: string)
    requires from != [] && s != [] && !Occurs(s, from, 0)
    ensures Replace(s, from, to) == [s[0]] + Replace(s[1..], from, to)
  {
  }

  /** The count skips a stretch free of `from`. */
  lemma {:induction false} CountSkip(s: string, from: string, i: nat)
    requires from != [] && i <= |s|
    requires forall j: nat :: j < i ==> !Occurs(s, from, j)
    ensures Count(s, from) == Count(s[i..], from)
    decreases i
  {
    if i > 0 {
      assert !Occurs(s, from, 0);
      NoOccurrenceShift(s, from, i);
      CountSkip(s[1..], from, i - 1);
      assert s[1..][i - 1..] == s[i..];
    } else {
      assert s[0..] == s;
    }
  }

  lemma NoOccurrenceShift(s: string, from: string, i: nat)
    requires 0 < i <= |s|
    requires forall j: nat :: j < i ==> !Occurs(s, from, j)
    ensures forall j: nat :: j < i - 1 ==> !Occurs(s[1..], from, j)
  {
    forall j: nat | j < i - 1 ensures !Occurs(s[1..], from, j) {
      OccursShift(s, from, j);
    }
  }

  /** The scan is the same as splitting on `from` and joining with `to`:
      Python's `s.replace(from, to) == to.join(s.split(from))`, and
      `s.count(from)` is one less than the number of pieces. */
  lemma ReplaceIsJoinSplit(s: string, from: string, to: string)
    requires from != []
    ensures Replace(s, from, to) == Join(Split(s, from), to)
    ensures Count(s, from) == |Split(s, from)| - 1
  {
    ReplaceJoinSplit(s, from, to);
    CountSplit(s, from);
  }

  lemma {:induction false} ReplaceJoinSplit(s: string, from: string, to: string)
    requires from != []
    ensures Replace(s, from, to) == Join(Split(s, from), to)
    decreases |s|
  {
    match IndexOf(s, from)
    case None =>
      ReplaceAbsent(s, from, to);
      SplitNone(s, from);
    case Some(i) =>
      var rest := s[i + |from|..];
      ReplaceFirst(s, from, to, i);
      SplitFirst(s, from, i);
      ReplaceJoinSplit(rest, from, to);
      JoinCons(s[..i], Split(rest, from), to);
  }

  /** The scan copies the text before the first occurrence, then puts `to`
      in its place. */
  lemma ReplaceFirst(s: string, from: string, to: string, i: nat)
    requires from != [] && Occurs(s, from, i)
    requires forall j: nat :: j < i ==> !Occurs(s, from, j)
    ensures i + |from| <= |s|
    ensures Replace(s, from, to) == s[..i] + to + Replace(s[i + |from|..], from, to)
  {
    var t, rest := s[i..], s[i + |from|..];
    ScanSkip(s, from, to, i);
    assert t[..|from|] == from && t[|from|..] == rest;
    ReplaceMatch(t, from, to);
    Compose(Replace(s, from, to), s[..i], Replace(t, from, to), to, Replace(rest, from, to));
  }

  lemma Compose(x: string, p: string, y: string, to: string, r: string)
    requires x == p + y && y == to + r
    ensures x == p + to + r
  {
  }

  lemma ReplaceMatch(s: string, from: string, to: string)
    requires from != [] && |from| <= |s| && s[..|from|] == from
    ensures Replace(s, from, to) == to + Replace(s[|from|..], from, to)
  {
  }

  lemma {:induction false} CountSplit(s: string, from: string)
    requires from != []
    ensures Count(s, from) == |Split(s, from)| - 1
    decreases |s|
  {
    match IndexOf(s, from)
    case None =>
      CountAbsent(s, from);
    case Some(i) =>
      CountFirst(s, from, i);
      SplitFirst(s, from, i);
      CountSplit(s[i + |from|..], from);
  }

  lemma CountAbsent(s: string, from: string)
    requires from != [] && !Contains(s, from)
    ensures Count(s, from) == 0
  {
    CountSkip(s, from, |s|);
    assert Count(s[|s|..], from) == 0;
  }

  /** The count up to and through the first occurrence. */
  lemma CountFirst(s: string, from: string, i: nat)
    requires from != [] && IndexOf(s, from) == Some(i)
    ensures i + |from| <= |s|
    ensures Count(s, from) == 1 + Count(s[i + |from|..], from)
  {
    CountSkip(s, from, i);
    var t := s[i..];
    assert t[..|from|] == from;
    assert t[|from|..] == s[i + |from|..];
    CountMatch(t, from);
  }

  lemma CountMatch(s: string, from: string)
    requires from != [] && |from| <= |s| && s[..|from|] == from
    ensures Count(s, from) == 1 + Count(s[|from|..], from)
  {
  }

  lemma {:induction false} InterleaveLength(s: string, to: string)
    ensures |Interleave(s, to)| == |s| + (|s| + 1) * |to|
    decreases |s|
  {
    if s != [] {
      InterleaveLength(s[1..], to);
    }
  }

  /** The length of the rewritten text: each of the `k` occurrences of
      `from` is traded for `to`. */
  lemma {:induction false} ReplaceLength(s: string, from: string, to: string)
    ensures |Replace(s, from, to)| == |s| + Count(s, from) * (|to| - |from|)
    decreases |s|
  {
    if from == [] {
      InterleaveLength(s, to);
    } else if |s| < |from| {
    } else if s[..|from|] == from {
      var rest := s[|from|..];
      ReplaceLength(rest, from, to);
      assert Replace(s, from, to) == to + Replace(rest, from, to);
      assert Count(s, from) == 1 + Count(rest, from);
      TradeArithmetic(|s|, |from|, |to|, Count(rest, from), |Replace(rest, from, to)|);
    } else {
      ReplaceLength(s[1..], from, to);
      assert Replace(s, from, to) == [s[0]] + Replace(s[1..], from, to);
      assert Count(s, from) == Count(s[1..], from);
    }
  }

  lemma TradeArithmetic(n: int, f: int, t: int, k: int, m: int)
    requires m == n - f + k * (t - f)
    ensures t + m == n + (1 + k) * (t - f)
  {
  }

  /** Text without an occurrence of `from` comes back unchanged. */
  lemma ReplaceAbsent(s: string, from: string, to: string)
    requires !Contains(s, from)
    ensures Replace(s, from, to) == s
    ensures Count(s, from) == 0
  {
    if from == [] {
      assert Occurs(s, from, 0);
    } else {
      ScanSkip(s, from, to, |s|);
      CountAbsent(s, from);
      assert s[..|s|] == s;
    }
  }

  lemma {:induction false} InterleaveEmpty(s: string)
    ensures Interleave(s, []) == s
    decreases |s|
  {
    if s != [] {
      InterleaveEmpty(s[1..]);
    }
  }

  /** Replacing a string by itself changes nothing. */
  lemma {:induction false} ReplaceIdentity(s: string, from: string)
    ensures Replace(s, from, from) == s
    decreases |s|
  {
    if from == [] {
      InterleaveEmpty(s);
    } else if |s| < |from| {
    } else if s[..|from|] == from {
      ReplaceIdentity(s[|from|..], from);
    } else {
      ReplaceIdentity(s[1..], from);
    }
  }
}
