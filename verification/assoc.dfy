/** Dictionaries built by successive assignment, as both scripts build
    theirs: `d[key] = value` for each pair in turn, so the last pair with a
    given key decides its value. */
module Assoc {

  /** The keys of a sequence of pairs. */
  function KeysOf<K, V>(pairs: seq<(K, V)>): set<K> {
    set i | 0 <= i < |pairs| :: pairs[i].0
  }

  /** `for k, v in pairs: d[k] = v` */
  function Insert<K, V>(d: map<K, V>, pairs: seq<(K, V)>): (r: map<K, V>)
    ensures r.Keys == d.Keys + KeysOf(pairs)
    decreases |pairs|
  {
    if pairs == [] then d
    else
      var r := Insert(d[pairs[0].0 := pairs[0].1], pairs[1..]);
      assert KeysOf(pairs) == {pairs[0].0} + KeysOf(pairs[1..]) by {
        forall k | k in KeysOf(pairs) ensures k in {pairs[0].0} + KeysOf(pairs[1..]) {
          var i :| 0 <= i < |pairs| && pairs[i].0 == k;
          if i > 0 { assert pairs[1..][i - 1].0 == k; }
        }
      }
      r
  }

  /** The dictionary built from empty by the pairs in order. */
  function MapOf<K, V>(pairs: seq<(K, V)>): map<K, V> {
    Insert(map[], pairs)
  }

  /** The value of a key is the one from its last pair. */
  lemma {:induction false} InsertLastWins<K, V>(d: map<K, V>, pairs: seq<(K, V)>, i: nat)
    requires i < |pairs|
    requires forall j :: i < j < |pairs| ==> pairs[j].0 != pairs[i].0
    ensures pairs[i].0 in Insert(d, pairs)
    ensures Insert(d, pairs)[pairs[i].0] == pairs[i].1
    decreases |pairs|
  {
    var d' := d[pairs[0].0 := pairs[0].1];
    if i == 0 {
      InsertKeeps(d', pairs[1..], pairs[0].0);
    } else {
      InsertLastWins(d', pairs[1..], i - 1);
    }
  }

  /** A key no pair mentions keeps the value it had before. */
  lemma {:induction false} InsertKeeps<K, V>(d: map<K, V>, pairs: seq<(K, V)>, k: K)
    requires k in d
    requires forall j :: 0 <= j < |pairs| ==> pairs[j].0 != k
    ensures k in Insert(d, pairs) && Insert(d, pairs)[k] == d[k]
    decreases |pairs|
  {
    if pairs != [] {
      InsertKeeps(d[pairs[0].0 := pairs[0].1], pairs[1..], k);
    }
  }

  /** Assigning the pairs of `a + b` is assigning those of `a`, then those of `b`. */
  lemma {:induction false} InsertAppend<K, V>(d: map<K, V>, a: seq<(K, V)>, b: seq<(K, V)>)
    ensures Insert(d, a + b) == Insert(Insert(d, a), b)
    decreases |a|
  {
    if a == [] {
      assert a + b == b;
    } else {
      assert (a + b)[1..] == a[1..] + b;
      InsertAppend(d[a[0].0 := a[0].1], a[1..], b);
    }
  }
}
