/** Failure-carrying results shared by the backup and restore models.

    The two scripts raise exactly two kinds of exception on bad input:
    a `ValueError` when `key, value = text.split("=")` does not find exactly
    two parts, and a `KeyError` when a required setting is absent.  Both
    abort the script, so a model function returns either a value or the
    first such error. */
module Outcome {

  datatype Option<+T> = None | Some(value: T)

  datatype Error =
    /** `key, value = text.split("=")` failed: `text` does not hold exactly one `=`. */
    | Unpack(text: string)
    /** A dictionary lookup of `key` failed. */
    | MissingKey(key: string)

  datatype Result<+T> = Ok(value: T) | Err(error: Error) {

    predicate IsFailure() {
      Err?
    }

    function PropagateFailure<U>(): Result<U>
      requires Err?
    {
      Err(error)
    }

    function Extract(): T
      requires Ok?
    {
      value
    }
  }

  /** The settings a piece of code reads, in the order it reads them, each
      paired with whether it is present. */
  predicate AllPresent(lookups: seq<(string, bool)>) {
    forall i :: 0 <= i < |lookups| ==> lookups[i].1
  }

  /** The lookups of `keys` in `d`, in order. */
  function Present(d: map<string, string>, keys: seq<string>): (r: seq<(string, bool)>)
    ensures |r| == |keys|
    ensures forall i :: 0 <= i < |keys| ==> r[i] == (keys[i], keys[i] in d)
  {
    seq(|keys|, i requires 0 <= i < |keys| => (keys[i], keys[i] in d))
  }

  /** `e` is the `KeyError` raised by the first absent setting of `lookups`:
      every setting read before it is present. */
  predicate FirstMissing(e: Error, lookups: seq<(string, bool)>) {
    exists i :: 0 <= i < |lookups| && !lookups[i].1 && e == MissingKey(lookups[i].0)
      && forall j :: 0 <= j < i ==> lookups[j].1
  }

  /** Looks `key` up in a settings dictionary the way `d[key]` does. */
  function Lookup(d: map<string, string>, key: string): (r: Result<string>)
    ensures r.Ok? <==> key in d
    ensures r.Ok? ==> r.value == d[key]
    ensures r.Err? ==> r.error == MissingKey(key)
  {
    if key in d then Ok(d[key]) else Err(MissingKey(key))
  }

  /** The setting at `i` is the first absent one. */
  lemma MissingAt(e: Error, lookups: seq<(string, bool)>, i: nat)
    requires i < |lookups| && !lookups[i].1 && e == MissingKey(lookups[i].0)
    requires forall j :: 0 <= j < i ==> lookups[j].1
    ensures FirstMissing(e, lookups)
  {
  }

  /** A first absent setting stays first when more lookups follow. */
  lemma FirstMissingPrefix(e: Error, a: seq<(string, bool)>, b: seq<(string, bool)>)
    requires FirstMissing(e, a)
    ensures FirstMissing(e, a + b)
  {
    var i :| 0 <= i < |a| && !a[i].1 && e == MissingKey(a[i].0) && forall j :: 0 <= j < i ==> a[j].1;
    MissingAt(e, a + b, i);
  }

  /** After lookups that all succeed, the first absent setting of the rest
      is the first of all. */
  lemma FirstMissingAfter(e: Error, a: seq<(string, bool)>, b: seq<(string, bool)>)
    requires AllPresent(a) && FirstMissing(e, b)
    ensures FirstMissing(e, a + b)
  {
    var i :| 0 <= i < |b| && !b[i].1 && e == MissingKey(b[i].0) && forall j :: 0 <= j < i ==> b[j].1;
    assert (a + b)[|a| + i] == b[i];
    MissingAt(e, a + b, |a| + i);
  }

  lemma PresentAppend(d: map<string, string>, a: seq<string>, b: seq<string>)
    ensures Present(d, a + b) == Present(d, a) + Present(d, b)
  {
  }
}
