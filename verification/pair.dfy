/** The `key, value = text.split("=")` idiom both scripts use for every
    setting: it succeeds exactly when `text` holds one `=`. */
module Pair {
  import opened Outcome
  import opened Text
  import opened Substitution

  /** `key, value = text.split("=")`, raising on any other number of parts. */
  function KeyValue(text: string): (r: Result<(string, string)>)
    ensures r.Ok? <==> Count(text, "=") == 1
    ensures r.Ok? ==> text == r.value.0 + "=" + r.value.1
    ensures r.Ok? ==> '=' !in r.value.0 && '=' !in r.value.1
    ensures r.Err? ==> r.error == Unpack(text)
  {
    var parts := Split(text, "=");
    ReplaceIsJoinSplit(text, "=", "=");
    if |parts| != 2 then Err(Unpack(text))
    else
      JoinSplit(text, "=");
      SplitPiecesFree(text, "=");
      ContainsChar(parts[0], '=');
      ContainsChar(parts[1], '=');
      Ok((parts[0], parts[1]))
  }

  /** Unpacking undoes writing `key=value` when neither side holds `=`. */
  lemma KeyValueOfPair(key: string, value: string)
    requires '=' !in key && '=' !in value
    ensures KeyValue(key + "=" + value) == Ok((key, value))
  {
    ContainsChar(key, '=');
    ContainsChar(value, '=');
    SplitJoin([key, value], "=");
    assert Join([key, value], "=") == key + "=" + value;
  }
}
