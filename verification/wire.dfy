/** Building a wire mapping from a dict display whose values are computed
    left to right, any of which may raise. */
module Wire {
  import opened Results
  import opened Values

  /** One `key: expression` item of a dict display, with the outcome of
      evaluating its expression. */
  type Entry = (string, Result<Value>)

  predicate AllOk(entries: seq<Entry>) {
    forall i :: 0 <= i < |entries| ==> entries[i].1.Ok?
  }

  predicate DistinctKeys(entries: seq<Entry>) {
    forall i, j :: 0 <= i < j < |entries| ==> entries[i].0 != entries[j].0
  }

  /** The dict the display evaluates to, or the exception of its first
      failing item. */
  function Collect(entries: seq<Entry>): (r: Result<WireMap>)
    ensures r.Ok? <==> AllOk(entries)
    ensures r.Ok? ==> r.value.Keys == KeysOf(entries)
    ensures r.Err? ==> exists i :: FirstFailure(entries, i) && r.error == entries[i].1.error
  {
    if entries == [] then Ok(map[])
    else
      var v :- entries[0].1;
      var rest :- Collect(entries[1..]);
      assert forall i :: 0 < i < |entries| ==> entries[1..][i - 1] == entries[i];
      KeysOfCons(entries);
      Ok(map[entries[0].0 := v] + rest)
  }

  function KeysOf(entries: seq<Entry>): set<string> {
    set i | 0 <= i < |entries| :: entries[i].0
  }

  lemma KeysOfCons(entries: seq<Entry>)
    requires entries != []
    ensures KeysOf(entries) == {entries[0].0} + KeysOf(entries[1..])
  {
    var rest := entries[1..];
    forall k | k in KeysOf(entries)
      ensures k in {entries[0].0} + KeysOf(rest)
    {
      var i :| 0 <= i < |entries| && entries[i].0 == k;
      if i > 0 {
        assert rest[i - 1] == entries[i];
      }
    }
    forall k | k in KeysOf(rest)
      ensures k in KeysOf(entries)
    {
      var i :| 0 <= i < |rest| && rest[i].0 == k;
      assert entries[i + 1] == rest[i];
    }
  }

  /** The items of a display with keys `keys` whose values evaluate to `results`. */
  function Zip(keys: seq<string>, results: seq<Result<Value>>): (e: seq<Entry>)
    requires |keys| == |results|
    ensures |e| == |keys|
    ensures forall i :: 0 <= i < |e| ==> e[i] == (keys[i], results[i])
  {
    seq(|keys|, i requires 0 <= i < |keys| => (keys[i], results[i]))
  }

  lemma ZipFacts(keys: seq<string>, results: seq<Result<Value>>)
    requires |keys| == |results|
    ensures AllOk(Zip(keys, results)) <==> forall i :: 0 <= i < |results| ==> results[i].Ok?
    ensures KeysOf(Zip(keys, results)) == set i | 0 <= i < |keys| :: keys[i]
    ensures (forall i, j :: 0 <= i < j < |keys| ==> keys[i] != keys[j]) ==> DistinctKeys(Zip(keys, results))
    ensures forall i :: FirstFailure(Zip(keys, results), i) ==> results[i].Err?
  {
  }

  /** Item `i` is the first one whose evaluation raises. */
  predicate FirstFailure(entries: seq<Entry>, i: int) {
    && 0 <= i < |entries|
    && entries[i].1.Err?
    && forall j :: 0 <= j < i ==> entries[j].1.Ok?
  }

  /** With distinct keys, every key maps to its own item's value. */
  lemma {:induction false} CollectLookup(entries: seq<Entry>, i: int)
    requires AllOk(entries) && DistinctKeys(entries)
    requires 0 <= i < |entries|
    ensures entries[i].0 in Collect(entries).value
    ensures Collect(entries).value[entries[i].0] == entries[i].1.value
    decreases |entries|
  {
    var rest := entries[1..];
    assert AllOk(rest);
    var tail := Collect(rest).value;
    assert Collect(entries).value == map[entries[0].0 := entries[0].1.value] + tail;
    if i > 0 {
      assert rest[i - 1] == entries[i];
      assert DistinctKeys(rest) by {
        forall a, b | 0 <= a < b < |rest|
          ensures rest[a].0 != rest[b].0
        {
          assert rest[a] == entries[a + 1] && rest[b] == entries[b + 1];
        }
      }
      CollectLookup(rest, i - 1);
    } else {
      forall j | 0 <= j < |rest|
        ensures rest[j].0 != entries[0].0
      {
        assert rest[j] == entries[j + 1];
      }
      assert entries[0].0 !in tail;
    }
  }
}
