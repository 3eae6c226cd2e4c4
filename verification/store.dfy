/** The plugin's key-value storage as the test doubles keep it: a Python
    dict from keys to values, which remembers insertion order. */
module Store {
  import opened Results

  type Entry = (string, string)

  /** The dict's items in insertion order. */
  type Dict = seq<Entry>

  /** A dict holds each key at most once. */
  predicate Unique(d: Dict) {
    forall i, j :: 0 <= i < j < |d| ==> d[i].0 != d[j].0
  }

  predicate HasKey(d: Dict, k: string) {
    exists i :: 0 <= i < |d| && d[i].0 == k
  }

  /** The position of the first item with key `k`. */
  function IndexOf(d: Dict, k: string): (i: nat)
    requires HasKey(d, k)
    ensures i < |d| && d[i].0 == k
    ensures forall j :: 0 <= j < i ==> d[j].0 != k
  {
    if d[0].0 == k then 0
    else
      assert HasKey(d[1..], k) by {
        var j :| 0 <= j < |d| && d[j].0 == k;
        assert d[1..][j - 1] == d[j];
      }
      1 + IndexOf(d[1..], k)
  }

  /** The first position holding a key is the one IndexOf finds. */
  lemma FirstIndex(d: Dict, k: string, i: int)
    requires 0 <= i < |d| && d[i].0 == k
    requires forall j :: 0 <= j < i ==> d[j].0 != k
    ensures HasKey(d, k) && IndexOf(d, k) == i
  {
  }

  /** `d.get(k)`. */
  function Lookup(d: Dict, k: string): (r: Option<string>)
    ensures r.Some? <==> HasKey(d, k)
    ensures r.Some? ==> (k, r.value) in d
    ensures Unique(d) ==> forall i :: 0 <= i < |d| && d[i].0 == k ==> r == Some(d[i].1)
  {
    if HasKey(d, k) then Some(d[IndexOf(d, k)].1) else None
  }

  /** `d[k] = v`: an existing key keeps its place and takes the new
      value; a new key goes last. */
  function Put(d: Dict, k: string, v: string): (r: Dict)
    ensures HasKey(d, k) ==> |r| == |d|
    ensures !HasKey(d, k) ==> r == d + [(k, v)]
    ensures forall i :: 0 <= i < |d| ==> r[i].0 == d[i].0
  {
    if HasKey(d, k) then d[IndexOf(d, k) := (k, v)] else d + [(k, v)]
  }

  /** After `d[k] = v`, `k` reads `v` and every other key reads what it did. */
  lemma {:induction false} LookupPut(d: Dict, k: string, v: string, k': string)
    ensures Lookup(Put(d, k, v), k') == if k' == k then Some(v) else Lookup(d, k')
  {
    var r := Put(d, k, v);
    if HasKey(d, k) {
      var i := IndexOf(d, k);
      if k' == k {
        FirstIndex(r, k, i);
      } else if HasKey(d, k') {
        var j := IndexOf(d, k');
        FirstIndex(r, k', j);
      } else {
        assert !HasKey(r, k');
      }
    } else {
      if k' == k {
        FirstIndex(r, k, |d|);
      } else if HasKey(d, k') {
        var j := IndexOf(d, k');
        FirstIndex(r, k', j);
      } else {
        assert !HasKey(r, k');
      }
    }
  }

  /** `d[k] = v` keeps every key at most once. */
  lemma PutUnique(d: Dict, k: string, v: string)
    ensures Unique(d) ==> Unique(Put(d, k, v))
  {
  }

  /** `d.get(k)` looks at the first item, then at the rest. */
  lemma LookupCons(d: Dict, k: string)
    requires d != []
    ensures Lookup(d, k) == if d[0].0 == k then Some(d[0].1) else Lookup(d[1..], k)
  {
    var tail := d[1..];
    if d[0].0 == k {
      FirstIndex(d, k, 0);
    } else if HasKey(tail, k) {
      var j := IndexOf(tail, k);
      assert tail[j] == d[j + 1];
      FirstIndex(d, k, j + 1);
    } else {
      if HasKey(d, k) {
        var j :| 0 <= j < |d| && d[j].0 == k;
        assert tail[j - 1] == d[j];
      }
    }
  }

  /** `d.pop(k, None)`: the key goes, everything else stays in order. */
  function Delete(d: Dict, k: string): (r: Dict)
    ensures |r| <= |d|
    ensures forall i :: 0 <= i < |r| ==> r[i].0 != k
  {
    if d == [] then []
    else if d[0].0 == k then Delete(d[1..], k)
    else [d[0]] + Delete(d[1..], k)
  }

  /** `d.pop(k, None)` removes exactly the item with key `k`, if any, and
      keeps the order of the others, the order get_keys lists them in. */
  lemma {:induction false} DeleteKeepsOrder(d: Dict, k: string)
    ensures !HasKey(d, k) ==> Delete(d, k) == d
    ensures Unique(d) && HasKey(d, k) ==> Delete(d, k) == d[..IndexOf(d, k)] + d[IndexOf(d, k) + 1..]
  {
    if d != [] {
      var tail := d[1..];
      assert Unique(d) ==> Unique(tail) by {
        if Unique(d) {
          forall i, j | 0 <= i < j < |tail|
            ensures tail[i].0 != tail[j].0
          {
            assert tail[i] == d[i + 1] && tail[j] == d[j + 1];
          }
        }
      }
      assert HasKey(tail, k) ==> HasKey(d, k) by {
        if HasKey(tail, k) {
          var j :| 0 <= j < |tail| && tail[j].0 == k;
          assert d[j + 1] == tail[j];
        }
      }
      DeleteKeepsOrder(tail, k);
      if d[0].0 == k {
        if Unique(d) {
          assert !HasKey(tail, k);
          assert IndexOf(d, k) == 0;
          assert d[1..] == tail;
        }
      } else {
        assert d == [d[0]] + tail;
        if HasKey(d, k) {
          assert HasKey(tail, k) by {
            var j :| 0 <= j < |d| && d[j].0 == k;
            assert tail[j - 1] == d[j];
          }
          var j := IndexOf(tail, k);
          FirstIndex(d, k, j + 1);
          assert d[..j + 1] == [d[0]] + tail[..j];
          assert d[j + 2..] == tail[j + 1..];
        }
      }
    }
  }

  /** After `d.pop(k, None)`, `k` is gone and every other key reads what it did. */
  lemma {:induction false} LookupDelete(d: Dict, k: string, k': string)
    ensures Lookup(Delete(d, k), k') == if k' == k then None else Lookup(d, k')
  {
    var r := Delete(d, k);
    if k' == k {
      assert !HasKey(r, k);
    } else if d != [] {
      LookupDelete(d[1..], k, k');
      LookupCons(d, k');
      if d[0].0 != k {
        LookupCons(r, k');
        assert r[1..] == Delete(d[1..], k);
      }
    }
  }

  /** `d.pop(k, None)` keeps every key at most once. */
  lemma {:induction false} DeleteUnique(d: Dict, k: string)
    ensures Unique(d) ==> Unique(Delete(d, k))
  {
    if Unique(d) && d != [] {
      var tail := d[1..];
      assert Unique(tail) by {
        forall i, j | 0 <= i < j < |tail|
          ensures tail[i].0 != tail[j].0
        {
          assert tail[i] == d[i + 1] && tail[j] == d[j + 1];
        }
      }
      DeleteUnique(tail, k);
      var rest := Delete(tail, k);
      assert !HasKey(tail, d[0].0);
      LookupDelete(tail, k, d[0].0);
      forall i | 0 <= i < |rest|
        ensures rest[i].0 != d[0].0
      {
        assert HasKey(rest, rest[i].0);
      }
    }
  }
}
