/** A Python dictionary filled by a loop that runs `d[k] = v` once per input
    item and skips the items that assign nothing. */
module Dicts {
  import opened Results

  /** The dictionary left by `d = {}` followed by `d[k] = v` for every
      `Some((k, v))` of `items`, in order. */
  function Assigned<K(==), V>(items: seq<Option<(K, V)>>): map<K, V> {
    if items == [] then map[]
    else
      var prev := Assigned(items[..|items| - 1]);
      match items[|items| - 1]
      case None => prev
      case Some(kv) => prev[kv.0 := kv.1]
  }

  /** How many items assign a key. */
  function Assignments<K(==), V>(items: seq<Option<(K, V)>>): nat {
    if items == [] then 0
    else Assignments(items[..|items| - 1]) + (if items[|items| - 1].Some? then 1 else 0)
  }

  /** Item `i` assigns key `k`. */
  predicate Assigns<K(==), V>(items: seq<Option<(K, V)>>, i: int, k: K) {
    0 <= i < |items| && items[i].Some? && items[i].value.0 == k
  }

  /** Item `i` is the last one that assigns key `k`. */
  predicate LastAssigns<K(==), V>(items: seq<Option<(K, V)>>, i: int, k: K) {
    Assigns(items, i, k) && forall j :: i < j < |items| ==> !Assigns(items, j, k)
  }

  /** Later assignments overwrite: every key holds the value of the last item
      that assigns it. */
  lemma {:induction false} AssignedLastWins<K, V>(items: seq<Option<(K, V)>>, k: K)
    requires k in Assigned(items)
    ensures exists i :: LastAssigns(items, i, k) && Assigned(items)[k] == items[i].value.1
  {
    var n := |items|;
    var prefix := items[..n - 1];
    if Assigns(items, n - 1, k) {
      assert LastAssigns(items, n - 1, k);
    } else {
      var prev := Assigned(prefix);
      assert Assigned(items) == if items[n - 1].Some? then prev[items[n - 1].value.0 := items[n - 1].value.1] else prev;
      assert k in prev && Assigned(items)[k] == prev[k];
      AssignedLastWins(prefix, k);
      var i :| LastAssigns(prefix, i, k) && prev[k] == prefix[i].value.1;
      assert prefix[i] == items[i];
      forall j | i < j < n
        ensures !Assigns(items, j, k)
      {
        if j < n - 1 {
          assert prefix[j] == items[j];
          assert !Assigns(prefix, j, k);
        }
      }
      assert LastAssigns(items, i, k);
    }
  }

  /** A key is in the dictionary exactly when some item assigns it. */
  lemma {:induction false} AssignedHas<K, V>(items: seq<Option<(K, V)>>, k: K)
    ensures k in Assigned(items) <==> exists i :: Assigns(items, i, k)
  {
    if items != [] {
      var n := |items|;
      var prefix := items[..n - 1];
      AssignedHas(prefix, k);
      if k in Assigned(items) && !Assigns(items, n - 1, k) {
        var i :| Assigns(prefix, i, k);
        assert prefix[i] == items[i];
        assert Assigns(items, i, k);
      }
      if i :| Assigns(items, i, k) {
        if i < n - 1 {
          assert prefix[i] == items[i];
          assert Assigns(prefix, i, k);
        }
      }
    }
  }

  /** The dictionary has no more keys than there were assignments. */
  lemma {:induction false} AssignedSize<K, V>(items: seq<Option<(K, V)>>)
    ensures |Assigned(items)| <= Assignments(items)
  {
    if items != [] {
      AssignedSize(items[..|items| - 1]);
    }
  }

  /** Each key's value is the one its last assigning item gives. */
  lemma AssignedAt<K, V>(items: seq<Option<(K, V)>>, i: int, k: K)
    requires LastAssigns(items, i, k)
    ensures k in Assigned(items) && Assigned(items)[k] == items[i].value.1
  {
    AssignedHas(items, k);
    AssignedLastWins(items, k);
    var i' :| LastAssigns(items, i', k) && Assigned(items)[k] == items[i'].value.1;
  }

  /** Every entry of the dictionary comes from one of the items. */
  lemma AssignedFrom<K, V>(items: seq<Option<(K, V)>>, k: K)
    requires k in Assigned(items)
    ensures exists i :: 0 <= i < |items| && items[i] == Some((k, Assigned(items)[k]))
  {
    AssignedLastWins(items, k);
  }

  /** Assigning one more item. */
  lemma AssignedSnoc<K, V>(items: seq<Option<(K, V)>>, item: Option<(K, V)>)
    ensures Assigned(items + [item]) == if item.Some? then Assigned(items)[item.value.0 := item.value.1] else Assigned(items)
  {
    assert (items + [item])[..|items|] == items;
  }

  /** The dictionary after one more step of the loop over `items`. */
  lemma AssignedPrefix<K, V>(items: seq<Option<(K, V)>>, i: nat)
    requires i < |items|
    ensures Assigned(items[..i + 1]) == if items[i].Some? then Assigned(items[..i])[items[i].value.0 := items[i].value.1] else Assigned(items[..i])
  {
    assert items[..i + 1][..i] == items[..i];
  }

  /** No input made the loop raise: every one passes `ok`. */
  predicate AllOk<T>(xs: seq<T>, ok: T -> bool) {
    forall i :: 0 <= i < |xs| ==> ok(xs[i])
  }

  /** One more passing input keeps the inputs seen so far passing. */
  lemma AllOkStep<T>(xs: seq<T>, i: nat, ok: T -> bool)
    requires i < |xs| && AllOk(xs[..i], ok) && ok(xs[i])
    ensures AllOk(xs[..i + 1], ok)
  {
    assert forall k :: 0 <= k < i ==> xs[..i + 1][k] == xs[..i][k];
  }

  /** The whole sequence is its longest prefix. */
  lemma PrefixAll<T>(xs: seq<T>)
    ensures xs[..|xs|] == xs
  {
  }
}
