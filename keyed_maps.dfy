// The pattern both payload conversions follow: convert each item to a
// (key, value) entry with `?` on failure, and `insert` the entries one by one
// into a fresh `HashMap`.

module KeyedMaps {
  import opened Wrappers

  /** Converting the items in order: the first failing item's error, or every
      entry. */
  function Entries<A, K, V, E>(items: seq<A>, f: A -> Result<(K, V), E>): (r: Result<seq<(K, V)>, E>)
    ensures r.Ok? ==> |r.value| == |items|
  {
    if items == [] then Ok([])
    else
      match Entries(items[..|items| - 1], f)
      case Err(e) => Err(e)
      case Ok(es) =>
        match f(items[|items| - 1])
        case Err(e) => Err(e)
        case Ok(kv) => Ok(es + [kv])
  }

  /** The conversion succeeds exactly when every item converts, and entry `i`
      is then item `i`'s. */
  lemma {:induction false} EntriesOk<A, K, V, E>(items: seq<A>, f: A -> Result<(K, V), E>)
    ensures Entries(items, f).Ok? <==> forall i :: 0 <= i < |items| ==> f(items[i]).Ok?
    ensures Entries(items, f).Ok? ==> forall i :: 0 <= i < |items| ==> Entries(items, f).value[i] == f(items[i]).value
  {
    if items != [] {
      var init := items[..|items| - 1];
      EntriesOk(init, f);
      assert forall i :: 0 <= i < |init| ==> init[i] == items[i];
    }
  }

  /** A failure is the error of the first item that does not convert. */
  lemma {:induction false} EntriesFirstError<A, K, V, E>(items: seq<A>, f: A -> Result<(K, V), E>)
    ensures Entries(items, f).Err? ==>
      exists i :: 0 <= i < |items| && f(items[i]).Err? && Entries(items, f).error == f(items[i]).error &&
        forall j :: 0 <= j < i ==> f(items[j]).Ok?
  {
    if items != [] {
      var init := items[..|items| - 1];
      EntriesFirstError(init, f);
      EntriesOk(init, f);
      assert forall i :: 0 <= i < |init| ==> init[i] == items[i];
    }
  }

  /** Once a prefix fails, the items after it are never looked at. */
  lemma {:induction false} EntriesErrSticky<A, K, V, E>(items: seq<A>, f: A -> Result<(K, V), E>, n: nat)
    requires n <= |items| && Entries(items[..n], f).Err?
    ensures Entries(items, f) == Entries(items[..n], f)
    decreases |items| - n
  {
    if n < |items| {
      assert items[..n + 1][..n] == items[..n];
      EntriesErrSticky(items, f, n + 1);
    } else {
      assert items[..n] == items;
    }
  }

  /** The entries of a prefix one item longer. */
  lemma EntriesSnoc<A, K, V, E>(items: seq<A>, f: A -> Result<(K, V), E>, n: nat)
    requires n < |items|
    ensures Entries(items[..n + 1], f) ==
      match Entries(items[..n], f)
      case Err(e) => Err(e)
      case Ok(es) => (match f(items[n]) case Err(e) => Err(e) case Ok(kv) => Ok(es + [kv]))
  {
    assert items[..n + 1][..n] == items[..n];
  }

  /** `HashMap::insert` of every entry in order. */
  function InsertAll<K, V>(m: map<K, V>, es: seq<(K, V)>): (r: map<K, V>)
  {
    if es == [] then m else InsertAll(m, es[..|es| - 1])[es[|es| - 1].0 := es[|es| - 1].1]
  }

  /** The keys of the entries. */
  function KeysOf<K, V>(es: seq<(K, V)>): set<K> {
    set i | 0 <= i < |es| :: es[i].0
  }

  /** The key set grows by exactly the entries' keys. */
  lemma {:induction false} InsertAllKeys<K, V>(m: map<K, V>, es: seq<(K, V)>)
    ensures InsertAll(m, es).Keys == m.Keys + KeysOf(es)
  {
    if es != [] {
      var init := es[..|es| - 1];
      InsertAllKeys(m, init);
      assert KeysOf(es) == KeysOf(init) + {es[|es| - 1].0} by {
        forall k | k in KeysOf(es) ensures k in KeysOf(init) + {es[|es| - 1].0} {
          var i :| 0 <= i < |es| && es[i].0 == k;
          if i < |init| {
            assert init[i] == es[i];
          }
        }
        forall k | k in KeysOf(init) ensures k in KeysOf(es) {
          var i :| 0 <= i < |init| && init[i].0 == k;
          assert es[i] == init[i];
        }
      }
    }
  }

  /** A key keeps the value of its last entry. */
  lemma {:induction false} InsertAllLastWins<K, V>(m: map<K, V>, es: seq<(K, V)>, i: nat)
    requires i < |es| && forall j :: i < j < |es| ==> es[j].0 != es[i].0
    ensures es[i].0 in InsertAll(m, es) && InsertAll(m, es)[es[i].0] == es[i].1
  {
    if i < |es| - 1 {
      var init := es[..|es| - 1];
      assert init[i] == es[i];
      InsertAllLastWins(m, init, i);
    }
  }

  /** A key no entry names keeps its value in `m`. */
  lemma {:induction false} InsertAllUntouched<K, V>(m: map<K, V>, es: seq<(K, V)>, k: K)
    requires k !in KeysOf(es)
    ensures k in InsertAll(m, es) <==> k in m
    ensures k in m ==> InsertAll(m, es)[k] == m[k]
  {
    if es != [] {
      var init := es[..|es| - 1];
      assert k != es[|es| - 1].0;
      assert KeysOf(init) <= KeysOf(es) by {
        forall x | x in KeysOf(init) ensures x in KeysOf(es) {
          var i :| 0 <= i < |init| && init[i].0 == x;
          assert es[i] == init[i];
        }
      }
      InsertAllUntouched(m, init, k);
    }
  }

  /** The map after one more entry. */
  lemma InsertAllSnoc<K, V>(m: map<K, V>, es: seq<(K, V)>, kv: (K, V))
    ensures InsertAll(m, es + [kv]) == InsertAll(m, es)[kv.0 := kv.1]
  {
    assert (es + [kv])[..|es|] == es;
  }

  /** The map a conversion loop builds: the first error, or every entry
      inserted in order into an empty map. */
  function Collect<A, K, V, E>(items: seq<A>, f: A -> Result<(K, V), E>): (r: Result<map<K, V>, E>)
    ensures r.Ok? <==> Entries(items, f).Ok?
  {
    match Entries(items, f)
    case Err(e) => Err(e)
    case Ok(es) => Ok(InsertAll(map[], es))
  }

  /** What `Collect` builds: the keys are exactly the converted items' keys,
      and each holds the value of the last item with that key. */
  lemma CollectMap<A, K, V, E>(items: seq<A>, f: A -> Result<(K, V), E>)
    requires Collect(items, f).Ok?
    ensures forall i :: 0 <= i < |items| ==> f(items[i]).Ok?
    ensures Collect(items, f).value.Keys == set i | 0 <= i < |items| :: f(items[i]).value.0
    ensures forall i :: 0 <= i < |items| && (forall j :: i < j < |items| ==> f(items[j]).value.0 != f(items[i]).value.0) ==>
      Collect(items, f).value[f(items[i]).value.0] == f(items[i]).value.1
  {
    var es := Entries(items, f).value;
    EntriesOk(items, f);
    InsertAllKeys(map[], es);
    assert KeysOf(es) == set i | 0 <= i < |items| :: f(items[i]).value.0 by {
      forall k | k in KeysOf(es) ensures k in set i | 0 <= i < |items| :: f(items[i]).value.0 {
        var i :| 0 <= i < |es| && es[i].0 == k;
        assert f(items[i]).value.0 == k;
      }
    }
    forall i | 0 <= i < |items| && (forall j :: i < j < |items| ==> f(items[j]).value.0 != f(items[i]).value.0)
      ensures Collect(items, f).value[f(items[i]).value.0] == f(items[i]).value.1
    {
      InsertAllLastWins(map[], es, i);
    }
  }

  /** A failure is the first failing item's error. */
  lemma CollectError<A, K, V, E>(items: seq<A>, f: A -> Result<(K, V), E>)
    requires Collect(items, f).Err?
    ensures exists i ::
      0 <= i < |items| && f(items[i]).Err? && Collect(items, f).error == f(items[i]).error &&
      forall j :: 0 <= j < i ==> f(items[j]).Ok?
  {
    EntriesFirstError(items, f);
  }
}
