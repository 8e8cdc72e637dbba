/** The delete-else-create rule shared by the like toggles and the
    subscription toggle: `findOneAndDelete` on the key; when nothing was
    deleted, `create` a record carrying that key. The presence of a record
    is the only "liked" / "subscribed" state there is. */
module Toggle {
  import opened Common
  import Store

  /** How many records carry key `k`. */
  function CountKey<T, K(==)>(rows: seq<T>, key: T -> K, k: K): nat {
    if rows == [] then 0
    else (if key(rows[0]) == k then 1 else 0) + CountKey(rows[1..], key, k)
  }

  /** The records whose key is not `k`, in table order. */
  function Others<T, K(==)>(rows: seq<T>, key: T -> K, k: K): seq<T> {
    if rows == [] then []
    else (if key(rows[0]) == k then [] else [rows[0]]) + Others(rows[1..], key, k)
  }

  lemma {:induction false} ConcatCounts<T, K>(a: seq<T>, b: seq<T>, key: T -> K, k: K)
    ensures CountKey(a + b, key, k) == CountKey(a, key, k) + CountKey(b, key, k)
    ensures Others(a + b, key, k) == Others(a, key, k) + Others(b, key, k)
  {
    if a != [] {
      assert (a + b)[0] == a[0] && (a + b)[1..] == a[1..] + b;
      ConcatCounts(a[1..], b, key, k);
    } else {
      assert a + b == b;
    }
  }

  lemma {:induction false} NoneWithKey<T, K>(rows: seq<T>, key: T -> K, k: K)
    ensures CountKey(rows, key, k) == 0 <==> forall j :: 0 <= j < |rows| ==> key(rows[j]) != k
    ensures CountKey(rows, key, k) == 0 ==> Others(rows, key, k) == rows
  {
    if rows != [] {
      NoneWithKey(rows[1..], key, k);
      assert forall j :: 1 <= j < |rows| ==> rows[j] == rows[1..][j - 1];
      assert rows == [rows[0]] + rows[1..];
    }
  }

  /** Dropping the records of key `k` does not change the count of any
      other key. */
  lemma {:induction false} OthersKeepOtherCounts<T, K>(rows: seq<T>, key: T -> K, k: K, k': K)
    requires k' != k
    ensures CountKey(Others(rows, key, k), key, k') == CountKey(rows, key, k')
  {
    if rows != [] {
      OthersKeepOtherCounts(rows[1..], key, k, k');
      var head := if key(rows[0]) == k then [] else [rows[0]];
      ConcatCounts(head, Others(rows[1..], key, k), key, k');
      if head != [] {
        assert head[1..] == [];
      }
    }
  }

  /** `findOneAndDelete`'s choice: the first record with key `k`. */
  function KeyIndex<T, K(==)>(rows: seq<T>, key: T -> K, k: K): (r: Option<nat>)
    ensures r.None? <==> CountKey(rows, key, k) == 0
    ensures r.Some? ==> r.value < |rows| && key(rows[r.value]) == k
    ensures r.Some? ==> forall j :: 0 <= j < r.value ==> key(rows[j]) != k
  {
    if rows == [] then None
    else if key(rows[0]) == k then Some(0)
    else
      match KeyIndex(rows[1..], key, k)
      case Some(i) => Some(i + 1)
      case None => None
  }

  /** The table after a toggle and the record `findOneAndDelete` returned. */
  datatype Toggled<T> = Toggled(rows: seq<T>, deleted: Option<T>)

  /** One toggle of key `k`; `created` is the record `create` would insert. */
  function ToggleRows<T, K(==)>(rows: seq<T>, key: T -> K, k: K, created: T): (r: Toggled<T>)
    requires key(created) == k
    ensures r.deleted.Some? <==> CountKey(rows, key, k) > 0
    ensures r.deleted.Some? ==> r.deleted.value in rows && key(r.deleted.value) == k
    ensures CountKey(r.rows, key, k) == if CountKey(rows, key, k) > 0 then CountKey(rows, key, k) - 1 else 1
    ensures Others(r.rows, key, k) == Others(rows, key, k)
    ensures r.deleted.None? ==> r.rows == rows + [created]
    ensures r.deleted.Some? ==> r.rows == Store.RemoveAt(rows, KeyIndex(rows, key, k).value)
  {
    match KeyIndex(rows, key, k)
    case Some(i) =>
      RemoveKeyCounts(rows, key, k, i);
      Toggled(Store.RemoveAt(rows, i), Some(rows[i]))
    case None =>
      AppendKeyCounts(rows, key, k, created);
      Toggled(rows + [created], None)
  }

  /** Removing a record of key `k` lowers its count by one and keeps the
      others. */
  lemma {:induction false} RemoveKeyCounts<T, K>(rows: seq<T>, key: T -> K, k: K, i: nat)
    requires i < |rows| && key(rows[i]) == k
    ensures CountKey(Store.RemoveAt(rows, i), key, k) == CountKey(rows, key, k) - 1
    ensures Others(Store.RemoveAt(rows, i), key, k) == Others(rows, key, k)
    decreases i
  {
    var r := Store.RemoveAt(rows, i);
    if i == 0 {
      assert r == rows[1..];
    } else {
      var tail := Store.RemoveAt(rows[1..], i - 1);
      RemoveKeyCounts(rows[1..], key, k, i - 1);
      assert r == [rows[0]] + tail;
      assert r[0] == rows[0] && r[1..] == tail;
    }
  }

  /** Appending a record of key `k` to a table without one gives it count
      one and keeps the others. */
  lemma AppendKeyCounts<T, K>(rows: seq<T>, key: T -> K, k: K, created: T)
    requires key(created) == k && CountKey(rows, key, k) == 0
    ensures CountKey(rows + [created], key, k) == 1
    ensures Others(rows + [created], key, k) == Others(rows, key, k)
  {
    ConcatCounts(rows, [created], key, k);
    assert CountKey([created], key, k) == 1;
    assert Others([created], key, k) == [];
  }

  /** With at most one record per key, a toggle flips presence. */
  lemma ToggleFlips<T, K>(rows: seq<T>, key: T -> K, k: K, created: T)
    requires key(created) == k && CountKey(rows, key, k) <= 1
    ensures (CountKey(ToggleRows(rows, key, k, created).rows, key, k) > 0) == (CountKey(rows, key, k) == 0)
    ensures CountKey(ToggleRows(rows, key, k, created).rows, key, k) <= 1
  {
  }

  /** A toggle of key `k` leaves the count of every other key as it was. */
  lemma ToggleKeepsOtherCounts<T, K>(rows: seq<T>, key: T -> K, k: K, created: T, k': K)
    requires key(created) == k && k' != k
    ensures CountKey(ToggleRows(rows, key, k, created).rows, key, k') == CountKey(rows, key, k')
  {
    var r := ToggleRows(rows, key, k, created);
    OthersKeepOtherCounts(rows, key, k, k');
    OthersKeepOtherCounts(r.rows, key, k, k');
  }

  /** At most one record per key: what a table only ever changed by toggles
      keeps, starting from empty. */
  ghost predicate AtMostOnePerKey<T, K(!new)>(rows: seq<T>, key: T -> K) {
    forall k :: CountKey(rows, key, k) <= 1
  }

  lemma ToggleKeepsAtMostOne<T, K(!new)>(rows: seq<T>, key: T -> K, k: K, created: T)
    requires key(created) == k && AtMostOnePerKey(rows, key)
    ensures AtMostOnePerKey(ToggleRows(rows, key, k, created).rows, key)
  {
    var r := ToggleRows(rows, key, k, created).rows;
    forall k' ensures CountKey(r, key, k') <= 1 {
      if k' == k {
        ToggleFlips(rows, key, k, created);
      } else {
        ToggleKeepsOtherCounts(rows, key, k, created, k');
      }
    }
  }

  /** Toggling an absent key twice restores the table exactly, and the
      second toggle deletes the record the first one created. */
  lemma ToggleTwiceFromAbsent<T, K>(rows: seq<T>, key: T -> K, k: K, first: T, second: T)
    requires key(first) == k && key(second) == k
    requires CountKey(rows, key, k) == 0
    ensures ToggleRows(ToggleRows(rows, key, k, first).rows, key, k, second) == Toggled(rows, Some(first))
  {
    var once := ToggleRows(rows, key, k, first);
    assert once.rows == rows + [first];
    NoneWithKey(rows, key, k);
    var i := KeyIndex(once.rows, key, k);
    assert i.Some? && i.value == |rows| by {
      assert once.rows[|rows|] == first;
    }
    assert Store.RemoveAt(once.rows, |rows|) == rows;
  }

  /** Toggling a key held by exactly one record twice: the record is deleted
      and then re-created, so the table is the other records, in their order,
      followed by the new record. */
  lemma ToggleTwiceFromPresent<T, K>(rows: seq<T>, key: T -> K, k: K, first: T, second: T)
    requires key(first) == k && key(second) == k
    requires CountKey(rows, key, k) == 1
    ensures ToggleRows(rows, key, k, first).deleted.Some?
    ensures ToggleRows(ToggleRows(rows, key, k, first).rows, key, k, second)
         == Toggled(Others(rows, key, k) + [second], None)
  {
    var once := ToggleRows(rows, key, k, first);
    NoneWithKey(once.rows, key, k);
  }
}
