/** The document-store operations the controllers call, on one table held as
    a sequence in natural (insertion) order. `idOf` reads a document's `_id`. */
module Store {
  import opened Common

  /** The position of the first document satisfying `p` (the one
      `findOne`-style operations pick when no sort is given). */
  function IndexWhere<T>(rows: seq<T>, p: T -> bool): (r: Option<nat>)
    ensures r.Some? ==> r.value < |rows| && p(rows[r.value])
    ensures r.Some? ==> forall j :: 0 <= j < r.value ==> !p(rows[j])
    ensures r.None? ==> forall j :: 0 <= j < |rows| ==> !p(rows[j])
  {
    if rows == [] then None
    else if p(rows[0]) then Some(0)
    else
      match IndexWhere(rows[1..], p)
      case Some(i) => Some(i + 1)
      case None => None
  }

  function IndexOfId<T>(rows: seq<T>, idOf: T -> Id, id: Id): (r: Option<nat>)
    ensures r.Some? ==> r.value < |rows| && idOf(rows[r.value]) == id
    ensures r.None? ==> forall j :: 0 <= j < |rows| ==> idOf(rows[j]) != id
  {
    IndexWhere(rows, x => idOf(x) == id)
  }

  /** `findById`. */
  function FindById<T>(rows: seq<T>, idOf: T -> Id, id: Id): (r: Option<T>)
    ensures r.Some? ==> r.value in rows && idOf(r.value) == id
    ensures r.None? ==> forall j :: 0 <= j < |rows| ==> idOf(rows[j]) != id
  {
    match IndexOfId(rows, idOf, id)
    case Some(i) => Some(rows[i])
    case None => None
  }

  /** `exists({ _id: id })`. */
  predicate HasId<T>(rows: seq<T>, idOf: T -> Id, id: Id) {
    IndexOfId(rows, idOf, id).Some?
  }

  lemma HasIdMeans<T>(rows: seq<T>, idOf: T -> Id, id: Id)
    ensures HasId(rows, idOf, id) <==> exists j :: 0 <= j < |rows| && idOf(rows[j]) == id
  {
  }

  function RemoveAt<T>(rows: seq<T>, i: nat): (r: seq<T>)
    requires i < |rows|
    ensures |r| == |rows| - 1
    ensures forall j :: 0 <= j < i ==> r[j] == rows[j]
    ensures forall j :: i <= j < |r| ==> r[j] == rows[j + 1]
  {
    rows[..i] + rows[i + 1..]
  }

  /** `findByIdAndDelete`: the removed document, if any, and the table after. */
  datatype Deleted<T> = Deleted(removed: Option<T>, rows: seq<T>)

  function DeleteById<T>(rows: seq<T>, idOf: T -> Id, id: Id): (r: Deleted<T>)
    ensures r.removed.Some? ==> r.removed.value in rows && idOf(r.removed.value) == id
    ensures r.removed.Some? ==> |r.rows| == |rows| - 1
    ensures r.removed.Some? ==>
              var i := IndexOfId(rows, idOf, id).value;
              rows[i] == r.removed.value && r.rows == RemoveAt(rows, i)
    ensures r.removed.Some? ==> multiset(r.rows) + multiset{r.removed.value} == multiset(rows)
    ensures r.removed.None? ==> r.rows == rows && !HasId(rows, idOf, id)
  {
    match IndexOfId(rows, idOf, id)
    case Some(i) =>
      assert rows == rows[..i] + [rows[i]] + rows[i + 1..];
      Deleted(Some(rows[i]), RemoveAt(rows, i))
    case None => Deleted(None, rows)
  }

  /** `findOneAndUpdate` with `new: true`: the table after the update and the
      updated document, or `None` (and no change) when nothing matched. */
  datatype Updated<T> = Updated(rows: seq<T>, result: Option<T>)

  function UpdateFirst<T>(rows: seq<T>, p: T -> bool, f: T -> T): (r: Updated<T>)
    ensures r.result.None? <==> forall j :: 0 <= j < |rows| ==> !p(rows[j])
    ensures r.result.None? ==> r.rows == rows
    ensures |r.rows| == |rows|
    ensures forall j :: 0 <= j < |rows| ==> r.rows[j] == rows[j] || (p(rows[j]) && r.rows[j] == f(rows[j]))
    ensures r.result.Some? ==>
              var i := IndexWhere(rows, p).value;
              r.rows == rows[i := f(rows[i])] && r.result.value == f(rows[i])
  {
    match IndexWhere(rows, p)
    case Some(i) => Updated(rows[i := f(rows[i])], Some(f(rows[i])))
    case None => Updated(rows, None)
  }

  /** Replacing a document by one the filter treats alike does not move the
      filter's first match. */
  lemma {:induction false} IndexWhereReplace<T>(rows: seq<T>, p: T -> bool, i: nat, y: T)
    requires i < |rows| && p(y) == p(rows[i])
    ensures IndexWhere(rows[i := y], p) == IndexWhere(rows, p)
  {
    if i > 0 {
      assert rows[i := y][1..] == rows[1..][i - 1 := y];
      IndexWhereReplace(rows[1..], p, i - 1, y);
    }
  }

  /** An update that the filter does not see and that undoes itself (such as
      negating a flag) restores the table when applied twice, and the first
      application returns the document the second one restores. */
  lemma UpdateFirstTwice<T(!new)>(rows: seq<T>, p: T -> bool, f: T -> T)
    requires forall x :: p(f(x)) == p(x) && f(f(x)) == x
    ensures UpdateFirst(UpdateFirst(rows, p, f).rows, p, f).rows == rows
  {
    var once := UpdateFirst(rows, p, f);
    match IndexWhere(rows, p)
    case Some(i) =>
      IndexWhereReplace(rows, p, i, f(rows[i]));
      assert once.rows[i := f(once.rows[i])] == rows;
    case None =>
  }

  /** Setting fields to fixed values (a `$set`) that the filter does not see
      is idempotent: a second update changes nothing more. */
  lemma UpdateFirstIdempotent<T(!new)>(rows: seq<T>, p: T -> bool, f: T -> T)
    requires forall x :: p(f(x)) == p(x) && f(f(x)) == f(x)
    ensures UpdateFirst(UpdateFirst(rows, p, f).rows, p, f) == UpdateFirst(rows, p, f)
  {
    var once := UpdateFirst(rows, p, f);
    match IndexWhere(rows, p)
    case Some(i) =>
      IndexWhereReplace(rows, p, i, f(rows[i]));
      assert once.rows[i := f(once.rows[i])] == once.rows;
    case None =>
  }

  /** A document appended after documents that all fail the filter is the
      filter's first match. */
  lemma {:induction false} IndexWhereAppend<T>(rows: seq<T>, p: T -> bool, x: T)
    requires p(x) && forall j :: 0 <= j < |rows| ==> !p(rows[j])
    ensures IndexWhere(rows + [x], p) == Some(|rows|)
  {
    if rows == [] {
      assert (rows + [x])[0] == x;
    } else {
      assert (rows + [x])[0] == rows[0];
      assert (rows + [x])[1..] == rows[1..] + [x];
      IndexWhereAppend(rows[1..], p, x);
    }
  }

  /** Deleting, by its id, the document just inserted under a fresh id
      restores the table and returns that document. */
  lemma DeleteAppended<T>(rows: seq<T>, idOf: T -> Id, x: T)
    requires !HasId(rows, idOf, idOf(x))
    ensures DeleteById(rows + [x], idOf, idOf(x)) == Deleted(Some(x), rows)
  {
    IndexWhereAppend(rows, y => idOf(y) == idOf(x), x);
    assert (rows + [x])[..|rows|] == rows;
  }

  /** The store's own guarantee: no two documents of a table share an `_id`. */
  ghost predicate UniqueIds<T>(rows: seq<T>, idOf: T -> Id) {
    forall i, j :: 0 <= i < j < |rows| ==> idOf(rows[i]) != idOf(rows[j])
  }

  lemma UniqueAppend<T>(rows: seq<T>, idOf: T -> Id, x: T)
    requires UniqueIds(rows, idOf) && !HasId(rows, idOf, idOf(x))
    ensures UniqueIds(rows + [x], idOf)
  {
  }

  lemma UniqueReplace<T>(rows: seq<T>, idOf: T -> Id, i: nat, x: T)
    requires UniqueIds(rows, idOf) && i < |rows| && idOf(x) == idOf(rows[i])
    ensures UniqueIds(rows[i := x], idOf)
  {
  }

  lemma UniqueRemoveAt<T>(rows: seq<T>, idOf: T -> Id, i: nat)
    requires UniqueIds(rows, idOf) && i < |rows|
    ensures UniqueIds(RemoveAt(rows, i), idOf)
  {
    var r := RemoveAt(rows, i);
    forall a, b | 0 <= a < b < |r| ensures idOf(r[a]) != idOf(r[b]) {
      var a' := if a < i then a else a + 1;
      var b' := if b < i then b else b + 1;
      assert r[a] == rows[a'] && r[b] == rows[b'];
    }
  }

  /** An update that keeps `_id` keeps the ids unique. */
  lemma UniqueUpdateFirst<T(!new)>(rows: seq<T>, idOf: T -> Id, p: T -> bool, f: T -> T)
    requires UniqueIds(rows, idOf) && forall x :: idOf(f(x)) == idOf(x)
    ensures UniqueIds(UpdateFirst(rows, p, f).rows, idOf)
  {
    match IndexWhere(rows, p)
    case Some(i) => UniqueReplace(rows, idOf, i, f(rows[i]));
    case None =>
  }

  /** With unique ids, deleting by id leaves no document with that id. */
  lemma DeleteByIdRemovesAll<T>(rows: seq<T>, idOf: T -> Id, id: Id)
    requires UniqueIds(rows, idOf)
    ensures UniqueIds(DeleteById(rows, idOf, id).rows, idOf)
    ensures !HasId(DeleteById(rows, idOf, id).rows, idOf, id)
  {
    match IndexOfId(rows, idOf, id)
    case Some(i) =>
      var r := RemoveAt(rows, i);
      forall j | 0 <= j < |r| ensures idOf(r[j]) != id {
        if j < i { assert r[j] == rows[j]; } else { assert r[j] == rows[j + 1]; }
      }
    case None =>
  }
}
