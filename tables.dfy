/** The abstract relational store the services run against: one table per
    model type, each a sequence of rows in primary-key order plus the next
    value of its auto-increment counter. Reads are filters over the rows;
    writes go through the table's unique index and check constraint, the
    way the database enforces them. */
module Tables {
  import opened Errors

  type Id = nat

  datatype Row<T> = Row(id: Id, val: T)

  datatype Table<T> = Table(rows: seq<Row<T>>, nextId: Id)

  /** A fresh table: no rows, the counter at 1 (primary keys start at 1). */
  function EmptyTable<T>(): Table<T> {
    Table([], 1)
  }

  ghost predicate Increasing<T>(rows: seq<Row<T>>) {
    forall i, j :: 0 <= i < j < |rows| ==> rows[i].id < rows[j].id
  }

  /** Primary keys are positive, strictly increasing and below the counter. */
  ghost predicate WellFormed<T>(t: Table<T>) {
    0 < t.nextId && Increasing(t.rows) && forall x :: x in t.rows ==> 0 < x.id < t.nextId
  }

  /** At most one row per primary key. */
  ghost predicate UniqueIds<T>(rows: seq<Row<T>>) {
    forall x, y :: x in rows && y in rows && x.id == y.id ==> x == y
  }

  lemma IncreasingHasUniqueIds<T>(rows: seq<Row<T>>)
    requires Increasing(rows)
    ensures UniqueIds(rows)
  {
    forall x, y | x in rows && y in rows && x.id == y.id
      ensures x == y
    {
      var i :| 0 <= i < |rows| && rows[i] == x;
      var j :| 0 <= j < |rows| && rows[j] == y;
      assert !(i < j) && !(j < i);
    }
  }

  /** An increasing sequence of rows holds no row twice. */
  lemma IncreasingIsDistinct<T>(rows: seq<Row<T>>)
    requires Increasing(rows)
    ensures forall i, j :: 0 <= i < j < |rows| ==> rows[i] != rows[j]
  {
  }

  /** The unique index given by `key`: no two rows share a key. */
  ghost predicate UniqueKeys<T, K>(rows: seq<Row<T>>, key: T -> K) {
    forall x, y :: x in rows && y in rows && key(x.val) == key(y.val) ==> x == y
  }

  /** The check constraint `check` holds of every row. */
  ghost predicate AllSatisfy<T>(rows: seq<Row<T>>, check: T -> bool) {
    forall x :: x in rows ==> check(x.val)
  }

  /** No row has key `k`. */
  predicate KeyFree<T(==), K(==)>(rows: seq<Row<T>>, key: T -> K, k: K) {
    forall x | x in rows :: key(x.val) != k
  }

  /** The check constraint of a table that declares none. */
  predicate Unchecked<T>(v: T) {
    true
  }

  /** The row with primary key `id` (GORM's `First` on the key). */
  function Lookup<T>(rows: seq<Row<T>>, id: Id): (r: Option<T>)
    ensures r.Some? ==> Row(id, r.value) in rows
    ensures r.None? <==> forall x :: x in rows ==> x.id != id
  {
    if rows == [] then None
    else if rows[0].id == id then Some(rows[0].val)
    else Lookup(rows[1..], id)
  }

  /** With one row per key, Lookup finds exactly the stored row. */
  lemma LookupStored<T>(rows: seq<Row<T>>, id: Id, v: T)
    requires UniqueIds(rows)
    ensures Lookup(rows, id) == Some(v) <==> Row(id, v) in rows
  {
    if Row(id, v) in rows {
      var r := Lookup(rows, id);
      assert r.Some?;
      assert Row(id, r.value) == Row(id, v);
    }
  }

  /** The rows satisfying `p`, in table order (a `Where(...).Find` query). */
  function Where<T>(rows: seq<Row<T>>, p: Row<T> -> bool): (r: seq<Row<T>>)
    ensures forall x :: x in r ==> x in rows && p(x)
    ensures forall x :: x in rows && p(x) ==> x in r
    ensures |r| <= |rows|
  {
    if rows == [] then []
    else if p(rows[0]) then [rows[0]] + Where(rows[1..], p)
    else Where(rows[1..], p)
  }

  /** A filter keeps the table's primary-key order. */
  lemma {:induction false} WhereIncreasing<T>(rows: seq<Row<T>>, p: Row<T> -> bool)
    requires Increasing(rows)
    ensures Increasing(Where(rows, p))
  {
    if rows != [] {
      var rest := Where(rows[1..], p);
      WhereIncreasing(rows[1..], p);
      forall x | x in rest ensures rows[0].id < x.id {
        var k :| 0 <= k < |rows[1..]| && rows[1..][k] == x;
        assert rows[k + 1] == x;
      }
    }
  }

  /** A filter that every row passes returns the rows unchanged. */
  lemma {:induction false} WhereAll<T>(rows: seq<Row<T>>, p: Row<T> -> bool)
    requires forall x :: x in rows ==> p(x)
    ensures Where(rows, p) == rows
  {
    if rows != [] {
      WhereAll(rows[1..], p);
    }
  }

  /** Filtering after an append filters the new row on its own. */
  lemma {:induction false} WhereAppend<T>(rows: seq<Row<T>>, x: Row<T>, p: Row<T> -> bool)
    ensures Where(rows + [x], p) == Where(rows, p) + (if p(x) then [x] else [])
  {
    if rows != [] {
      assert (rows + [x])[1..] == rows[1..] + [x];
      WhereAppend(rows[1..], x, p);
    }
  }

  /** The first row satisfying `p` (a `Where(...).First` query). */
  function First<T>(rows: seq<Row<T>>, p: Row<T> -> bool): (r: Option<Row<T>>)
    ensures r.Some? ==> r.value in rows && p(r.value)
    ensures r.None? <==> forall x :: x in rows ==> !p(x)
  {
    if rows == [] then None
    else if p(rows[0]) then Some(rows[0])
    else First(rows[1..], p)
  }

  /** Rows are numbered from `start` in the order given. */
  function Numbered<T>(start: Id, vs: seq<T>): (r: seq<Row<T>>)
    decreases |vs|
    ensures |r| == |vs|
  {
    if vs == [] then [] else [Row(start, vs[0])] + Numbered(start + 1, vs[1..])
  }

  /** The i-th numbered row carries id `start + i` and the i-th value. */
  lemma {:induction false} NumberedAt<T>(start: Id, vs: seq<T>)
    decreases |vs|
    ensures forall i :: 0 <= i < |vs| ==> Numbered(start, vs)[i] == Row(start + i, vs[i])
  {
    if vs != [] {
      NumberedAt(start + 1, vs[1..]);
    }
  }

  /** Appending a row under the next id. */
  function Insert<T>(t: Table<T>, v: T): (r: Table<T>)
    ensures WellFormed(t) ==> WellFormed(r)
  {
    var rows := t.rows + [Row(t.nextId, v)];
    assert WellFormed(t) ==> Increasing(rows) by {
      if WellFormed(t) {
        forall i, j | 0 <= i < j < |rows| ensures rows[i].id < rows[j].id {
          assert rows[i] in t.rows;
        }
      }
    }
    assert forall x :: x in rows ==> x in t.rows || x.id == t.nextId;
    Table(rows, t.nextId + 1)
  }

  /** An insert the database accepts only if the check constraint holds and
      the unique index has no row with the same key. Accepted inserts keep
      every table constraint. */
  function InsertChecked<T(==), K(==)>(t: Table<T>, v: T, check: T -> bool, key: T -> K): (r: Result<Table<T>>)
    ensures r.Ok? <==> check(v) && KeyFree(t.rows, key, key(v))
    ensures r.Ok? ==> r.value == Insert(t, v)
    ensures r.Err? ==> r.error == (if check(v) then DuplicateKey else CheckViolation)
    ensures r.Ok? && UniqueKeys(t.rows, key) ==> UniqueKeys(r.value.rows, key)
    ensures r.Ok? && AllSatisfy(t.rows, check) ==> AllSatisfy(r.value.rows, check)
  {
    if !check(v) then Err(CheckViolation)
    else if !KeyFree(t.rows, key, key(v)) then Err(DuplicateKey)
    else Ok(Insert(t, v))
  }

  /** Every value passes the check, no value's key is taken, and the
      values' keys are pairwise distinct. */
  ghost predicate BatchAdmissible<T, K>(rows: seq<Row<T>>, vs: seq<T>, check: T -> bool, key: T -> K) {
    && (forall i :: 0 <= i < |vs| ==> check(vs[i]))
    && (forall i :: 0 <= i < |vs| ==> forall x :: x in rows ==> key(x.val) != key(vs[i]))
    && (forall i, j :: 0 <= i < j < |vs| ==> key(vs[i]) != key(vs[j]))
  }

  /** One INSERT statement for many rows (`CreateInBatches` with the whole
      slice as one batch): all rows are written, or none. */
  function InsertBatch<T(==), K(==)>(t: Table<T>, vs: seq<T>, check: T -> bool, key: T -> K): (r: Result<Table<T>>)
    decreases |vs|
    ensures r.Ok? ==> r.value == Table(t.rows + Numbered(t.nextId, vs), t.nextId + |vs|)
    ensures r.Err? ==> r.error == CheckViolation || r.error == DuplicateKey
  {
    if vs == [] then Ok(t)
    else if !check(vs[0]) then Err(CheckViolation)
    else if !KeyFree(t.rows, key, key(vs[0])) then Err(DuplicateKey)
    else
      match InsertBatch(Table(t.rows + [Row(t.nextId, vs[0])], t.nextId + 1), vs[1..], check, key)
      case Err(e) => Err(e)
      case Ok(rest) =>
        NumberedAppend(t.rows, t.nextId, vs);
        Ok(rest)
  }

  /** Appending the first row and then numbering the rest from the next id
      is numbering the whole batch. */
  lemma NumberedAppend<T>(rows: seq<Row<T>>, start: Id, vs: seq<T>)
    requires vs != []
    ensures (rows + [Row(start, vs[0])]) + Numbered(start + 1, vs[1..]) == rows + Numbered(start, vs)
  {
    assert Numbered(start, vs) == [Row(start, vs[0])] + Numbered(start + 1, vs[1..]);
  }

  /** The batch is written exactly when it is admissible, and a written
      batch keeps every table constraint. */
  lemma {:induction false} InsertBatchAdmissible<T, K>(t: Table<T>, vs: seq<T>, check: T -> bool, key: T -> K)
    decreases |vs|
    ensures InsertBatch(t, vs, check, key).Ok? <==> BatchAdmissible(t.rows, vs, check, key)
    ensures InsertBatch(t, vs, check, key).Ok? ==>
              (WellFormed(t) ==> WellFormed(InsertBatch(t, vs, check, key).value)) &&
              (UniqueKeys(t.rows, key) ==> UniqueKeys(InsertBatch(t, vs, check, key).value.rows, key)) &&
              (AllSatisfy(t.rows, check) ==> AllSatisfy(InsertBatch(t, vs, check, key).value.rows, check))
    ensures InsertBatch(t, vs, check, key).Err? && (forall i :: 0 <= i < |vs| ==> check(vs[i])) ==>
              InsertBatch(t, vs, check, key).error == DuplicateKey
  {
    if vs != [] {
      BatchStep(t.rows, t.nextId, vs, check, key);
      if check(vs[0]) && KeyFree(t.rows, key, key(vs[0])) {
        var t1 := Insert(t, vs[0]);
        InsertBatchAdmissible(t1, vs[1..], check, key);
        assert InsertChecked(t, vs[0], check, key) == Ok(t1);
        assert forall i :: 0 <= i < |vs[1..]| ==> vs[1..][i] == vs[i + 1];
      }
    }
  }

  /** A batch is admissible exactly when its first value can be inserted and
      the rest is admissible after it. */
  lemma BatchStep<T, K>(rows: seq<Row<T>>, id: Id, vs: seq<T>, check: T -> bool, key: T -> K)
    requires vs != []
    ensures BatchAdmissible(rows, vs, check, key) <==>
              check(vs[0]) && KeyFree(rows, key, key(vs[0])) &&
              BatchAdmissible(rows + [Row(id, vs[0])], vs[1..], check, key)
  {
    var rows1 := rows + [Row(id, vs[0])];
    if check(vs[0]) && KeyFree(rows, key, key(vs[0])) && BatchAdmissible(rows1, vs[1..], check, key) {
      forall i | 0 <= i < |vs| ensures forall x :: x in rows ==> key(x.val) != key(vs[i]) {
        if i > 0 {
          assert vs[i] == vs[1..][i - 1];
          forall x | x in rows ensures key(x.val) != key(vs[i]) {
            assert x in rows1;
          }
        }
      }
      forall i, j | 0 <= i < j < |vs| ensures key(vs[i]) != key(vs[j]) {
        assert vs[j] == vs[1..][j - 1];
        if i == 0 {
          assert Row(id, vs[0]) in rows1;
        } else {
          assert vs[i] == vs[1..][i - 1];
        }
      }
    }
    if BatchAdmissible(rows, vs, check, key) {
      forall i | 0 <= i < |vs[1..]| ensures forall x :: x in rows1 ==> key(x.val) != key(vs[1..][i]) {
        assert vs[1..][i] == vs[i + 1];
      }
    }
  }

  /** Every row with primary key `id` now holds `v`; all other rows are kept. */
  function Replace<T>(rows: seq<Row<T>>, id: Id, v: T): (r: seq<Row<T>>)
    ensures |r| == |rows|
    ensures forall i :: 0 <= i < |rows| ==> r[i] == (if rows[i].id == id then Row(id, v) else rows[i])
  {
    seq(|rows|, i requires 0 <= i < |rows| => if rows[i].id == id then Row(id, v) else rows[i])
  }

  /** After a replacement the table holds the new row (when the key was
      present) and every row with another key, and nothing else. */
  lemma ReplaceMembers<T>(rows: seq<Row<T>>, id: Id, v: T, x: Row<T>)
    ensures x in Replace(rows, id, v) <==>
              (x == Row(id, v) && exists y :: y in rows && y.id == id) || (x in rows && x.id != id)
  {
    var r := Replace(rows, id, v);
    if x in r {
      var i :| 0 <= i < |r| && r[i] == x;
      assert rows[i] in rows;
    }
    if x == Row(id, v) && exists y :: y in rows && y.id == id {
      var y :| y in rows && y.id == id;
      var i :| 0 <= i < |rows| && rows[i] == y;
      assert r[i] == x;
    }
    if x in rows && x.id != id {
      var i :| 0 <= i < |rows| && rows[i] == x;
      assert r[i] == x;
    }
  }

  /** A replacement keeps the primary keys, hence the table's shape. */
  lemma ReplaceWellFormed<T>(t: Table<T>, id: Id, v: T)
    requires WellFormed(t)
    ensures WellFormed(Table(Replace(t.rows, id, v), t.nextId))
  {
    var r := Replace(t.rows, id, v);
    assert forall i :: 0 <= i < |r| ==> r[i].id == t.rows[i].id;
    forall x | x in r ensures 0 < x.id < t.nextId {
      ReplaceMembers(t.rows, id, v, x);
    }
  }

  /** A replacement that keeps the row's unique key keeps the unique index. */
  lemma ReplaceUniqueKeys<T, K>(rows: seq<Row<T>>, id: Id, v: T, key: T -> K)
    requires forall x :: x in rows && x.id == id ==> key(x.val) == key(v)
    requires UniqueKeys(rows, key)
    ensures UniqueKeys(Replace(rows, id, v), key)
  {
    var r := Replace(rows, id, v);
    forall x, y | x in r && y in r && key(x.val) == key(y.val) ensures x == y {
      ReplaceMembers(rows, id, v, x);
      ReplaceMembers(rows, id, v, y);
    }
  }

  /** A replacement by a value whose key no other row holds keeps the
      unique index. */
  lemma ReplaceFreshKey<T, K>(rows: seq<Row<T>>, id: Id, v: T, key: T -> K)
    requires forall x :: x in rows && x.id != id ==> key(x.val) != key(v)
    requires UniqueKeys(rows, key)
    ensures UniqueKeys(Replace(rows, id, v), key)
  {
    var r := Replace(rows, id, v);
    forall x, y | x in r && y in r && key(x.val) == key(y.val) ensures x == y {
      ReplaceMembers(rows, id, v, x);
      ReplaceMembers(rows, id, v, y);
    }
  }

  /** A replacement by a value that passes the check keeps the check. */
  lemma ReplaceAllSatisfy<T>(rows: seq<Row<T>>, id: Id, v: T, check: T -> bool)
    requires AllSatisfy(rows, check) && check(v)
    ensures AllSatisfy(Replace(rows, id, v), check)
  {
    forall x | x in Replace(rows, id, v) ensures check(x.val) {
      ReplaceMembers(rows, id, v, x);
    }
  }

  /** After a replacement of a present key, a lookup finds the new value. */
  lemma ReplaceLookup<T>(t: Table<T>, id: Id, v: T)
    requires WellFormed(t) && exists x :: x in t.rows && x.id == id
    ensures Lookup(Replace(t.rows, id, v), id) == Some(v)
  {
    var r := Replace(t.rows, id, v);
    ReplaceWellFormed(t, id, v);
    IncreasingHasUniqueIds(r);
    ReplaceMembers(t.rows, id, v, Row(id, v));
    LookupStored(r, id, v);
  }

  /** An update of the row with primary key `id`, subject to the check
      constraint and to the unique index against the other rows. */
  function UpdateChecked<T(==), K(==)>(t: Table<T>, id: Id, v: T, check: T -> bool, key: T -> K): (r: Result<Table<T>>)
    ensures r.Ok? <==> check(v) && forall x :: x in t.rows && x.id != id ==> key(x.val) != key(v)
    ensures r.Ok? ==> r.value == Table(Replace(t.rows, id, v), t.nextId)
    ensures r.Err? ==> r.error == (if check(v) then DuplicateKey else CheckViolation)
  {
    if !check(v) then Err(CheckViolation)
    else if !(forall x | x in t.rows && x.id != id :: key(x.val) != key(v)) then Err(DuplicateKey)
    else Ok(Table(Replace(t.rows, id, v), t.nextId))
  }

  /** A second replacement of the same key overrides the first. */
  lemma ReplaceTwice<T>(rows: seq<Row<T>>, id: Id, v1: T, v2: T)
    ensures Replace(Replace(rows, id, v1), id, v2) == Replace(rows, id, v2)
  {
  }

  /** Replacing a row by the value it already holds changes nothing. */
  lemma ReplaceSame<T>(rows: seq<Row<T>>, id: Id, v: T)
    requires UniqueIds(rows) && Row(id, v) in rows
    ensures Replace(rows, id, v) == rows
  {
    forall i | 0 <= i < |rows| && rows[i].id == id ensures rows[i] == Row(id, v) {
      assert rows[i] in rows;
    }
  }

  /** A performed update keeps every table constraint. */
  lemma UpdateCheckedKeeps<T, K>(t: Table<T>, id: Id, v: T, check: T -> bool, key: T -> K)
    requires WellFormed(t) && UniqueKeys(t.rows, key) && AllSatisfy(t.rows, check)
    requires check(v) && forall x :: x in t.rows && x.id != id ==> key(x.val) != key(v)
    ensures WellFormed(Table(Replace(t.rows, id, v), t.nextId))
    ensures UniqueKeys(Replace(t.rows, id, v), key)
    ensures AllSatisfy(Replace(t.rows, id, v), check)
  {
    ReplaceWellFormed(t, id, v);
    ReplaceFreshKey(t.rows, id, v, key);
    ReplaceAllSatisfy(t.rows, id, v, check);
  }

  /** The filter that keeps every row but the one with primary key `id`. */
  function IdIsNot<T>(id: Id): Row<T> -> bool {
    (x: Row<T>) => x.id != id
  }

  /** Deleting by primary key (`Where(id).Delete`). */
  function Remove<T>(rows: seq<Row<T>>, id: Id): (r: seq<Row<T>>)
    ensures forall x :: x in r ==> x in rows && x.id != id
    ensures forall x :: x in rows && x.id != id ==> x in r
    ensures Increasing(rows) ==> Increasing(r)
    ensures (forall x :: x in rows ==> x.id != id) ==> r == rows
  {
    assert Increasing(rows) ==> Increasing(Where(rows, IdIsNot(id))) by {
      if Increasing(rows) {
        WhereIncreasing(rows, IdIsNot(id));
      }
    }
    assert (forall x :: x in rows ==> x.id != id) ==> Where(rows, IdIsNot(id)) == rows by {
      if forall x :: x in rows ==> x.id != id {
        WhereAll(rows, IdIsNot(id));
      }
    }
    Where(rows, IdIsNot(id))
  }

  /** Deleting the row just appended restores the table's rows. */
  lemma RemoveLast<T>(rows: seq<Row<T>>, x: Row<T>)
    requires forall y :: y in rows ==> y.id != x.id
    ensures Remove(rows + [x], x.id) == rows
  {
    WhereAppend(rows, x, IdIsNot(x.id));
    WhereAll(rows, IdIsNot(x.id));
  }

  /** Deleting a row keeps every table constraint. */
  lemma RemoveKeeps<T, K>(t: Table<T>, id: Id, key: T -> K, check: T -> bool)
    ensures WellFormed(t) ==> WellFormed(Table(Remove(t.rows, id), t.nextId))
    ensures UniqueKeys(t.rows, key) ==> UniqueKeys(Remove(t.rows, id), key)
    ensures AllSatisfy(t.rows, check) ==> AllSatisfy(Remove(t.rows, id), check)
  {
  }

  /** Filtering a table keeps every table constraint. */
  lemma WhereKeeps<T, K>(t: Table<T>, p: Row<T> -> bool, key: T -> K, check: T -> bool)
    ensures WellFormed(t) ==> WellFormed(Table(Where(t.rows, p), t.nextId))
    ensures UniqueKeys(t.rows, key) ==> UniqueKeys(Where(t.rows, p), key)
    ensures AllSatisfy(t.rows, check) ==> AllSatisfy(Where(t.rows, p), check)
  {
    if WellFormed(t) {
      WhereIncreasing(t.rows, p);
    }
  }

  /** A sequence without repetitions has as many distinct elements as it is long. */
  lemma {:induction false} DistinctCardinality<T>(s: seq<T>)
    requires forall i, j :: 0 <= i < j < |s| ==> s[i] != s[j]
    ensures |set x | x in s| == |s|
  {
    if s != [] {
      DistinctCardinality(s[1..]);
      var tail := set x | x in s[1..];
      assert (set x | x in s) == {s[0]} + tail;
      assert forall k :: 0 <= k < |s[1..]| ==> s[1..][k] == s[k + 1];
    }
  }

  /** The number of rows a filter returns from a table with unique keys is
      the number of distinct rows satisfying it. */
  lemma WhereCount<T>(rows: seq<Row<T>>, p: Row<T> -> bool)
    requires Increasing(rows)
    ensures |Where(rows, p)| == |set x | x in rows && p(x)|
  {
    var w := Where(rows, p);
    WhereIncreasing(rows, p);
    IncreasingIsDistinct(w);
    DistinctCardinality(w);
    assert (set x | x in w) == (set x | x in rows && p(x));
  }

  /** A map that is one-to-one on a set keeps its size: its image has as
      many elements. */
  lemma {:induction false} InjectiveImage<T, U>(s: set<T>, img: set<U>, f: T -> U)
    requires forall x, y :: x in s && y in s && f(x) == f(y) ==> x == y
    requires forall x :: x in s ==> f(x) in img
    requires forall k :: k in img ==> exists x :: x in s && f(x) == k
    ensures |img| == |s|
  {
    if s != {} {
      var a :| a in s;
      var rest := s - {a};
      var restImg := img - {f(a)};
      forall k | k in restImg ensures exists x :: x in rest && f(x) == k {
        var x :| x in s && f(x) == k;
        assert x != a;
      }
      InjectiveImage(rest, restImg, f);
      assert img == restImg + {f(a)};
    }
  }
}
