/** The meaning of the SQL clauses the store uses, over a table held as a
    sequence of rows in rowid order: WHERE (Where, First, Count),
    ORDER BY created_at DESC (NewestFirst), LIMIT/OFFSET (Page), and the
    single-row DELETE and UPDATE by id. */
module Table {
  import opened Rows

  // ---------------------------------------------------------------------
  // Table invariants kept by every write

  /** AUTOINCREMENT ids are handed out in increasing order, so a table read
      in rowid order has strictly increasing ids (hence no id twice). */
  ghost predicate IdsAscending<C>(rows: seq<Row<C>>) {
    forall i, j :: 0 <= i < j < |rows| ==> rows[i].id < rows[j].id
  }

  /** Every id lies in 1..last, `last` being the table's sqlite_sequence
      entry (the largest id ever handed out). */
  ghost predicate IdsWithin<C>(rows: seq<Row<C>>, last: int) {
    forall i :: 0 <= i < |rows| ==> 0 < rows[i].id <= last
  }

  /** No row was stamped after the clock reading `now`. */
  ghost predicate CreatedBy<C>(rows: seq<Row<C>>, now: nat) {
    forall i :: 0 <= i < |rows| ==> rows[i].createdAt <= now
  }

  /** A UNIQUE column: no two rows share a `key` value. */
  ghost predicate KeyUnique<C>(rows: seq<Row<C>>, key: C -> string) {
    forall i, j :: 0 <= i < j < |rows| ==> key(rows[i].cols) != key(rows[j].cols)
  }

  /** The invariant every table keeps. */
  ghost predicate TableOk<C>(rows: seq<Row<C>>, last: int, now: nat) {
    IdsAscending(rows) && IdsWithin(rows, last) && CreatedBy(rows, now)
  }

  predicate HasId<C>(rows: seq<Row<C>>, id: int) {
    exists i :: 0 <= i < |rows| && rows[i].id == id
  }

  predicate KeyTaken<C>(rows: seq<Row<C>>, key: C -> string, k: string) {
    exists i :: 0 <= i < |rows| && key(rows[i].cols) == k
  }

  /** Some row other than the one with id `id` already holds `k`: writing `k`
      into row `id` would violate the UNIQUE constraint. */
  predicate KeyTakenByOther<C>(rows: seq<Row<C>>, key: C -> string, k: string, id: int) {
    exists i :: 0 <= i < |rows| && key(rows[i].cols) == k && rows[i].id != id
  }

  // ---------------------------------------------------------------------
  // WHERE

  /** `SELECT ... WHERE keep`: the rows satisfying `keep`, in table order. */
  function Where<T>(s: seq<T>, keep: T -> bool): seq<T> {
    if s == [] then [] else (if keep(s[0]) then [s[0]] else []) + Where(s[1..], keep)
  }

  /** `SELECT COUNT(*) ... WHERE p`. */
  function Count<T>(s: seq<T>, p: T -> bool): nat {
    if s == [] then 0 else (if p(s[0]) then 1 else 0) + Count(s[1..], p)
  }

  /** `SELECT ... WHERE p` read with `db.get`: the first matching row, if any. */
  function First<T>(s: seq<T>, p: T -> bool): (r: Option<T>)
    ensures r.Some? <==> exists i :: 0 <= i < |s| && p(s[i])
    ensures r.Some? ==> r.value in s && p(r.value)
  {
    if s == [] then None else if p(s[0]) then Some(s[0]) else First(s[1..], p)
  }

  /** A filter keeps only rows satisfying its condition ... */
  lemma {:induction false} WhereSound<T>(s: seq<T>, keep: T -> bool, x: T)
    requires x in Where(s, keep)
    ensures x in s && keep(x)
  {
    var tail := s[1..];
    assert s == [s[0]] + tail;
    if x != s[0] || !keep(s[0]) {
      WhereSound(tail, keep, x);
    }
  }

  /** ... and every row satisfying it. */
  lemma {:induction false} WhereComplete<T>(s: seq<T>, keep: T -> bool, x: T)
    requires x in s && keep(x)
    ensures x in Where(s, keep)
  {
    var tail := s[1..];
    assert s == [s[0]] + tail;
    if x != s[0] {
      WhereComplete(tail, keep, x);
    }
  }

  lemma WhereMembers<T>(s: seq<T>, keep: T -> bool)
    ensures forall x :: x in Where(s, keep) <==> x in s && keep(x)
  {
    forall x ensures x in Where(s, keep) <==> x in s && keep(x) {
      if x in Where(s, keep) {
        WhereSound(s, keep, x);
      }
      if x in s && keep(x) {
        WhereComplete(s, keep, x);
      }
    }
  }

  lemma {:induction false} WhereCount<T>(s: seq<T>, p: T -> bool)
    ensures |Where(s, p)| == Count(s, p)
  {
    if s != [] {
      WhereCount(s[1..], p);
    }
  }

  lemma {:induction false} WhereKeepsAll<T>(s: seq<T>, p: T -> bool)
    requires forall x :: x in s ==> p(x)
    ensures Where(s, p) == s
  {
    if s != [] {
      WhereKeepsAll(s[1..], p);
    }
  }

  /** Filtering keeps rowid order. */
  lemma {:induction false} WhereAscending<C>(rows: seq<Row<C>>, keep: Row<C> -> bool)
    requires IdsAscending(rows)
    ensures IdsAscending(Where(rows, keep))
  {
    if rows != [] {
      var tail := rows[1..];
      WhereAscending(tail, keep);
      var rest := Where(tail, keep);
      forall i | 0 <= i < |rest| ensures rows[0].id < rest[i].id {
        WhereSound(tail, keep, rest[i]);
        var j :| 0 <= j < |tail| && tail[j] == rest[i];
        assert rows[j + 1] == rest[i];
      }
    }
  }

  /** A filtered table has each row once, as the table does. */
  lemma {:induction false} WhereKeyUnique<C>(rows: seq<Row<C>>, keep: Row<C> -> bool, key: C -> string)
    requires KeyUnique(rows, key)
    ensures KeyUnique(Where(rows, keep), key)
  {
    if rows != [] {
      var tail := rows[1..];
      WhereKeyUnique(tail, keep, key);
      var rest := Where(tail, keep);
      forall i | 0 <= i < |rest| ensures key(rows[0].cols) != key(rest[i].cols) {
        WhereSound(tail, keep, rest[i]);
        var j :| 0 <= j < |tail| && tail[j] == rest[i];
        assert rows[j + 1] == rest[i];
      }
    }
  }

  /** The number of rows holding `k` in column `key`. */
  function KeyCount<C>(rows: seq<Row<C>>, key: C -> string, k: string): nat {
    Count(rows, (x: Row<C>) => key(x.cols) == k)
  }

  /** Under a UNIQUE key, a value held by some row is held by exactly one. */
  lemma {:induction false} KeyHeldOnce<C>(rows: seq<Row<C>>, key: C -> string, k: string)
    requires KeyUnique(rows, key)
    ensures KeyCount(rows, key, k) == if KeyTaken(rows, key, k) then 1 else 0
  {
    if rows != [] {
      KeyHeldOnce(rows[1..], key, k);
      if key(rows[0].cols) == k {
        assert !KeyTaken(rows[1..], key, k) by {
          forall i | 0 <= i < |rows[1..]| ensures key(rows[1..][i].cols) != k {
            assert rows[1..][i] == rows[i + 1];
          }
        }
      } else {
        assert KeyTaken(rows, key, k) ==> KeyTaken(rows[1..], key, k) by {
          if KeyTaken(rows, key, k) {
            var i :| 0 <= i < |rows| && key(rows[i].cols) == k;
            assert rows[1..][i - 1] == rows[i];
          }
        }
        assert KeyTaken(rows[1..], key, k) ==> KeyTaken(rows, key, k) by {
          if KeyTaken(rows[1..], key, k) {
            var i :| 0 <= i < |rows[1..]| && key(rows[1..][i].cols) == k;
            assert rows[i + 1] == rows[1..][i];
          }
        }
      }
    }
  }

  // ---------------------------------------------------------------------
  // INSERT

  /** Appending a row with the next AUTOINCREMENT id, stamped `now`, keeps
      the table invariant and, when its key value is new, the key unique;
      every value held before is still held. */
  lemma AppendKeeps<C>(rows: seq<Row<C>>, last: int, now: nat, x: Row<C>, key: C -> string)
    requires TableOk(rows, last, now) && last >= 0
    requires x.id == last + 1 && x.createdAt <= now
    ensures TableOk(rows + [x], last + 1, now)
    ensures KeyUnique(rows, key) && !KeyTaken(rows, key, key(x.cols)) ==> KeyUnique(rows + [x], key)
    ensures forall k :: KeyTaken(rows, key, k) ==> KeyTaken(rows + [x], key, k)
    ensures KeyTaken(rows + [x], key, key(x.cols))
  {
    var r := rows + [x];
    assert r[|rows|] == x;
    forall k | KeyTaken(rows, key, k) ensures KeyTaken(r, key, k) {
      var i :| 0 <= i < |rows| && key(rows[i].cols) == k;
      assert r[i] == rows[i];
    }
  }

  // ---------------------------------------------------------------------
  // DELETE ... WHERE id = ?

  /** The table after `DELETE FROM t WHERE id = ?`. */
  function DeleteById<C>(rows: seq<Row<C>>, id: int): seq<Row<C>> {
    Where(rows, (x: Row<C>) => x.id != id)
  }

  /** `this.changes` of a DELETE or UPDATE by id: the number of rows whose id matched. */
  function Matched<C>(rows: seq<Row<C>>, id: int): (n: nat) {
    if HasId(rows, id) then 1 else 0
  }

  lemma HasIdTail<C>(rows: seq<Row<C>>, id: int)
    requires rows != [] && rows[0].id != id
    ensures HasId(rows, id) <==> HasId(rows[1..], id)
  {
    if HasId(rows, id) {
      var i :| 0 <= i < |rows| && rows[i].id == id;
      assert rows[1..][i - 1] == rows[i];
    }
    if HasId(rows[1..], id) {
      var i :| 0 <= i < |rows[1..]| && rows[1..][i].id == id;
      assert rows[i + 1] == rows[1..][i];
    }
  }

  lemma {:induction false} DeleteCount<C>(rows: seq<Row<C>>, id: int)
    requires IdsAscending(rows)
    ensures |rows| - |DeleteById(rows, id)| == Matched(rows, id)
  {
    var keep := (x: Row<C>) => x.id != id;
    if rows != [] {
      assert Where(rows, keep) == (if keep(rows[0]) then [rows[0]] else []) + Where(rows[1..], keep);
      if rows[0].id == id {
        forall x | x in rows[1..] ensures keep(x) {
          var j :| 0 <= j < |rows[1..]| && rows[1..][j] == x;
          assert rows[j + 1] == x;
        }
        WhereKeepsAll(rows[1..], keep);
      } else {
        DeleteCount(rows[1..], id);
        HasIdTail(rows, id);
      }
    }
  }

  /** A DELETE by id removes exactly the row with that id (at most one, ids
      being unique) and keeps every other row, in order. */
  lemma DeleteRemovesOne<C>(rows: seq<Row<C>>, id: int)
    requires IdsAscending(rows)
    ensures |rows| - |DeleteById(rows, id)| == Matched(rows, id)
    ensures forall x :: x in DeleteById(rows, id) <==> x in rows && x.id != id
    ensures IdsAscending(DeleteById(rows, id))
    ensures !HasId(DeleteById(rows, id), id)
  {
    DeleteCount(rows, id);
    WhereAscending(rows, (x: Row<C>) => x.id != id);
    WhereMembers(rows, (x: Row<C>) => x.id != id);
    var r := DeleteById(rows, id);
    forall i | 0 <= i < |r| ensures r[i].id != id {
      WhereSound(rows, (x: Row<C>) => x.id != id, r[i]);
    }
  }

  /** A DELETE keeps the table invariant and the uniqueness of a key. */
  lemma DeleteKeeps<C>(rows: seq<Row<C>>, id: int, last: int, now: nat, key: C -> string)
    requires TableOk(rows, last, now)
    ensures TableOk(DeleteById(rows, id), last, now)
    ensures KeyUnique(rows, key) ==> KeyUnique(DeleteById(rows, id), key)
  {
    var keep := (x: Row<C>) => x.id != id;
    var r := Where(rows, keep);
    WhereAscending(rows, keep);
    if KeyUnique(rows, key) {
      WhereKeyUnique(rows, keep, key);
    }
    forall i | 0 <= i < |r| ensures 0 < r[i].id <= last && r[i].createdAt <= now {
      WhereSound(rows, keep, r[i]);
      var j :| 0 <= j < |rows| && rows[j] == r[i];
    }
  }

  // ---------------------------------------------------------------------
  // UPDATE ... WHERE id = ?

  /** The table after an UPDATE that gives the row with id `id` the columns
      `c`; its id and created_at stay as they were. */
  function SetCols<C>(rows: seq<Row<C>>, id: int, c: C): (r: seq<Row<C>>)
    ensures |r| == |rows|
    ensures forall i :: 0 <= i < |rows| && rows[i].id != id ==> r[i] == rows[i]
    ensures forall i :: 0 <= i < |rows| && rows[i].id == id ==> r[i] == Row(id, rows[i].createdAt, c)
  {
    seq(|rows|, i requires 0 <= i < |rows| =>
      if rows[i].id == id then Row(id, rows[i].createdAt, c) else rows[i])
  }

  /** An UPDATE by id keeps the table's ids, its stamps and the uniqueness of
      a key, provided no other row already holds the new key value. */
  lemma SetColsKeeps<C>(rows: seq<Row<C>>, id: int, c: C, key: C -> string, last: int, now: nat)
    requires TableOk(rows, last, now)
    requires KeyUnique(rows, key) && !KeyTakenByOther(rows, key, key(c), id)
    ensures TableOk(SetCols(rows, id, c), last, now)
    ensures KeyUnique(SetCols(rows, id, c), key)
  {
    var r := SetCols(rows, id, c);
    forall i, j | 0 <= i < j < |r| ensures key(r[i].cols) != key(r[j].cols) {
      if rows[i].id == id {
        assert rows[j].id != id;
      } else if rows[j].id == id {
        assert key(rows[i].cols) != key(c);
      }
    }
  }

  // ---------------------------------------------------------------------
  // Whole statements: the table after one INSERT or UPDATE, its
  // AUTOINCREMENT counter and what the statement resolves to.

  datatype Written<C> = Written(rows: seq<Row<C>>, last: int, result: Result<int>)

  /** INSERT of the columns `cols` (or of the NOT NULL error that computing
      them raised): a new row with the next AUTOINCREMENT id, stamped `now`;
      resolves to that id, `this.lastID`. */
  function Insert<C>(rows: seq<Row<C>>, last: int, now: nat, cols: Result<C>): Written<C> {
    match cols
    case Err(e) => Written(rows, last, Err(e))
    case Ok(c) => Written(rows + [Row(last + 1, now, c)], last + 1, Ok(last + 1))
  }

  /** INSERT into a table whose column `key` is UNIQUE (reported as `column`). */
  function InsertUnique<C>(rows: seq<Row<C>>, last: int, now: nat, cols: Result<C>,
                           key: C -> string, column: string): Written<C> {
    if cols.Ok? && KeyTaken(rows, key, key(cols.value)) then Written(rows, last, Err(Unique(column)))
    else Insert(rows, last, now, cols)
  }

  /** UPDATE ... WHERE id = ? of every column: when no row has that id
      nothing is written and no constraint is checked; it resolves to the id
      it was given. */
  function UpdateUnique<C>(rows: seq<Row<C>>, last: int, id: int, cols: Result<C>,
                           key: C -> string, column: string): Written<C> {
    if !HasId(rows, id) then Written(rows, last, Ok(id))
    else match cols
      case Err(e) => Written(rows, last, Err(e))
      case Ok(c) =>
        if KeyTakenByOther(rows, key, key(c), id) then Written(rows, last, Err(Unique(column)))
        else Written(SetCols(rows, id, c), last, Ok(id))
  }

  /** An INSERT either fails with the error computing its columns raised and
      changes nothing, or appends one row whose id is larger than every id
      the counter has handed out, deleted rows' ids included, and records
      that id in the counter; the table invariant is kept. */
  lemma InsertSpec<C>(rows: seq<Row<C>>, last: int, now: nat, cols: Result<C>)
    requires TableOk(rows, last, now) && last >= 0
    ensures Insert(rows, last, now, cols).result.Ok? <==> cols.Ok?
    ensures cols.Err? ==> Insert(rows, last, now, cols) == Written(rows, last, Err(cols.error))
    ensures cols.Ok? ==> Insert(rows, last, now, cols).rows
                           == rows + [Row(Insert(rows, last, now, cols).result.value, now, cols.value)]
    ensures cols.Ok? ==> forall i :: 0 <= i < |rows| ==> rows[i].id < Insert(rows, last, now, cols).result.value
    ensures (cols.Ok? ==>
             Insert(rows, last, now, cols).result.value > last
             && Insert(rows, last, now, cols).last == Insert(rows, last, now, cols).result.value)
    ensures TableOk(Insert(rows, last, now, cols).rows, Insert(rows, last, now, cols).last, now)
    ensures Insert(rows, last, now, cols).last >= last
  {
    if cols.Ok? {
      AppendKeeps(rows, last, now, Row(last + 1, now, cols.value), (c: C) => "");
    }
  }

  /** Under a UNIQUE column an INSERT succeeds exactly when its columns are
      all present and its key value is free; the key stays unique. */
  lemma InsertUniqueSpec<C>(rows: seq<Row<C>>, last: int, now: nat, cols: Result<C>,
                            key: C -> string, column: string)
    requires TableOk(rows, last, now) && last >= 0 && KeyUnique(rows, key)
    ensures (InsertUnique(rows, last, now, cols, key, column).result.Ok? <==>
             cols.Ok? && !KeyTaken(rows, key, key(cols.value)))
    ensures (cols.Ok? && KeyTaken(rows, key, key(cols.value)) ==>
             InsertUnique(rows, last, now, cols, key, column) == Written(rows, last, Err(Unique(column))))
    ensures cols.Err? ==> InsertUnique(rows, last, now, cols, key, column) == Written(rows, last, Err(cols.error))
    ensures TableOk(InsertUnique(rows, last, now, cols, key, column).rows,
                    InsertUnique(rows, last, now, cols, key, column).last, now)
    ensures KeyUnique(InsertUnique(rows, last, now, cols, key, column).rows, key)
    ensures InsertUnique(rows, last, now, cols, key, column).last >= last
  {
    if cols.Ok? && !KeyTaken(rows, key, key(cols.value)) {
      AppendKeeps(rows, last, now, Row(last + 1, now, cols.value), key);
    }
  }

  /** An UPDATE of a missing id resolves to that id and changes nothing; of
      a present id it fails on a missing NOT NULL column or on a key value
      another row holds, and otherwise rewrites that row's columns only. */
  lemma UpdateUniqueSpec<C>(rows: seq<Row<C>>, last: int, now: nat, id: int, cols: Result<C>,
                            key: C -> string, column: string)
    requires TableOk(rows, last, now) && KeyUnique(rows, key)
    ensures !HasId(rows, id) ==> UpdateUnique(rows, last, id, cols, key, column) == Written(rows, last, Ok(id))
    ensures HasId(rows, id) ==>
              (UpdateUnique(rows, last, id, cols, key, column).result.Ok? <==>
               cols.Ok? && !KeyTakenByOther(rows, key, key(cols.value), id))
    ensures (UpdateUnique(rows, last, id, cols, key, column).result.Err? ==>
             UpdateUnique(rows, last, id, cols, key, column).rows == rows)
    ensures (HasId(rows, id) && cols.Ok? && !KeyTakenByOther(rows, key, key(cols.value), id) ==>
             UpdateUnique(rows, last, id, cols, key, column) == Written(SetCols(rows, id, cols.value), last, Ok(id)))
    ensures UpdateUnique(rows, last, id, cols, key, column).last == last
    ensures TableOk(UpdateUnique(rows, last, id, cols, key, column).rows, last, now)
    ensures KeyUnique(UpdateUnique(rows, last, id, cols, key, column).rows, key)
  {
    if HasId(rows, id) && cols.Ok? && !KeyTakenByOther(rows, key, key(cols.value), id) {
      SetColsKeeps(rows, id, cols.value, key, last, now);
    }
  }

  // ---------------------------------------------------------------------
  // INSERT OR IGNORE

  /** `after` is `before` once INSERT OR IGNORE has run for each of `cs` in
      turn, stamped `now`, under the UNIQUE column `key`: the old rows stay
      in place, every key value of `cs` is held, each added row is one of
      `cs` whose key value was free, and nothing is added when every key
      value of `cs` was already held. */
  ghost predicate InsertedOrIgnored<C>(before: seq<Row<C>>, after: seq<Row<C>>, cs: seq<C>,
                                       key: C -> string, now: nat) {
    && |before| <= |after| && after[..|before|] == before
    && (forall k :: 0 <= k < |cs| ==> KeyTaken(after, key, key(cs[k])))
    && (forall j :: |before| <= j < |after| ==>
          after[j].createdAt == now && after[j].cols in cs && !KeyTaken(before, key, key(after[j].cols)))
    && ((forall k :: 0 <= k < |cs| ==> KeyTaken(before, key, key(cs[k]))) ==> after == before)
  }

  /** A key value held in a table is still held once rows are appended. */
  lemma PrefixKeepsKey<C>(before: seq<Row<C>>, after: seq<Row<C>>, key: C -> string, k: string)
    requires |before| <= |after| && after[..|before|] == before
    requires KeyTaken(before, key, k)
    ensures KeyTaken(after, key, k)
  {
    var i :| 0 <= i < |before| && key(before[i].cols) == k;
    assert after[i] == after[..|before|][i];
  }

  /** One more INSERT OR IGNORE, of `c` with id `id`, extends the
      description by `c`. */
  lemma InsertedOrIgnoredStep<C>(before: seq<Row<C>>, mid: seq<Row<C>>, cs: seq<C>, c: C,
                                 key: C -> string, now: nat, id: int, after: seq<Row<C>>)
    requires InsertedOrIgnored(before, mid, cs, key, now)
    requires KeyTaken(mid, key, key(c)) ==> after == mid
    requires !KeyTaken(mid, key, key(c)) ==> after == mid + [Row(id, now, c)]
    ensures InsertedOrIgnored(before, after, cs + [c], key, now)
  {
    var cs' := cs + [c];
    assert after[..|mid|] == mid;
    assert after[..|before|] == mid[..|before|];
    forall k | 0 <= k < |cs'| ensures KeyTaken(after, key, key(cs'[k])) {
      if k < |cs| {
        assert cs'[k] == cs[k];
        PrefixKeepsKey(mid, after, key, key(cs[k]));
      } else if !KeyTaken(mid, key, key(c)) {
        assert after[|mid|].cols == c;
      }
    }
    forall j | |before| <= j < |after|
      ensures after[j].createdAt == now && after[j].cols in cs' && !KeyTaken(before, key, key(after[j].cols))
    {
      if j < |mid| {
        assert after[j] == mid[j];
      } else {
        assert after[j] == Row(id, now, c);
        if KeyTaken(before, key, key(c)) {
          PrefixKeepsKey(before, mid, key, key(c));
        }
      }
    }
    if forall k :: 0 <= k < |cs'| ==> KeyTaken(before, key, key(cs'[k])) {
      forall k | 0 <= k < |cs| ensures KeyTaken(before, key, key(cs[k])) {
        assert cs'[k] == cs[k];
      }
      assert cs'[|cs|] == c;
    }
  }

  lemma TakeOneMore<T>(s: seq<T>, i: nat)
    requires i < |s|
    ensures s[..i + 1] == s[..i] + [s[i]]
  {
  }

  /** The step of a loop running INSERT OR IGNORE over `cs` in order: after
      `cs[i]` the first i + 1 values are described. */
  lemma InsertedOrIgnoredNext<C>(before: seq<Row<C>>, mid: seq<Row<C>>, cs: seq<C>, i: nat,
                                 key: C -> string, now: nat, id: int, after: seq<Row<C>>)
    requires i < |cs|
    requires InsertedOrIgnored(before, mid, cs[..i], key, now)
    requires KeyTaken(mid, key, key(cs[i])) ==> after == mid
    requires !KeyTaken(mid, key, key(cs[i])) ==> after == mid + [Row(id, now, cs[i])]
    ensures InsertedOrIgnored(before, after, cs[..i + 1], key, now)
  {
    InsertedOrIgnoredStep(before, mid, cs[..i], cs[i], key, now, id, after);
    TakeOneMore(cs, i);
  }

  /** One `INSERT OR IGNORE` of `c` under the UNIQUE column `key`: the row
      is added with the next id unless its key value is already held. */
  function InsertOrIgnore<C>(rows: seq<Row<C>>, last: int, now: nat, c: C, key: C -> string): seq<Row<C>> {
    if KeyTaken(rows, key, key(c)) then rows else rows + [Row(last + 1, now, c)]
  }

  /** `INSERT OR IGNORE` of each of `cs` in turn. Every statement draws an id
      from the AUTOINCREMENT counter, ignored or not, so the i-th statement
      (from 0) offers id last + i + 1. */
  function InsertEachOrIgnore<C>(rows: seq<Row<C>>, last: int, now: nat, cs: seq<C>,
                                 key: C -> string): seq<Row<C>>
    decreases |cs|
  {
    if cs == [] then rows
    else InsertOrIgnore(InsertEachOrIgnore(rows, last, now, cs[..|cs| - 1], key),
                        last + |cs| - 1, now, cs[|cs| - 1], key)
  }

  /** Running the first i + 1 statements is running the first i, then the
      next one with the next id. */
  lemma InsertEachOrIgnoreNext<C>(rows: seq<Row<C>>, last: int, now: nat, cs: seq<C>, i: nat,
                                  key: C -> string)
    requires i < |cs|
    ensures InsertEachOrIgnore(rows, last, now, cs[..i + 1], key)
         == InsertOrIgnore(InsertEachOrIgnore(rows, last, now, cs[..i], key), last + i, now, cs[i], key)
  {
    assert cs[..i + 1][..i] == cs[..i];
  }

  /** The statements in turn meet the description of INSERT OR IGNORE. */
  lemma {:induction false} InsertEachOrIgnoreSpec<C>(rows: seq<Row<C>>, last: int, now: nat, cs: seq<C>,
                                                     key: C -> string)
    ensures InsertedOrIgnored(rows, InsertEachOrIgnore(rows, last, now, cs, key), cs, key, now)
  {
    if cs == [] {
      assert rows[..|rows|] == rows;
    } else {
      var n := |cs| - 1;
      var mid := InsertEachOrIgnore(rows, last, now, cs[..n], key);
      InsertEachOrIgnoreSpec(rows, last, now, cs[..n], key);
      InsertedOrIgnoredNext(rows, mid, cs, n, key, now, last + n + 1, InsertEachOrIgnore(rows, last, now, cs, key));
      assert cs[..n + 1] == cs;
    }
  }

  /** When every key value of `cs` is already held, the statements add no
      row. */
  lemma {:induction false} InsertEachOrIgnoreHeld<C>(rows: seq<Row<C>>, last: int, now: nat, cs: seq<C>,
                                                     key: C -> string)
    requires forall k :: 0 <= k < |cs| ==> KeyTaken(rows, key, key(cs[k]))
    ensures InsertEachOrIgnore(rows, last, now, cs, key) == rows
  {
    if cs != [] {
      var n := |cs| - 1;
      assert forall k :: 0 <= k < n ==> cs[..n][k] == cs[k];
      InsertEachOrIgnoreHeld(rows, last, now, cs[..n], key);
    }
  }

  /** After INSERT OR IGNORE under a unique key, each key value of `cs` is
      held by exactly one row. */
  lemma InsertedOrIgnoredOnce<C>(before: seq<Row<C>>, after: seq<Row<C>>, cs: seq<C>,
                                 key: C -> string, now: nat, k: nat)
    requires InsertedOrIgnored(before, after, cs, key, now) && KeyUnique(after, key)
    requires k < |cs|
    ensures KeyCount(after, key, key(cs[k])) == 1
  {
    KeyHeldOnce(after, key, key(cs[k]));
  }

  /** Running the same INSERT OR IGNORE statements again adds nothing. */
  lemma InsertedOrIgnoredTwice<C>(before: seq<Row<C>>, mid: seq<Row<C>>, after: seq<Row<C>>,
                                  cs: seq<C>, key: C -> string, now: nat, later: nat)
    requires InsertedOrIgnored(before, mid, cs, key, now)
    requires InsertedOrIgnored(mid, after, cs, key, later)
    ensures after == mid
  {
  }

  // ---------------------------------------------------------------------
  // ORDER BY created_at DESC

  /** Newest first: created_at never increases along the sequence. */
  ghost predicate NewestFirstOrder<C>(s: seq<Row<C>>) {
    forall i, j :: 0 <= i < j < |s| ==> s[i].createdAt >= s[j].createdAt
  }

  /** Places `x` into a newest-first sequence, before every row no newer than
      it. */
  function InsertByTime<C>(x: Row<C>, s: seq<Row<C>>): seq<Row<C>> {
    if s == [] || x.createdAt >= s[0].createdAt then [x] + s
    else [s[0]] + InsertByTime(x, s[1..])
  }

  /** Placing a row adds exactly that row. */
  lemma {:induction false} InsertByTimePerm<C>(x: Row<C>, s: seq<Row<C>>)
    ensures multiset(InsertByTime(x, s)) == multiset(s) + multiset{x}
  {
    if s != [] && x.createdAt < s[0].createdAt {
      InsertByTimePerm(x, s[1..]);
      assert s == [s[0]] + s[1..];
    }
  }

  /** Placing a row no newer than `b` among rows no newer than `b` gives
      rows no newer than `b`. */
  lemma {:induction false} InsertByTimeBounded<C>(x: Row<C>, s: seq<Row<C>>, b: nat)
    requires x.createdAt <= b
    requires forall i :: 0 <= i < |s| ==> s[i].createdAt <= b
    ensures forall i :: 0 <= i < |InsertByTime(x, s)| ==> InsertByTime(x, s)[i].createdAt <= b
  {
    if s != [] && x.createdAt < s[0].createdAt {
      InsertByTimeBounded(x, s[1..], b);
    }
  }

  /** Placing a row into a newest-first sequence keeps it newest first. */
  lemma {:induction false} InsertByTimeOrdered<C>(x: Row<C>, s: seq<Row<C>>)
    requires NewestFirstOrder(s)
    ensures NewestFirstOrder(InsertByTime(x, s))
  {
    if s == [] || x.createdAt >= s[0].createdAt {
      if s != [] {
        forall j | 0 < j < |[x] + s| ensures ([x] + s)[0].createdAt >= ([x] + s)[j].createdAt {
          assert ([x] + s)[j] == s[j - 1];
        }
      }
    } else {
      var tail := s[1..];
      assert NewestFirstOrder(tail);
      InsertByTimeOrdered(x, tail);
      InsertByTimeBounded(x, tail, s[0].createdAt);
    }
  }

  /** `ORDER BY created_at DESC`: the rows, newest first. Rows with equal
      stamps keep table (rowid) order here, so two queries order them the
      same way; the paging lemmas rely on that, SQLite does not promise it. */
  function NewestFirst<C>(rows: seq<Row<C>>): seq<Row<C>> {
    if rows == [] then [] else InsertByTime(rows[0], NewestFirst(rows[1..]))
  }

  /** Sorting newest first reorders the rows (a permutation) into
      non-increasing created_at. */
  lemma {:induction false} NewestFirstSorts<C>(rows: seq<Row<C>>)
    ensures multiset(NewestFirst(rows)) == multiset(rows)
    ensures NewestFirstOrder(NewestFirst(rows))
  {
    if rows != [] {
      NewestFirstSorts(rows[1..]);
      InsertByTimePerm(rows[0], NewestFirst(rows[1..]));
      InsertByTimeOrdered(rows[0], NewestFirst(rows[1..]));
      assert rows == [rows[0]] + rows[1..];
    }
  }

  /** The sorted rows are a permutation in non-increasing created_at, so
      they have the same length and the same members as the table. */
  lemma NewestFirstSpec<C>(rows: seq<Row<C>>)
    ensures multiset(NewestFirst(rows)) == multiset(rows)
    ensures NewestFirstOrder(NewestFirst(rows))
    ensures |NewestFirst(rows)| == |rows|
    ensures forall x :: x in NewestFirst(rows) <==> x in rows
  {
    NewestFirstSorts(rows);
    var r := NewestFirst(rows);
    assert |multiset(r)| == |multiset(rows)|;
    forall x ensures x in r <==> x in rows {
      assert x in r <==> x in multiset(r);
      assert x in rows <==> x in multiset(rows);
    }
  }

  // ---------------------------------------------------------------------
  // LIMIT ? OFFSET ?

  /** The number of leading rows OFFSET skips out of `n`: SQLite treats a
      negative OFFSET as zero. */
  function Skipped(offset: int, n: nat): (k: nat)
    ensures k <= n
    ensures offset <= 0 ==> k == 0
    ensures 0 <= offset <= n ==> k == offset
  {
    if offset < 0 then 0 else if offset > n then n else offset
  }

  /** `LIMIT limit OFFSET offset` applied to a result sequence. SQLite
      reads a negative LIMIT as "no upper bound". */
  function Page<T>(s: seq<T>, limit: int, offset: int): (r: seq<T>)
    ensures Skipped(offset, |s|) + |r| <= |s|
    ensures r == s[Skipped(offset, |s|)..Skipped(offset, |s|) + |r|]
    ensures limit >= 0 ==> |r| <= limit
    ensures |r| == |s| - Skipped(offset, |s|) || |r| == limit
  {
    var from := Skipped(offset, |s|);
    if limit < 0 || limit > |s| - from then s[from..] else s[from..from + limit]
  }

  /** Two consecutive pages of one size make up the page of twice that size:
      listing page by page neither skips nor repeats a row. */
  lemma PagesTile<T>(s: seq<T>, limit: nat, offset: nat)
    ensures Page(s, limit, offset) + Page(s, limit, offset + limit) == Page(s, 2 * limit, offset)
  {
    var a, b, c := Page(s, limit, offset), Page(s, limit, offset + limit), Page(s, 2 * limit, offset);
    if offset + limit <= |s| {
      assert Skipped(offset + limit, |s|) == offset + |a|;
      assert a + b == s[offset..offset + |a| + |b|];
    } else {
      assert b == [];
    }
  }
}
