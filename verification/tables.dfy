/** Account-scoped tables. Every table of the store (inventory, customers,
    sales) has a text primary key and a `user_id` owner, and every route
    reads and writes it through `WHERE id = ? AND user_id = ?` or
    `WHERE user_id = ?`. A table is modelled as its rows in insertion order,
    which stands in for the `created_at` order. */
module Tables {
  import opened Base
  import Seqs

  datatype Row<+R> = Row(id: Id, owner: Account, data: R)

  type Table<R> = seq<Row<R>>

  /** The PRIMARY KEY constraint on `id`. */
  predicate UniqueIds<R>(t: Table<R>)
  {
    forall i, j :: 0 <= i < j < |t| ==> t[i].id != t[j].id
  }

  predicate HasId<R>(t: Table<R>, id: Id)
  {
    exists i :: 0 <= i < |t| && t[i].id == id
  }

  /** `WHERE id = ? AND user_id = ?` */
  predicate Matches<R>(row: Row<R>, id: Id, acct: Account)
  {
    row.id == id && row.owner == acct
  }

  predicate AnyMatch<R>(t: Table<R>, id: Id, acct: Account)
  {
    exists i :: 0 <= i < |t| && Matches(t[i], id, acct)
  }

  /** The row filter of `WHERE user_id = ?`. */
  function OwnedBy<R>(acct: Account): Row<R> -> bool
  {
    (row: Row<R>) => row.owner == acct
  }

  /** The rows a `DELETE ... WHERE id = ? AND user_id = ?` keeps. */
  function Unmatched<R>(id: Id, acct: Account): Row<R> -> bool
  {
    (row: Row<R>) => !Matches(row, id, acct)
  }

  /** `SELECT * ... WHERE user_id = ?`: the rows of one account, in table order. */
  function Owned<R>(t: Table<R>, acct: Account): (r: Table<R>)
    ensures forall i :: 0 <= i < |r| ==> r[i].owner == acct && r[i] in t
    ensures forall i :: 0 <= i < |t| && t[i].owner == acct ==> t[i] in r
    ensures Seqs.SubsequenceOf(r, t)
  {
    Seqs.FilterMembers(t, OwnedBy(acct));
    Seqs.FilterSubsequence(t, OwnedBy(acct));
    Seqs.Filter(t, OwnedBy(acct))
  }

  /** Each of the caller's rows comes back as often as it is stored, and
      no other row comes back. */
  lemma {:induction false} OwnedCount<R(!new)>(t: Table<R>, acct: Account)
    ensures forall x :: multiset(Owned(t, acct))[x] == if x.owner == acct then multiset(t)[x] else 0
  {
    Seqs.FilterCount(t, OwnedBy(acct));
  }

  /** `INSERT`: appends the row, or fails (None) when the primary key is
      already taken, in which case nothing is written. */
  function Insert<R>(t: Table<R>, row: Row<R>): (r: Option<Table<R>>)
    ensures r.None? <==> HasId(t, row.id)
    ensures r.Some? ==> r.value == t + [row]
    ensures r.Some? && UniqueIds(t) ==> UniqueIds(r.value)
  {
    if HasId(t, row.id) then None else Some(t + [row])
  }

  /** A match in a non-empty table is in its first row or in the rest. */
  lemma {:induction false} AnyMatchCons<R>(t: Table<R>, id: Id, acct: Account)
    requires |t| > 0
    ensures AnyMatch(t, id, acct) <==> Matches(t[0], id, acct) || AnyMatch(t[1..], id, acct)
  {
    if AnyMatch(t[1..], id, acct) {
      var k :| 0 <= k < |t[1..]| && Matches(t[1..][k], id, acct);
      assert Matches(t[k+1], id, acct);
    }
    if AnyMatch(t, id, acct) && !Matches(t[0], id, acct) {
      var k :| 0 <= k < |t| && Matches(t[k], id, acct);
      assert Matches(t[1..][k-1], id, acct);
    }
  }

  /** Under the primary key the rest of a table keeps unique ids, none of
      them the first row's. */
  lemma {:induction false} UniqueTail<R>(t: Table<R>)
    requires |t| > 0 && UniqueIds(t)
    ensures UniqueIds(t[1..])
    ensures forall k :: 1 <= k < |t| ==> t[k].id != t[0].id
  {
    assert forall i :: 0 <= i < |t[1..]| ==> t[1..][i] == t[i+1];
  }

  /** `UPDATE ... SET ... WHERE id = ? AND user_id = ?`: applies `f` to the
      data of every matching row and reports `this.changes`, the number of
      rows it matched. Rows keep their position, id and owner. */
  function Modify<R>(t: Table<R>, id: Id, acct: Account, f: R -> R): (r: (Table<R>, nat))
    ensures |r.0| == |t|
    ensures forall i :: 0 <= i < |t| ==>
      r.0[i] == if Matches(t[i], id, acct) then t[i].(data := f(t[i].data)) else t[i]
    ensures r.1 == 0 <==> !AnyMatch(t, id, acct)
    ensures UniqueIds(t) ==> r.1 <= 1
    ensures UniqueIds(t) ==> UniqueIds(r.0)
  {
    var rows := seq(|t|, i requires 0 <= i < |t| =>
      if Matches(t[i], id, acct) then t[i].(data := f(t[i].data)) else t[i]);
    assert forall i :: 0 <= i < |t| ==> rows[i].id == t[i].id;
    (rows, MatchCount(t, id, acct))
  }

  /** The number of rows `WHERE id = ? AND user_id = ?` matches. */
  function MatchCount<R>(t: Table<R>, id: Id, acct: Account): (n: nat)
    ensures n == 0 <==> !AnyMatch(t, id, acct)
    ensures UniqueIds(t) ==> n <= 1
  {
    if |t| == 0 then 0
    else
      var rest := MatchCount(t[1..], id, acct);
      assert rest == 0 <==> !AnyMatch(t[1..], id, acct);
      AnyMatchCons(t, id, acct);
      assert UniqueIds(t) && Matches(t[0], id, acct) ==> !AnyMatch(t[1..], id, acct) by {
        if UniqueIds(t) {
          UniqueTail(t);
          if AnyMatch(t[1..], id, acct) {
            var k :| 0 <= k < |t[1..]| && Matches(t[1..][k], id, acct);
            assert t[1..][k].id == t[k+1].id;
          }
        }
      }
      assert UniqueIds(t) ==> UniqueIds(t[1..]) by {
        if UniqueIds(t) {
          UniqueTail(t);
        }
      }
      (if Matches(t[0], id, acct) then 1 else 0) + rest
  }

  /** An update that matches nothing writes nothing. */
  lemma {:induction false} ModifyUnmatched<R>(t: Table<R>, id: Id, acct: Account, f: R -> R)
    requires !AnyMatch(t, id, acct)
    ensures Modify(t, id, acct, f).0 == t
  {
    var m := Modify(t, id, acct, f).0;
    assert forall i :: 0 <= i < |t| ==> m[i] == t[i];
  }

  /** `DELETE ... WHERE id = ? AND user_id = ?`: drops the matching rows and
      reports `this.changes`. */
  function Delete<R>(t: Table<R>, id: Id, acct: Account): (r: (Table<R>, nat))
    ensures forall i :: 0 <= i < |r.0| ==> r.0[i] in t && !Matches(r.0[i], id, acct)
    ensures forall i :: 0 <= i < |t| && !Matches(t[i], id, acct) ==> t[i] in r.0
    ensures r.1 == |t| - |r.0|
    ensures r.1 == 0 <==> !AnyMatch(t, id, acct)
  {
    var kept := Seqs.Filter(t, Unmatched(id, acct));
    Seqs.FilterMembers(t, Unmatched(id, acct));
    if AnyMatch(t, id, acct) then
      var k :| 0 <= k < |t| && Matches(t[k], id, acct);
      Seqs.FilterShorter(t, Unmatched(id, acct), k);
      (kept, |t| - |kept|)
    else
      Seqs.FilterAll(t, Unmatched(id, acct));
      (kept, |t| - |kept|)
  }

  /** Delete keeps the remaining rows in their original relative order. */
  lemma {:induction false} DeleteKeepsOrder<R>(a: Table<R>, b: Table<R>, id: Id, acct: Account)
    ensures Delete(a + b, id, acct).0 == Delete(a, id, acct).0 + Delete(b, id, acct).0
  {
    Seqs.FilterAppend(a, b, Unmatched(id, acct));
  }

  /** Account isolation: an update scoped to `acct` leaves every other
      account's view of the table exactly as it was. */
  lemma {:induction false} ModifyIsolated<R>(t: Table<R>, id: Id, acct: Account, f: R -> R, other: Account)
    requires other != acct
    ensures Owned(Modify(t, id, acct, f).0, other) == Owned(t, other)
  {
    var m := Modify(t, id, acct, f).0;
    Seqs.FilterAgree(m, t, OwnedBy(other));
  }

  /** Account isolation: a delete scoped to `acct` leaves every other
      account's view of the table exactly as it was. */
  lemma {:induction false} DeleteIsolated<R>(t: Table<R>, id: Id, acct: Account, other: Account)
    requires other != acct
    ensures Owned(Delete(t, id, acct).0, other) == Owned(t, other)
  {
    Seqs.FilterAbsorb(t, Unmatched(id, acct), OwnedBy(other));
  }

  /** Account isolation: a row inserted for `acct` is invisible to every other account. */
  lemma {:induction false} InsertIsolated<R>(t: Table<R>, row: Row<R>, other: Account)
    requires row.owner != other && Insert(t, row).Some?
    ensures Owned(Insert(t, row).value, other) == Owned(t, other)
  {
    Seqs.FilterAppend(t, [row], OwnedBy(other));
  }

  /** `SELECT * ... WHERE id = ? AND user_id = ?`: the first matching row. */
  function Lookup<R>(t: Table<R>, id: Id, acct: Account): (r: Option<R>)
    ensures r.Some? <==> AnyMatch(t, id, acct)
    ensures r.Some? ==> exists i :: 0 <= i < |t| && Matches(t[i], id, acct) && t[i].data == r.value
  {
    if |t| == 0 then None
    else if Matches(t[0], id, acct) then Some(t[0].data)
    else
      assert AnyMatch(t, id, acct) ==> AnyMatch(t[1..], id, acct) by {
        if AnyMatch(t, id, acct) {
          var k :| 0 <= k < |t| && Matches(t[k], id, acct);
          assert Matches(t[1..][k-1], id, acct);
        }
      }
      var r := Lookup(t[1..], id, acct);
      assert r.Some? ==> exists i :: 0 <= i < |t| && Matches(t[i], id, acct) && t[i].data == r.value by {
        if r.Some? {
          var k :| 0 <= k < |t[1..]| && Matches(t[1..][k], id, acct) && t[1..][k].data == r.value;
          assert t[k+1] == t[1..][k];
        }
      }
      r
  }

  /** Reading back an insert: the new row is found under its key, and every
      other key reads as before. */
  lemma {:induction false} LookupInsert<R>(t: Table<R>, row: Row<R>, id: Id, acct: Account)
    requires Insert(t, row).Some?
    ensures Lookup(Insert(t, row).value, id, acct) ==
      if id == row.id && acct == row.owner then Some(row.data) else Lookup(t, id, acct)
  {
    if |t| == 0 {
      assert Insert(t, row).value == [row];
    } else {
      assert Insert(t, row).value == [t[0]] + (t[1..] + [row]);
      assert forall k :: 0 <= k < |t[1..]| ==> t[1..][k] == t[k+1];
      LookupInsert(t[1..], row, id, acct);
    }
  }

  /** Reading back an update: the updated key reads as `f` of its old data,
      and every other key reads as before. */
  lemma {:induction false} LookupModify<R>(t: Table<R>, id: Id, acct: Account, f: R -> R, id2: Id, acct2: Account)
    ensures Lookup(Modify(t, id, acct, f).0, id2, acct2) ==
      if id2 == id && acct2 == acct then
        (if AnyMatch(t, id, acct) then Some(f(Lookup(t, id, acct).value)) else None)
      else Lookup(t, id2, acct2)
  {
    if |t| > 0 {
      var m := Modify(t, id, acct, f).0;
      assert m[0].id == t[0].id && m[0].owner == t[0].owner;
      if Matches(t[0], id2, acct2) {
        assert Lookup(m, id2, acct2) == Some(m[0].data);
        assert Lookup(t, id2, acct2) == Some(t[0].data);
      } else {
        assert m[1..] == Modify(t[1..], id, acct, f).0;
        assert Lookup(m, id2, acct2) == Lookup(m[1..], id2, acct2);
        AnyMatchCons(t, id, acct);
        LookupModify(t[1..], id, acct, f, id2, acct2);
      }
    }
  }

  /** Reading back a delete: the deleted key is gone, and every other key
      reads as before. */
  lemma {:induction false} LookupDelete<R>(t: Table<R>, id: Id, acct: Account, id2: Id, acct2: Account)
    ensures Lookup(Delete(t, id, acct).0, id2, acct2) ==
      if id2 == id && acct2 == acct then None else Lookup(t, id2, acct2)
  {
    var keep: Row<R> -> bool := Unmatched(id, acct);
    if |t| > 0 {
      assert t == [t[0]] + t[1..];
      Seqs.FilterAppend([t[0]], t[1..], keep);
      LookupDelete(t[1..], id, acct, id2, acct2);
      if keep(t[0]) {
        assert Delete(t, id, acct).0 == [t[0]] + Delete(t[1..], id, acct).0;
      } else {
        assert Delete(t, id, acct).0 == Delete(t[1..], id, acct).0;
      }
    }
  }

  /** Under the primary key, a delete that matches row `k` removes exactly that row. */
  lemma {:induction false} DeleteUnique<R>(t: Table<R>, id: Id, acct: Account, k: nat)
    requires UniqueIds(t) && k < |t| && Matches(t[k], id, acct)
    ensures Delete(t, id, acct).0 == t[..k] + t[k+1..]
  {
    var keep: Row<R> -> bool := Unmatched(id, acct);
    forall i | 0 <= i < |t| && i != k ensures keep(t[i]) {
      assert t[i].id != t[k].id;
    }
    Seqs.FilterDropOne(t, keep, k);
  }
}
