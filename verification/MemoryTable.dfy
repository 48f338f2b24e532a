/** The memory table, and its partial unique index over current fact slots. */
module MemoryTable {
  import opened Attempts
  import opened SlotKeys

  /** A `memory_record` row; `current` is `valid_to IS NULL`. */
  datatype Row = Row(
    id: nat,
    organization: nat,
    user: nat,
    memoryType: string,
    key: Option<string>,
    current: bool,
    structured: Json)

  /** Two rows the index `(organization_id, user_id, fact_key) WHERE valid_to IS
      NULL AND fact_key IS NOT NULL` will not hold together. */
  predicate SameSlot(a: Row, b: Row) {
    && a.current && b.current
    && a.organization == b.organization && a.user == b.user
    && a.key.Some? && a.key == b.key
  }

  predicate UniqueSlots(rows: seq<Row>) {
    forall i, j :: 0 <= i < j < |rows| ==> !SameSlot(rows[i], rows[j])
  }

  /** The primary key. */
  predicate UniqueIds(rows: seq<Row>) {
    forall i, j :: 0 <= i < j < |rows| ==> rows[i].id != rows[j].id
  }

  function Count(rows: seq<Row>, p: Row -> bool): nat {
    if rows == [] then 0
    else Count(rows[..|rows| - 1], p) + if p(rows[|rows| - 1]) then 1 else 0
  }

  lemma CountNext(rows: seq<Row>, i: nat, p: Row -> bool)
    requires i < |rows|
    ensures Count(rows[..i + 1], p) == Count(rows[..i], p) + if p(rows[i]) then 1 else 0
  {
    assert rows[..i + 1][..i] == rows[..i];
  }

  lemma {:induction false} CountNone(rows: seq<Row>, p: Row -> bool)
    ensures Count(rows, p) == 0 <==> forall i :: 0 <= i < |rows| ==> !p(rows[i])
  {
    if rows != [] {
      var n := |rows| - 1;
      CountNone(rows[..n], p);
      assert forall i :: 0 <= i < n ==> rows[i] == rows[..n][i];
    }
  }

  /** Two rows that satisfy the predicate, or at most one. */
  lemma {:induction false} CountTwo(rows: seq<Row>, p: Row -> bool)
    ensures Count(rows, p) >= 2 <==> exists i, j :: 0 <= i < j < |rows| && p(rows[i]) && p(rows[j])
  {
    if rows != [] {
      var n := |rows| - 1;
      CountTwo(rows[..n], p);
      CountNone(rows[..n], p);
      assert forall i :: 0 <= i < n ==> rows[i] == rows[..n][i];
      if Count(rows, p) >= 2 {
        if Count(rows[..n], p) >= 2 {
          var i, j :| 0 <= i < j < n && p(rows[..n][i]) && p(rows[..n][j]);
          assert p(rows[i]) && p(rows[j]);
        } else {
          var i :| 0 <= i < n && p(rows[..n][i]);
          assert p(rows[i]) && p(rows[n]);
        }
      } else {
        forall i, j | 0 <= i < j < |rows|
          ensures !(p(rows[i]) && p(rows[j]))
        {
          assert j < n ==> !(p(rows[..n][i]) && p(rows[..n][j]));
          assert j == n && p(rows[n]) ==> !p(rows[..n][i]);
        }
      }
    }
  }

  lemma {:induction false} CountSum(rows: seq<Row>, p: Row -> bool, q: Row -> bool, r: Row -> bool)
    requires forall i :: 0 <= i < |rows| ==>
      (if p(rows[i]) then 1 else 0) == (if q(rows[i]) then 1 else 0) + (if r(rows[i]) then 1 else 0)
    ensures Count(rows, p) == Count(rows, q) + Count(rows, r)
  {
    if rows != [] {
      var n := |rows| - 1;
      assert forall i :: 0 <= i < n ==> rows[..n][i] == rows[i];
      CountSum(rows[..n], p, q, r);
    }
  }

  // ---- one tenant's rows ---------------------------------------------------

  function Scoped(rows: seq<Row>, org: nat): seq<Row> {
    if rows == [] then []
    else
      var before := Scoped(rows[..|rows| - 1], org);
      if rows[|rows| - 1].organization == org then before + [rows[|rows| - 1]] else before
  }

  lemma ScopedNext(rows: seq<Row>, org: nat, m: nat)
    requires m < |rows|
    ensures Scoped(rows[..m + 1], org)
            == if rows[m].organization == org then Scoped(rows[..m], org) + [rows[m]] else Scoped(rows[..m], org)
  {
    assert rows[..m + 1][..m] == rows[..m];
  }

  /** The rows of one tenant that satisfy the predicate. */
  function Within(org: nat, p: Row -> bool): Row -> bool {
    (row: Row) => row.organization == org && p(row)
  }

  lemma {:induction false} CountScoped(rows: seq<Row>, org: nat, p: Row -> bool)
    ensures Count(Scoped(rows, org), p) == Count(rows, Within(org, p))
  {
    if rows != [] {
      var n := |rows| - 1;
      CountScoped(rows[..n], org, p);
      var before := Scoped(rows[..n], org);
      if rows[n].organization == org {
        assert Scoped(rows, org)[..|before|] == before;
      }
    }
  }

  // ---- statements ----------------------------------------------------------

  /** `UPDATE ... SET fact_key WHERE id AND organization_id`. */
  function Rekey(rows: seq<Row>, org: nat, id: nat, key: string): (r: seq<Row>)
    ensures |r| == |rows|
    ensures forall i :: 0 <= i < |rows| ==>
      r[i] == if rows[i].id == id && rows[i].organization == org then rows[i].(key := Some(key)) else rows[i]
  {
    seq(|rows|, i requires 0 <= i < |rows| =>
      if rows[i].id == id && rows[i].organization == org then rows[i].(key := Some(key)) else rows[i])
  }

  /** The rows that satisfy the predicate are closed. */
  function CloseWhere(rows: seq<Row>, p: Row -> bool): (r: seq<Row>)
    ensures |r| == |rows|
    ensures forall i :: 0 <= i < |rows| ==> r[i] == if p(rows[i]) then rows[i].(current := false) else rows[i]
  {
    seq(|rows|, i requires 0 <= i < |rows| => if p(rows[i]) then rows[i].(current := false) else rows[i])
  }

  function Select(rows: seq<Row>, p: Row -> bool): (r: seq<Row>)
    ensures |r| == Count(rows, p)
    ensures forall row :: row in r <==> row in rows && p(row)
  {
    if rows == [] then []
    else
      var n := |rows| - 1;
      assert rows == rows[..n] + [rows[n]];
      Select(rows[..n], p) + if p(rows[n]) then [rows[n]] else []
  }

  /** How a run over the table ends: normally, or on the index, rolled back. */
  datatype Outcome = Returned | IndexViolated

  datatype WriteResult = Rejected | Updated(count: nat)

  predicate IsTarget(row: Row, org: nat, id: nat) {
    row.id == id && row.organization == org
  }

  function Target(org: nat, id: nat): Row -> bool {
    (row: Row) => IsTarget(row, org, id)
  }

  function IsCurrentTarget(org: nat, id: nat): Row -> bool {
    (row: Row) => IsTarget(row, org, id) && row.current
  }

  const CURRENT_LIMIT := 50

  /** The table behind its tenant-scoped repository: as the session sees it, and
      as last committed. */
  class MemoryStore {
    var rows: seq<Row>
    var committed: seq<Row>

    constructor (rows: seq<Row>)
      ensures this.rows == committed == rows
    {
      this.rows, committed := rows, rows;
    }

    method Commit()
      modifies this`committed
      ensures committed == rows
    {
      committed := rows;
    }

    method RollBack()
      modifies this`rows
      ensures rows == committed
    {
      rows := committed;
    }

    /** `session.add` and its flush: the index may reject the row. */
    method Insert(row: Row) returns (ok: bool)
      modifies this`rows
      ensures ok <==> UniqueSlots(old(rows) + [row])
      ensures rows == if ok then old(rows) + [row] else old(rows)
    {
      ok := UniqueSlots(rows + [row]);
      if ok {
        rows := rows + [row];
      }
    }

    /** `get_current_by_fact_key`, newest first and at most fifty. */
    method GetCurrent(p: Row -> bool) returns (found: seq<Row>)
      ensures found == Page(Select(rows, p), 0, CURRENT_LIMIT)
      ensures forall row :: row in found ==> row in rows && p(row)
      ensures Count(rows, p) <= CURRENT_LIMIT ==> forall row :: row in rows && p(row) ==> row in found
    {
      found := Page(Select(rows, p), 0, CURRENT_LIMIT);
    }

    /** `supersede_if_current`. */
    method SupersedeIfCurrent(org: nat, id: nat) returns (count: nat)
      modifies this`rows
      ensures count == Count(old(rows), IsCurrentTarget(org, id))
      ensures rows == CloseWhere(old(rows), IsCurrentTarget(org, id))
    {
      count := Count(rows, IsCurrentTarget(org, id));
      rows := CloseWhere(rows, IsCurrentTarget(org, id));
    }

    /** `get_all(offset, limit)`. */
    method GetAll(org: nat, offset: nat, limit: nat) returns (page: seq<Row>)
      ensures page == Page(Scoped(rows, org), offset, limit)
    {
      page := Page(Scoped(rows, org), offset, limit);
    }

    /** `_write_key`: the statement fails, changing nothing, when the partial
        unique index would not hold after it. */
    method WriteKey(org: nat, id: nat, key: string) returns (r: WriteResult)
      modifies this`rows
      ensures UniqueSlots(Rekey(old(rows), org, id, key)) ==>
        rows == Rekey(old(rows), org, id, key) && r == Updated(Count(old(rows), Target(org, id)))
      ensures !UniqueSlots(Rekey(old(rows), org, id, key)) ==> rows == old(rows) && r == Rejected
    {
      var updated := Rekey(rows, org, id, key);
      if UniqueSlots(updated) {
        r := Updated(Count(rows, Target(org, id)));
        rows := updated;
      } else {
        r := Rejected;
      }
    }
  }

  function Page(scoped: seq<Row>, offset: nat, limit: nat): (page: seq<Row>)
    ensures |page| <= limit
    ensures offset <= |scoped| ==> offset + |page| <= |scoped| && page == scoped[offset..offset + |page|]
    ensures offset <= |scoped| && |page| < limit ==> offset + |page| == |scoped|
  {
    if offset >= |scoped| then []
    else if offset + limit <= |scoped| then scoped[offset..offset + limit]
    else scoped[offset..]
  }

  /** What the paging loops read from an offset on. */
  function Paged(scoped: seq<Row>, offset: nat, limit: nat): seq<Row>
    requires offset <= |scoped|
    decreases |scoped| - offset
  {
    var page := Page(scoped, offset, limit);
    if page == [] then []
    else page + if |page| < limit then [] else Paged(scoped, offset + |page|, limit)
  }

  lemma PageThenRest(scoped: seq<Row>, offset: nat, n: nat)
    requires offset + n <= |scoped|
    ensures scoped[offset..offset + n] + scoped[offset + n..] == scoped[offset..]
  {
  }

  /** Paging reads every row exactly once, in order, whatever the page size. */
  lemma {:induction false} PagedReadsAll(scoped: seq<Row>, offset: nat, limit: nat)
    requires offset <= |scoped| && 1 <= limit
    ensures Paged(scoped, offset, limit) == scoped[offset..]
    decreases |scoped| - offset
  {
    var page := Page(scoped, offset, limit);
    PageThenRest(scoped, offset, |page|);
    hide Page;
    if |page| == limit {
      PagedReadsAll(scoped, offset + limit, limit);
    }
  }
}
