/**
 The order table of the coffee shop, as values: one row per order with the
 four columns of the sheet (OrderID, OrderTime, Status, Details), the masked
 status update that `update_order_status` performs, and the status filter
 that `get_orders_by_status` performs. The stateful sheet lives in module
 OrderSheet and is specified by the functions here.
 */
module OrderTable {

  /** The status strings the program writes. Any other string may also be
      stored: the update does not restrict its argument. */
  const Pending: string := "Pending"
  const Completed: string := "Completed"
  const Delivered: string := "Delivered"

  /** One row of the sheet. */
  datatype Row = Row(orderId: string, orderTime: string, status: string, details: string)

  /** The OrderID column, in table order. */
  function Ids(rows: seq<Row>): seq<string>
  {
    seq(|rows|, k requires 0 <= k < |rows| => rows[k].orderId)
  }

  /** No two rows share an OrderID. */
  ghost predicate UniqueIds(rows: seq<Row>)
  {
    forall i, j :: 0 <= i < j < |rows| ==> rows[i].orderId != rows[j].orderId
  }

  /** The effect of the mask `OrderID == id` on one row. */
  function Masked(row: Row, id: string, s: string): Row
  {
    if row.orderId == id then row.(status := s) else row
  }

  /** The table after `Status` is set to `s` on every row whose OrderID is `id`. */
  function SetStatus(rows: seq<Row>, id: string, s: string): (r: seq<Row>)
    ensures |r| == |rows|
  {
    if rows == [] then [] else [Masked(rows[0], id, s)] + SetStatus(rows[1..], id, s)
  }

  /** The rows whose Status is `s`, in table order. */
  function Filter(rows: seq<Row>, s: string): (r: seq<Row>)
    ensures |r| <= |rows|
    ensures forall x :: x in r ==> x in rows && x.status == s
  {
    if rows == [] then []
    else (if rows[0].status == s then [rows[0]] else []) + Filter(rows[1..], s)
  }

  // ---------------------------------------------------------------------------
  // The masked update

  /** Row k after the update: its status is `s` exactly when its OrderID is `id`,
      otherwise unchanged, and the other three columns are always unchanged. */
  lemma {:induction false} SetStatusAt(rows: seq<Row>, id: string, s: string, k: int)
    requires 0 <= k < |rows|
    ensures SetStatus(rows, id, s)[k].orderId == rows[k].orderId
    ensures SetStatus(rows, id, s)[k].orderTime == rows[k].orderTime
    ensures SetStatus(rows, id, s)[k].details == rows[k].details
    ensures SetStatus(rows, id, s)[k].status == if rows[k].orderId == id then s else rows[k].status
    ensures rows[k].orderId != id ==> SetStatus(rows, id, s)[k] == rows[k]
  {
    if k > 0 {
      SetStatusAt(rows[1..], id, s, k - 1);
    }
  }

  /** An id that no row holds leaves the table as it was. */
  lemma {:induction false} SetStatusAbsent(rows: seq<Row>, id: string, s: string)
    requires id !in Ids(rows)
    ensures SetStatus(rows, id, s) == rows
  {
    if rows != [] {
      assert rows[0].orderId == Ids(rows)[0];
      assert Ids(rows[1..]) == Ids(rows)[1..];
      SetStatusAbsent(rows[1..], id, s);
    }
  }

  /** The second of two updates of the same id wins. */
  lemma {:induction false} SetStatusOverwrite(rows: seq<Row>, id: string, s1: string, s2: string)
    ensures SetStatus(SetStatus(rows, id, s1), id, s2) == SetStatus(rows, id, s2)
  {
    if rows != [] {
      var once := SetStatus(rows, id, s1);
      assert once[1..] == SetStatus(rows[1..], id, s1);
      SetStatusOverwrite(rows[1..], id, s1, s2);
    }
  }

  /** Updating twice with the same id and status is the same as updating once. */
  lemma {:induction false} SetStatusIdempotent(rows: seq<Row>, id: string, s: string)
    ensures SetStatus(SetStatus(rows, id, s), id, s) == SetStatus(rows, id, s)
  {
    SetStatusOverwrite(rows, id, s, s);
  }

  /** The update never changes the OrderID column, so it keeps ids unique. */
  lemma {:induction false} SetStatusKeepsIds(rows: seq<Row>, id: string, s: string)
    ensures Ids(SetStatus(rows, id, s)) == Ids(rows)
    ensures UniqueIds(rows) ==> UniqueIds(SetStatus(rows, id, s))
  {
    forall k | 0 <= k < |rows|
      ensures SetStatus(rows, id, s)[k].orderId == rows[k].orderId
    {
      SetStatusAt(rows, id, s, k);
    }
  }

  /** The update does not look at the current status: whatever status row k
      had, a matching row ends with the requested one (so a "Pending" order
      can be marked "Delivered" without being "Completed" first). */
  lemma {:induction false} SetStatusIgnoresCurrent(rows: seq<Row>, id: string, s: string, k: int)
    requires 0 <= k < |rows| && rows[k].orderId == id
    ensures SetStatus(rows, id, s)[k] == rows[k].(status := s)
  {
    SetStatusAt(rows, id, s, k);
  }

  // ---------------------------------------------------------------------------
  // The status filter

  /** Every row with status `s` is in the filter (the converse is in Filter's contract). */
  lemma {:induction false} FilterComplete(rows: seq<Row>, s: string, x: Row)
    requires x in rows && x.status == s
    ensures x in Filter(rows, s)
  {
    if rows[0] != x {
      assert x in rows[1..];
      FilterComplete(rows[1..], s, x);
    }
  }

  /** Filtering a one-row table keeps the row exactly when its status matches. */
  lemma FilterSingle(x: Row, s: string)
    ensures Filter([x], s) == if x.status == s then [x] else []
  {
  }

  /** Filtering distributes over concatenation: with FilterSingle this fixes
      both which rows the filter returns and their order. */
  lemma {:induction false} FilterConcat(a: seq<Row>, b: seq<Row>, s: string)
    ensures Filter(a + b, s) == Filter(a, s) + Filter(b, s)
  {
    if a == [] {
      assert a + b == b;
    } else {
      assert (a + b)[0] == a[0];
      assert (a + b)[1..] == a[1..] + b;
      FilterConcat(a[1..], b, s);
    }
  }

  /** A row appended to the table appears at the end of the filter for its
      own status and in no other filter. */
  lemma FilterAppend(rows: seq<Row>, x: Row, s: string)
    ensures Filter(rows + [x], s) == Filter(rows, s) + (if x.status == s then [x] else [])
  {
    FilterConcat(rows, [x], s);
    FilterSingle(x, s);
  }

  /** Filters for two different statuses share no row. */
  lemma FiltersDisjoint(rows: seq<Row>, s1: string, s2: string)
    requires s1 != s2
    ensures multiset(Filter(rows, s1)) * multiset(Filter(rows, s2)) == multiset{}
  {
  }

  /** No status is listed twice. */
  ghost predicate Distinct(ss: seq<string>)
  {
    forall i, j :: 0 <= i < j < |ss| ==> ss[i] != ss[j]
  }

  /** The combined size of the filters for the statuses `ss`. */
  function SizeSum(rows: seq<Row>, ss: seq<string>): nat
  {
    if ss == [] then 0 else |Filter(rows, ss[0])| + SizeSum(rows, ss[1..])
  }

  /** Base case of FiltersPartition: on an empty table every filter is empty. */
  lemma {:induction false} SizeSumEmpty(ss: seq<string>)
    ensures SizeSum([], ss) == 0
  {
    if ss != [] {
      SizeSumEmpty(ss[1..]);
    }
  }

  /** One more row adds one to the filter of each listed status equal to its own. */
  lemma {:induction false} SizeSumCons(x: Row, rest: seq<Row>, ss: seq<string>)
    ensures SizeSum([x] + rest, ss) == multiset(ss)[x.status] + SizeSum(rest, ss)
  {
    if ss != [] {
      assert ([x] + rest)[0] == x && ([x] + rest)[1..] == rest;
      assert ss == [ss[0]] + ss[1..];
      SizeSumCons(x, rest, ss[1..]);
    }
  }

  /** A status listed in a list without repeats occurs in it exactly once. */
  lemma {:induction false} DistinctOnce(ss: seq<string>, v: string)
    requires Distinct(ss) && v in ss
    ensures multiset(ss)[v] == 1
  {
    assert ss == [ss[0]] + ss[1..];
    if ss[0] == v {
      assert v !in ss[1..];
    } else {
      DistinctOnce(ss[1..], v);
    }
  }

  /** For distinct statuses covering every status in the table, the filters
      partition it: pairwise disjoint (FiltersDisjoint) and together as large
      as the table. */
  lemma {:induction false} FiltersPartition(rows: seq<Row>, ss: seq<string>)
    requires Distinct(ss)
    requires forall k :: 0 <= k < |rows| ==> rows[k].status in ss
    ensures SizeSum(rows, ss) == |rows|
  {
    if rows == [] {
      SizeSumEmpty(ss);
    } else {
      assert rows == [rows[0]] + rows[1..];
      SizeSumCons(rows[0], rows[1..], ss);
      DistinctOnce(ss, rows[0].status);
      FiltersPartition(rows[1..], ss);
    }
  }
}
