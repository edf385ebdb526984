/**
 The order sheet the program keeps in a spreadsheet file. Every operation of
 the program loads the whole sheet, changes it and stores it back; here the
 sheet is an object whose `rows` field is the table, and each operation
 changes that field in place. The uuid and the clock reading that
 `create_order` draws are parameters.
 */
module OrderSheet {
  import opened OrderTable

  class Sheet {
    /** The rows of the sheet, in file order. */
    var rows: seq<Row>

    /** An empty sheet: the header-only file a first run writes. */
    constructor ()
      ensures rows == []
    {
      rows := [];
    }

    /** Appends a "Pending" row for a new order and returns its id. `id` stands
        for a fresh uuid, so it is not yet in the sheet. */
    method CreateOrder(details: string, id: string, time: string) returns (orderId: string)
      requires id !in Ids(rows)
      modifies this
      ensures orderId == id
      ensures rows == old(rows) + [Row(orderId, time, Pending, details)]
      ensures forall k :: 0 <= k < |rows| ==> (rows[k].orderId == orderId <==> k == |old(rows)|)
      ensures UniqueIds(old(rows)) ==> UniqueIds(rows)
    {
      var newOrder := Row(id, time, Pending, details);
      rows := rows + [newOrder];
      orderId := newOrder.orderId;
      forall k | 0 <= k < |old(rows)|
        ensures rows[k].orderId != orderId
      {
        assert Ids(old(rows))[k] == old(rows)[k].orderId;
      }
    }

    /** Sets Status to `status` on every row whose OrderID is `id`,
        whatever status those rows had before. */
    method UpdateOrderStatus(id: string, status: string)
      modifies this
      ensures rows == SetStatus(old(rows), id, status)
    {
      var i := 0;
      while i < |rows|
        invariant 0 <= i <= |rows| == |old(rows)|
        invariant forall k :: 0 <= k < i ==> rows[k] == Masked(old(rows)[k], id, status)
        invariant forall k :: i <= k < |rows| ==> rows[k] == old(rows)[k]
      {
        if rows[i].orderId == id {
          rows := rows[i := rows[i].(status := status)];
        }
        i := i + 1;
      }
      forall k | 0 <= k < |rows|
        ensures rows[k] == SetStatus(old(rows), id, status)[k]
      {
        SetStatusAt(old(rows), id, status, k);
      }
    }

    /** The rows whose Status is `status`, in sheet order; the sheet is not changed. */
    method GetOrdersByStatus(status: string) returns (found: seq<Row>)
      ensures found == Filter(rows, status)
      ensures forall x :: x in found <==> x in rows && x.status == status
    {
      found := Filter(rows, status);
      forall x | x in rows && x.status == status
        ensures x in found
      {
        FilterComplete(rows, status, x);
      }
    }

    /** Marks the order "Delivered", without looking at its current status. */
    method ServeOrder(id: string)
      modifies this
      ensures rows == SetStatus(old(rows), id, Delivered)
    {
      UpdateOrderStatus(id, Delivered);
    }

    /** Marks the order "Completed", without looking at its current status. */
    method CookOrder(id: string)
      modifies this
      ensures rows == SetStatus(old(rows), id, Completed)
    {
      UpdateOrderStatus(id, Completed);
    }
  }

  /** A client of the sheet: two orders are taken, the first is served before
      it is cooked, and the pending and delivered views are read back. */
  method ServeBeforeCook()
  {
    var sheet := new Sheet();
    var a := sheet.CreateOrder("latte", "a", "2024-05-01 09:00:00");
    var b := sheet.CreateOrder("espresso", "b", "2024-05-01 09:01:00");
    var pending := sheet.GetOrdersByStatus(Pending);
    assert |pending| == 2;

    sheet.ServeOrder(a);
    assert sheet.rows[0].status == Delivered;
    assert sheet.rows[1].status == Pending;
    pending := sheet.GetOrdersByStatus(Pending);
    var delivered := sheet.GetOrdersByStatus(Delivered);
    assert pending == [Row(b, "2024-05-01 09:01:00", Pending, "espresso")];
    assert delivered == [Row(a, "2024-05-01 09:00:00", Delivered, "latte")];

    // An id that no order has changes nothing.
    var before := sheet.rows;
    sheet.CookOrder("c");
    assert sheet.rows == before;
  }
}
