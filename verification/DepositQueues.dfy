/** The queues of deposit reports and of tipped deposits: first in, first out. */
module DepositQueues {
  import opened MarketParams
  import opened Options

  datatype DepositReport = DepositReport(queryData: Text, value: Text)

  class Queue<T> {
    var items: seq<T>

    constructor ()
      ensures items == []
    {
      items := [];
    }

    method Add(item: T)
      modifies this
      ensures items == old(items) + [item]
    {
      items := items + [item];
    }

    method RemoveOldest()
      modifies this
      ensures items == if old(items) == [] then [] else old(items)[1..]
    {
      if |items| == 0 { return; }
      items := items[1..];
    }

    method GetOldest() returns (item: Option<T>)
      ensures item == if items == [] then None else Some(items[0])
    {
      if |items| == 0 { return None; }
      return Some(items[0]);
    }
  }
}
