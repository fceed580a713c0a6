/** The queue between the threads: items leave in the order in which they came. */
module Containers {
  class WaitableContainer<T> {
    var items: seq<T>

    constructor ()
      ensures items == []
    {
      items := [];
    }

    /** Waits for an item; a caller that would wait forever takes no turn. */
    method Get() returns (value: T)
      requires items != []
      modifies this
      ensures old(items) == [value] + items
    {
      value := items[0];
      items := items[1..];
    }

    method Append(data: T)
      modifies this
      ensures items == old(items) + [data]
    {
      items := items + [data];
    }

    method AppendList(list: seq<T>)
      modifies this
      ensures items == old(items) + list
    {
      items := items + list;
    }
  }
}
