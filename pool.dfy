/** The database-handle pool of index.js (`db_open` / `db_close`): a list of
    callers waiting for a handle and a list of idle handles, both used as
    stacks (`push` / `pop`), so the most recently queued caller is served
    first. A caller is stood for by its callback. */
module Connections {
  import opened Wrappers

  class Pool<H(==), W> {
    /** `db_waiting` */
    var waiting: seq<W>
    /** `db_available` */
    var available: seq<H>
    /** The handles callers hold: handed out by `Open` or to a waiter, not yet closed. */
    ghost var held: multiset<H>

    /** A caller only waits while no handle is idle. */
    ghost predicate Valid()
      reads this
    {
      waiting == [] || available == []
    }

    /** Every handle the pool knows of, idle or held. */
    ghost function Handles(): multiset<H>
      reads this
    {
      multiset(available) + held
    }

    constructor()
      ensures Valid() && waiting == [] && available == [] && held == multiset{}
    {
      waiting := [];
      available := [];
      held := multiset{};
    }

    /** `db_open(cb)`: the most recently idled handle if there is one, given to
        the caller; otherwise the caller is queued and `None` is returned. */
    method Open(w: W) returns (h: Option<H>)
      requires Valid()
      modifies this
      ensures Valid()
      ensures old(available) != [] ==>
        && h == Some(old(available)[|old(available)| - 1])
        && available == old(available)[..|old(available)| - 1]
        && waiting == old(waiting)
        && held == old(held) + multiset{h.value}
      ensures old(available) == [] ==>
        h == None && waiting == old(waiting) + [w] && available == old(available) && held == old(held)
      ensures Handles() == old(Handles())
    {
      if |available| > 0 {
        var last := available[|available| - 1];
        assert available == available[..|available| - 1] + [last];
        available := available[..|available| - 1];
        held := held + multiset{last};
        h := Some(last);
      } else {
        waiting := waiting + [w];
        h := None;
      }
    }

    /** `db_close(db)`: the handle goes to the most recently queued caller if
        there is one, who then holds it, and is idled otherwise. A handle that
        was not held (a newly opened database) joins the pool the same way. */
    method Close(h: H) returns (w: Option<W>)
      requires Valid()
      modifies this
      ensures Valid()
      ensures old(waiting) != [] ==>
        && w == Some(old(waiting)[|old(waiting)| - 1])
        && waiting == old(waiting)[..|old(waiting)| - 1]
        && available == old(available)
        && held == old(held) - multiset{h} + multiset{h}
      ensures old(waiting) == [] ==>
        w == None && available == old(available) + [h] && waiting == old(waiting)
        && held == old(held) - multiset{h}
      ensures h in old(held) ==> Handles() == old(Handles())
      ensures h !in old(held) ==> Handles() == old(Handles()) + multiset{h}
    {
      held := held - multiset{h};
      if |waiting| > 0 {
        w := Some(waiting[|waiting| - 1]);
        waiting := waiting[..|waiting| - 1];
        held := held + multiset{h};
      } else {
        available := available + [h];
        w := None;
      }
    }
  }
}
