/** Login-failure alerts (internal/audit/alert.go). */
module Alerts {
  import opened Prelude
  import opened TimeWindow

  datatype UserId = UserId(id: nat)

  class Tracker {
    const limit: nat
    const window: nat
    const table: StampTable<UserId>

    ghost predicate Valid()
      reads table, table.Repr
    {
      table.Valid() && table.window == window
    }

    constructor ()
      ensures Valid() && fresh(table.Repr) && table.recorded == map[]
      ensures limit == 5 && window == 15 * MINUTE
    {
      limit, window := 5, 15 * MINUTE;
      table := new StampTable<UserId>(15 * MINUTE);
    }

    /**
     * Record a failure and say whether an alert is raised, with its count. The
     * clock is read twice, once for the cutoff and once for the new stamp.
     */
    method RecordLoginFailure(user: UserId, first: int, second: int) returns (count: nat, alert: bool)
      requires Valid() && table.clock <= first <= second
      modifies table.Repr
      ensures Valid() && fresh(table.Repr - old(table.Repr)) && table.clock == second
      ensures table.recorded == old(table.recorded)[user := Get(old(table.recorded), user) + [second]]
      ensures count == |After(Get(old(table.recorded), user), first - window)| + 1
      ensures alert <==> count >= limit
    {
      hide After;
      var recent := table.Slide(user, first, second, None);
      return recent + 1, recent + 1 >= limit;
    }

    method ResetFailures(user: UserId)
      requires Valid()
      modifies table`windows, table`recorded
      ensures Valid()
      ensures table.recorded == old(table.recorded) - {user}
    {
      table.Delete(user);
    }
  }
}
