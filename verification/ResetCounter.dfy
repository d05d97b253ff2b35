/** The failure counter that decides when the serial port is reopened. */
module ResetCounter {

  /** How the parts of one inventory attempt turn out: the first try, reopening the port
      should that be called for, and the second try after it. */
  datatype Attempt = Attempt(first: bool, reopen: bool, second: bool)

  /** The counter, how many reopenings were tried and how many succeeded, how many first
      tries failed. */
  datatype Counters = Counters(failures: nat, tried: nat, reopened: nat, failedFirst: nat)

  const START := Counters(0, 0, 0, 0)

  /** The counters after an attempt and whether it delivered tags. */
  function Count(c: Counters, a: Attempt): (Counters, bool) {
    if a.first then (c.(failures := 0), true)
    else
      var failed := c.(failures := c.failures + 1, failedFirst := c.failedFirst + 1);
      if failed.failures < 3 then (failed, false)
      else
        var tried := failed.(tried := failed.tried + 1);
        if !a.reopen then (tried, false)
        else (tried.(failures := 0, reopened := tried.reopened + 1), a.second)
  }
}
