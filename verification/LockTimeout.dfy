/** How long a LOCK request is granted for: the Timeout header, the default, and why neither overflows. */
module LockTimeout {
  import opened LockTable
  import opened LockLeases

  /** One item of a Timeout header; `value` is what atoi makes of the text after "Second-". */
  datatype Item = Second(value: int) | Infinite | Unknown

  datatype Timeout = Seconds(seconds: nat) | Malformed

  const INFINITE: nat := 0xFFFF_FFFF

  /** Item i is the first one the server knows. */
  predicate FirstKnown(items: seq<Item>, i: nat) {
    i < |items| && items[i] != Unknown && forall k :: 0 <= k < i ==> items[k] == Unknown
  }

  /**
    The timeout asked for: the first known item, as a DWORD and a day at most.  0 stands for a header that is
    missing, or has no known item.
  */
  method GetLockTimeout(items: seq<Item>) returns (r: Timeout)
    ensures (forall i :: 0 <= i < |items| ==> items[i] == Unknown) ==> r == Seconds(0)
    ensures forall i: nat :: FirstKnown(items, i) && items[i].Infinite? ==> r == Seconds(86400)
    ensures forall i: nat :: FirstKnown(items, i) && items[i].Second? ==>
      var asked := items[i].value % 0x1_0000_0000;
      r == if asked == 0 then Malformed else Seconds(if asked > 86400 then 86400 else asked)
  {
    var timeout: nat := 0;
    var i := 0;
    while i < |items|
      invariant i <= |items| && timeout == 0
      invariant forall k :: 0 <= k < i ==> items[k] == Unknown
    {
      match items[i] {
        case Second(v) =>
          timeout := v % 0x1_0000_0000;
          if timeout == 0 {
            return Malformed;
          }
          break;
        case Infinite =>
          timeout := INFINITE;
          break;
        case Unknown =>
      }
      i := i + 1;
    }
    if timeout > MAX_LOCK_TIMEOUT {
      timeout := MAX_LOCK_TIMEOUT;
    }
    return Seconds(timeout);
  }

  /**
    A new lock lives its full time: what the client asked for, or the registry's default, given in
    milliseconds.  Neither source of the timeout overflows the 32-bit product, so the lock is there after
    every run of steps whose sweeps come within that time, unless the run gives it up, shortens it, or
    deletes the file.
  */
  lemma GrantedForItsTime(t: Table, file: string, mode: Mode, now: int, requested: nat, defaultMs: nat, luck: Luck,
      steps: seq<Step>)
    requires requested <= MAX_LOCK_TIMEOUT && defaultMs < 0x1_0000_0000
    ensures var seconds := if requested == 0 then defaultMs / 1000 else requested;
      var (u, g) := Create(t, file, mode, now, seconds, luck);
      var until := now + seconds * 10_000_000;
      g.Granted? && (forall s :: s in steps ==> Spares(s, file, g.id, until)) ==>
        Leased(Run(u, steps), file, g.id, until)
  {
    hide Create, Leased, Spares;
    var seconds := if requested == 0 then defaultMs / 1000 else requested;
    assert seconds * 1000 < 0x1_0000_0000;
    GrantLeases(t, file, mode, now, seconds, luck);
    var (u, g) := Create(t, file, mode, now, seconds, luck);
    var until := now + seconds * 10_000_000;
    if g.Granted? && forall s :: s in steps ==> Spares(s, file, g.id, until) {
      LeaseHolds(u, steps, file, g.id, until);
    }
  }
}
