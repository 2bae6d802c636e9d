/** The session object of the pages. Each method is one synchronous piece of code with one reading of
    the clock, and is proved to do what module Session says. */
module SensitiveSessions {
  import opened Wrappers
  import S = Session

  class SensitiveSession {
    var generation: nat
    var signals: seq<bool>
    var controller: nat
    var deadline: int
    var timer: Option<S.TimerId>
    var pending: map<S.TimerId, int>
    var nextTimer: S.TimerId
    ghost var touched: int
    var warning: int
    var clock: int

    ghost function Now(): S.View
      reads this
    {
      S.View(generation, signals, controller, deadline, timer, pending, nextTimer, touched, warning, clock)
    }

    // One timer while there is a deadline; signals aborted up to the current one; see module Session.
    ghost predicate Valid()
      reads this
    {
      S.Inv(Now())
    }

    // The same while the timer has just fired or is being replaced.
    ghost predicate Between()
      reads this
    {
      S.Core(Now()) && S.Cancelled(Now()).pending == map[]
    }

    constructor ()
      ensures Valid() && Now() == S.START
    {
      generation, signals, controller := 0, [false], 0;
      deadline, timer, pending, nextTimer := 0, None, map[], 0;
      touched, warning, clock := 0, 0, 0;
      new;
      S.StartIsInv();
    }

    method CancelTimer()
      modifies this
      ensures Now() == S.Cancelled(old(Now()))
    {
      if timer.Some? {
        pending := pending - {timer.value};
      }
      timer := None;
    }

    // The caller runs its clear callback when cleared.
    method Clear()
      requires Between()
      modifies this
      ensures Now() == S.Clear(old(Now()))
      ensures Valid() && generation == old(generation) + 1
    {
      S.ClearKeepsInv(Now());
      hide S.Inv, S.Cancelled;
      generation := generation + 1;
      signals := signals[controller := true];
      signals, controller := signals + [false], |signals|;
      CancelTimer();
      deadline := 0;
      warning, clock := 0, 0;
    }

    method Expire(now: int) returns (cleared: bool)
      requires Between()
      modifies this
      ensures (Now(), cleared) == S.Expire(old(Now()), now)
      ensures cleared || old(Valid()) ==> Valid()
      ensures generation == old(generation) + if cleared then 1 else 0
    {
      hide S.Inv, S.Clear, S.Cancelled;
      if deadline != 0 && now >= deadline {
        Clear();
        return true;
      }
      cleared := false;
    }

    method Check(now: int, hasData: bool) returns (cleared: bool)
      requires Between()
      modifies this
      ensures (Now(), cleared) == S.Check(old(Now()), now, hasData)
      ensures Valid() && generation == old(generation) + if cleared then 1 else 0
    {
      S.CheckKeepsInv(Now(), now, hasData);
      assert S.Cancelled(S.Cancelled(Now())) == S.Cancelled(Now());
      hide S.Inv, S.Clear;
      CancelTimer();
      cleared := Expire(now);
      if cleared {
        return;
      }
      if deadline == 0 || !hasData {
        deadline, warning, clock := 0, 0, 0;
        return;
      }
      var left := deadline - now;
      warning := if left <= 30000 then (left + 999) / 1000 else 0;
      clock := (left + 999) / 1000;
      timer := Some(nextTimer);
      pending := pending[nextTimer := now + S.Least(left, 1000)];
      nextTimer := nextTimer + 1;
    }

    method TouchAt(at: int, now: int, hasData: bool) returns (cleared: bool)
      requires Valid()
      modifies this
      ensures (Now(), cleared) == S.TouchAt(old(Now()), at, now, hasData)
      ensures Valid() && generation == old(generation) + if cleared then 1 else 0
    {
      S.NothingPending(Now());
      hide S.Inv, S.Check;
      deadline := if hasData then at + 300000 else 0;
      touched := at;
      cleared := Check(now, hasData);
    }

    // The signal of a ticket is not aborted.
    method TakeTicket(now: int) returns (t: S.Ticket, cleared: bool)
      requires Valid()
      modifies this
      ensures (Now(), cleared) == S.Expire(old(Now()), now) && t == S.TicketOf(Now())
      ensures Valid() && t.signal == t.generation == generation && t.signal < |signals| && !signals[t.signal]
    {
      S.NothingPending(Now());
      cleared := Expire(now);
      t := S.Ticket(generation, controller);
    }

    // Valid are the tickets of this generation up to the deadline: their signals need no look.
    method IsValid(t: S.Ticket, now: int) returns (valid: bool, cleared: bool)
      requires Valid() && t.signal == t.generation <= generation
      modifies this
      ensures t.signal < |old(signals)| && (Now(), valid, cleared) == S.Validate(old(Now()), t, now)
      ensures Valid() && generation == old(generation) + if cleared then 1 else 0
      ensures valid <==> t.generation == generation
      ensures t.generation == old(generation) ==> (cleared <==> S.IsExpired(old(Now()), now))
    {
      S.NothingPending(Now());
      hide S.Clear, S.Cancelled;
      valid, cleared := false, false;
      if t.generation == generation {
        cleared := Expire(now);
        valid := !cleared && !signals[t.signal];
      }
    }

    // A trusted event in a visible document. The microtask it queues keeps the generation and time.
    method Activity(now: int, hasData: bool) returns (queued: Option<nat>, cleared: bool)
      requires Valid()
      modifies this
      ensures (Now(), queued, cleared) == S.Activity(old(Now()), now, hasData)
      ensures Valid() && generation == old(generation) + if cleared then 1 else 0
    {
      S.NothingPending(Now());
      hide S.Inv, S.TouchAt, S.Clear;
      cleared := Expire(now);
      if cleared {
        return None, true;
      }
      queued := Some(generation);
      cleared := TouchAt(now, now, hasData);
    }

    method Settle(queued: nat, at: int, hidden: bool, now: int, hasData: bool) returns (cleared: bool)
      requires Valid()
      modifies this
      ensures (Now(), cleared) == S.Settle(old(Now()), queued, at, hidden, now, hasData)
      ensures Valid() && generation == old(generation) + if cleared then 1 else 0
      ensures queued != old(generation) ==> Now() == old(Now())
    {
      S.NothingPending(Now());
      hide S.Inv, S.TouchAt, S.Clear;
      if queued != generation || hidden {
        return false;
      }
      cleared := Expire(now);
      if !cleared {
        cleared := TouchAt(at, now, hasData);
      }
    }

    // The environment runs a due timer.
    method Fire(id: S.TimerId, now: int, hasData: bool) returns (cleared: bool)
      requires Valid() && id in pending && pending[id] <= now
      modifies this
      ensures (Now(), cleared) == S.Fire(old(Now()), id, now, hasData)
      ensures Valid() && generation == old(generation) + if cleared then 1 else 0
    {
      S.NothingPending(Now());
      hide S.Inv, S.Check;
      pending := pending - {id};
      cleared := Check(now, hasData);
    }
  }
}
