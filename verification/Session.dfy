/** The inactivity session of the browser as a value: generations, abort signals, one deadline and
    one timer. Module SensitiveSessions has the object. */
module Session {
  import opened Wrappers

  type TimerId = nat

  const LIMIT: int := 300000

  // A ticket names the abort signal of its generation.
  datatype Ticket = Ticket(generation: nat, signal: nat)

  // signals[i] is the i-th abort controller ever made, and whether it was aborted. pending holds the
  // timers of the environment and when each is due.
  datatype View = View(generation: nat, signals: seq<bool>, controller: nat, deadline: int, timer: Option<TimerId>,
                       pending: map<TimerId, int>, nextTimer: TimerId, touched: int, warning: int, clock: int)

  function Seconds(left: int): int {
    (left + 999) / 1000
  }

  function Least(a: int, b: int): int {
    if a <= b then a else b
  }

  predicate WellFormed(v: View) {
    v.controller < |v.signals|
  }

  // ---- What each operation does -----------------------------------------------------------------

  function Cancelled(v: View): View {
    v.(pending := if v.timer.Some? then v.pending - {v.timer.value} else v.pending, timer := None)
  }

  function Clear(v: View): (w: View)
    requires WellFormed(v)
    ensures WellFormed(w)
  {
    Cancelled(v).(generation := v.generation + 1, signals := v.signals[v.controller := true] + [false],
                  controller := |v.signals|, deadline := 0, warning := 0, clock := 0)
  }

  predicate IsExpired(v: View, now: int) {
    v.deadline != 0 && now >= v.deadline
  }

  function Expire(v: View, now: int): (r: (View, bool))
    requires WellFormed(v)
    ensures WellFormed(r.0) && (!r.1 ==> r.0 == v)
  {
    if IsExpired(v, now) then (Clear(v), true) else (v, false)
  }

  // The new view, and whether the data was cleared.
  function Check(v: View, now: int, hasData: bool): (r: (View, bool))
    requires WellFormed(v)
    ensures WellFormed(r.0)
  {
    var w := Cancelled(v);
    if IsExpired(w, now) then (Clear(w), true)
    else if w.deadline == 0 || !hasData then (w.(deadline := 0, warning := 0, clock := 0), false)
    else
      var left := w.deadline - now;
      (w.(warning := if left <= 30000 then Seconds(left) else 0, clock := Seconds(left), timer := Some(w.nextTimer),
          pending := w.pending[w.nextTimer := now + Least(left, 1000)], nextTimer := w.nextTimer + 1), false)
  }

  function TouchAt(v: View, at: int, now: int, hasData: bool): (r: (View, bool))
    requires WellFormed(v)
    ensures WellFormed(r.0)
  {
    Check(v.(deadline := if hasData then at + LIMIT else 0, touched := at), now, hasData)
  }

  function TicketOf(v: View): Ticket {
    Ticket(v.generation, v.controller)
  }

  // Whether the ticket is valid, and whether finding out cleared the data.
  function Validate(v: View, t: Ticket, now: int): (View, bool, bool)
    requires WellFormed(v) && t.signal < |v.signals|
  {
    if t.generation != v.generation then (v, false, false)
    else if IsExpired(v, now) then (Clear(v), false, true)
    else (v, !v.signals[t.signal], false)
  }

  function Activity(v: View, now: int, hasData: bool): (View, Option<nat>, bool)
    requires WellFormed(v)
  {
    if IsExpired(v, now) then (Clear(v), None, true)
    else
      var (w, cleared) := TouchAt(v, now, now, hasData);
      (w, Some(v.generation), cleared)
  }

  function Settle(v: View, queued: nat, at: int, hidden: bool, now: int, hasData: bool): (View, bool)
    requires WellFormed(v)
  {
    if queued != v.generation || hidden then (v, false)
    else if IsExpired(v, now) then (Clear(v), true)
    else TouchAt(v, at, now, hasData)
  }

  function Fire(v: View, id: TimerId, now: int, hasData: bool): (View, bool)
    requires WellFormed(v)
  {
    Check(v.(pending := v.pending - {id}), now, hasData)
  }

  // Asking again in the same moment changes nothing.
  lemma ValidateTwice(v: View, t: Ticket, now: int)
    requires WellFormed(v) && t.signal < |v.signals|
    ensures var (w, valid, cleared) := Validate(v, t, now);
            && WellFormed(w) && t.signal < |w.signals| && Validate(w, t, now) == (w, valid, false)
            && (valid ==> w == v && !cleared)
  {
  }

  // ---- Every reachable session --------------------------------------------------------------------

  const START: View := View(0, [false], 0, 0, None, map[], 0, 0, 0, 0)

  // A signal is aborted exactly when a clear came after its generation; a deadline lies a fixed time
  // after the last activity; and there is one timer, due by the deadline, exactly while there is one.
  ghost predicate Inv(v: View) {
    && |v.signals| == v.generation + 1 && v.controller == v.generation
    && (forall i :: 0 <= i < |v.signals| ==> (v.signals[i] <==> i < v.generation))
    && (v.deadline == 0 || v.deadline == v.touched + 300000)
    && (v.deadline != 0 <==> v.timer.Some?)
    && (match v.timer case None => v.pending == map[] case Some(id) => v.pending.Keys == {id} && v.pending[id] <= v.deadline)
    && (forall id :: id in v.pending ==> id < v.nextTimer)
  }

  datatype Step =
    | DoClear
    | DoExpire(now: int)
    | DoValidate(t: Ticket, now: int)
    | DoCheck(now: int, hasData: bool)
    | DoTouch(at: int, now: int, hasData: bool)
    | DoActivity(now: int, hasData: bool)
    | DoSettle(queued: nat, at: int, hidden: bool, now: int, hasData: bool)
    | DoFire(id: TimerId, now: int, hasData: bool)

  // Tickets were given out earlier; only due timers fire.
  predicate Enabled(v: View, a: Step) {
    match a
    case DoValidate(t, _) => t.signal == t.generation <= v.generation && t.signal < |v.signals|
    case DoFire(id, now, _) => id in v.pending && v.pending[id] <= now
    case _ => true
  }

  function Apply(v: View, a: Step): (View, bool)
    requires WellFormed(v) && Enabled(v, a)
  {
    match a
    case DoClear => (Clear(v), true)
    case DoExpire(now) => Expire(v, now)
    case DoValidate(t, now) => var (w, _, cleared) := Validate(v, t, now); (w, cleared)
    case DoCheck(now, hasData) => Check(v, now, hasData)
    case DoTouch(at, now, hasData) => TouchAt(v, at, now, hasData)
    case DoActivity(now, hasData) => var (w, _, cleared) := Activity(v, now, hasData); (w, cleared)
    case DoSettle(queued, at, hidden, now, hasData) => Settle(v, queued, at, hidden, now, hasData)
    case DoFire(id, now, hasData) => Fire(v, id, now, hasData)
  }

  // What survives while the timer is being cancelled or has just fired.
  ghost predicate Core(v: View) {
    && |v.signals| == v.generation + 1 && v.controller == v.generation
    && (forall i :: 0 <= i < |v.signals| ==> (v.signals[i] <==> i < v.generation))
    && (v.deadline == 0 || v.deadline == v.touched + 300000)
  }

  lemma ClearKeepsInv(v: View)
    requires Core(v) && Cancelled(v).pending == map[]
    ensures Inv(Clear(v)) && Clear(v).generation == v.generation + 1
  {
  }

  lemma CheckKeepsInv(v: View, now: int, hasData: bool)
    requires Core(v) && Cancelled(v).pending == map[]
    ensures Inv(Check(v, now, hasData).0)
    ensures Check(v, now, hasData).0.generation == v.generation + if Check(v, now, hasData).1 then 1 else 0
  {
    hide Clear;
    var w := Cancelled(v);
    ClearKeepsInv(w);
  }

  /** A check reports the seconds left, rounded up, as a warning in the last half minute; and nothing
      once there is no deadline. The next look comes within a second and no later than the deadline. */
  lemma CheckReportsTimeLeft(v: View, now: int, hasData: bool)
    requires Inv(v)
    ensures var (w, cleared) := Check(v, now, hasData);
            if w.deadline == 0 then w.clock == 0 && w.warning == 0 && w.timer.None?
            else
              && !cleared && w.timer.Some? && w.timer.value in w.pending
              && now < w.pending[w.timer.value] <= Least(w.deadline, now + 1000)
              && 1000 * (w.clock - 1) < w.deadline - now <= 1000 * w.clock
              && w.warning == if w.deadline <= now + 30000 then w.clock else 0
  {
    NothingPending(v);
    CheckKeepsInv(v, now, hasData);
  }

  lemma NothingPending(v: View)
    requires Inv(v)
    ensures Core(v) && Cancelled(v).pending == map[]
    ensures forall id :: id in v.pending ==> Cancelled(v.(pending := v.pending - {id})).pending == map[]
  {
  }

  predicate IsDue(deadline: int, now: int) {
    deadline != 0 && now >= deadline
  }

  // Nothing is left of the session that was cleared, and its signal is aborted.
  predicate IsFresh(v: View, w: View)
    requires WellFormed(v)
  {
    && w.deadline == 0 && w.timer == None && w.pending == map[] && w.clock == 0 && w.warning == 0
    && w.controller == |v.signals| && w.signals == v.signals[v.controller := true] + [false]
  }

  /** When each step clears the data, and the deadline it leaves otherwise: 300 seconds after the last touch,
      as long as there is data. */
  lemma StepAnswers(v: View, a: Step)
    requires Inv(v) && Enabled(v, a)
    ensures var (w, cleared) := Apply(v, a);
            && (cleared ==> IsFresh(v, w))
            && match a
               case DoClear => cleared
               case DoExpire(now) => cleared == IsDue(v.deadline, now) && (!cleared ==> w == v)
               case DoValidate(t, now) =>
                 cleared == (t.generation == v.generation && IsDue(v.deadline, now)) && (!cleared ==> w == v)
               case DoCheck(now, hasData) =>
                 && cleared == IsDue(v.deadline, now)
                 && (!cleared ==> w.deadline == (if hasData then v.deadline else 0) && w.touched == v.touched)
               case DoTouch(at, now, hasData) =>
                 && cleared == (hasData && IsDue(at + 300000, now))
                 && (!cleared ==> w.deadline == (if hasData then at + 300000 else 0) && w.touched == at)
               case DoActivity(now, hasData) =>
                 && cleared == IsDue(v.deadline, now)
                 && (!cleared ==> w.deadline == (if hasData then now + 300000 else 0) && w.touched == now)
               case DoSettle(queued, at, hidden, now, hasData) =>
                 if queued != v.generation || hidden then w == v && !cleared
                 else
                   && cleared == (IsDue(v.deadline, now) || (hasData && IsDue(at + 300000, now)))
                   && (!cleared ==> w.deadline == (if hasData then at + 300000 else 0) && w.touched == at)
               case DoFire(id, now, hasData) =>
                 && cleared == IsDue(v.deadline, now)
                 && (!cleared ==> w.deadline == (if hasData then v.deadline else 0) && w.touched == v.touched)
  {
    NothingPending(v);
  }

  /** Every step keeps it, and the generation counts the clears. */
  lemma StepKeepsInv(v: View, a: Step)
    requires Inv(v) && Enabled(v, a)
    ensures var (w, cleared) := Apply(v, a);
            Inv(w) && w.generation == v.generation + if cleared then 1 else 0
  {
    NothingPending(v);
    ClearKeepsInv(v);
    hide Clear, Check, TouchAt, Cancelled, Inv, Core, Activity, Settle, Expire, Validate;
    match a
    case DoExpire(now) => ExpireKeepsInv(v, now);
    case DoValidate(t, now) => ValidateKeepsInv(v, t, now);
    case DoCheck(now, hasData) => CheckKeepsInv(v, now, hasData);
    case DoTouch(at, now, hasData) => TouchKeepsInv(v, at, now, hasData);
    case DoActivity(now, hasData) => ActivityKeepsInv(v, now, hasData);
    case DoSettle(queued, at, hidden, now, hasData) => SettleKeepsInv(v, queued, at, hidden, now, hasData);
    case DoFire(id, now, hasData) => CheckKeepsInv(v.(pending := v.pending - {id}), now, hasData);
    case _ =>
  }

  lemma ExpireKeepsInv(v: View, now: int)
    requires Inv(v)
    ensures var (w, cleared) := Expire(v, now);
            Inv(w) && w.generation == v.generation + if cleared then 1 else 0
  {
    NothingPending(v);
    ClearKeepsInv(v);
    hide Clear;
  }

  lemma ValidateKeepsInv(v: View, t: Ticket, now: int)
    requires Inv(v) && t.signal < |v.signals|
    ensures var (w, _, cleared) := Validate(v, t, now);
            Inv(w) && w.generation == v.generation + if cleared then 1 else 0
  {
    NothingPending(v);
    ClearKeepsInv(v);
    hide Clear, Inv, Cancelled;
  }

  lemma ActivityKeepsInv(v: View, now: int, hasData: bool)
    requires Inv(v)
    ensures var (w, _, cleared) := Activity(v, now, hasData);
            Inv(w) && w.generation == v.generation + if cleared then 1 else 0
  {
    NothingPending(v);
    ClearKeepsInv(v);
    TouchKeepsInv(v, now, now, hasData);
    hide Clear, TouchAt, Inv, Core, Cancelled;
  }

  lemma SettleKeepsInv(v: View, queued: nat, at: int, hidden: bool, now: int, hasData: bool)
    requires Inv(v)
    ensures var (w, cleared) := Settle(v, queued, at, hidden, now, hasData);
            Inv(w) && w.generation == v.generation + if cleared then 1 else 0
  {
    NothingPending(v);
    ClearKeepsInv(v);
    TouchKeepsInv(v, at, now, hasData);
    hide Clear, TouchAt, Inv, Core, Cancelled;
  }

  lemma TouchKeepsInv(v: View, at: int, now: int, hasData: bool)
    requires Core(v) && Cancelled(v).pending == map[]
    ensures var (w, cleared) := TouchAt(v, at, now, hasData);
            Inv(w) && w.generation == v.generation + if cleared then 1 else 0
  {
    CheckKeepsInv(v.(deadline := if hasData then at + LIMIT else 0, touched := at), now, hasData);
  }

  ghost predicate IsRun(v: View, steps: seq<Step>)
    requires Inv(v)
    decreases |steps|
  {
    steps == [] ||
    (Enabled(v, steps[0]) && (StepKeepsInv(v, steps[0]); IsRun(Apply(v, steps[0]).0, steps[1..])))
  }

  // The session after a run, and how often the run cleared it.
  ghost function Exec(v: View, steps: seq<Step>): (r: (View, nat))
    requires Inv(v) && IsRun(v, steps)
    ensures Inv(r.0)
    decreases |steps|
  {
    if steps == [] then (v, 0)
    else
      StepKeepsInv(v, steps[0]);
      var (w, cleared) := Apply(v, steps[0]);
      var (u, clears) := Exec(w, steps[1..]);
      (u, clears + if cleared then 1 else 0)
  }

  lemma {:induction false} GenerationCountsClears(v: View, steps: seq<Step>)
    requires Inv(v) && IsRun(v, steps)
    ensures Exec(v, steps).0.generation == v.generation + Exec(v, steps).1
    decreases |steps|
  {
    if steps != [] {
      StepKeepsInv(v, steps[0]);
      GenerationCountsClears(Apply(v, steps[0]).0, steps[1..]);
    }
  }

  /** After any run, a ticket is valid exactly when nothing has been cleared since it was taken and
      the deadline has not passed; its signal is aborted exactly when something has. */
  lemma TicketsFollowClears(v: View, steps: seq<Step>, now: int)
    requires Inv(v) && IsRun(v, steps)
    ensures var (w, clears) := Exec(v, steps);
            && TicketOf(v).signal < |w.signals|
            && (Validate(w, TicketOf(v), now).1 <==> clears == 0 && (w.deadline == 0 || now < w.touched + 300000))
            && (w.signals[TicketOf(v).signal] <==> clears > 0)
  {
    GenerationCountsClears(v, steps);
  }

  lemma StartIsInv()
    ensures Inv(START)
  {
  }

  // What happens to a page besides its own operations.
  datatype Event =
    | Cleared                                              // a button, a hidden tab, leaving the page
    | Checked(now: int)                                    // a visible tab
    | Asked(now: int)                                      // a copy or a download asks whether it expired
    | Fired(id: TimerId, now: int)
    | Acted(now: int)
    | Settled(queued: nat, at: int, hidden: bool, now: int)

  function StepOf(e: Event, hasData: bool): Step {
    match e
    case Cleared => DoClear
    case Checked(now) => DoCheck(now, hasData)
    case Asked(now) => DoExpire(now)
    case Fired(id, now) => DoFire(id, now, hasData)
    case Acted(now) => DoActivity(now, hasData)
    case Settled(queued, at, hidden, now) => DoSettle(queued, at, hidden, now, hasData)
  }

  // ---- Without activity the timer runs the session down -------------------------------------------

  // The pending timer fires at these times, late or not, while there is data.
  ghost predicate IsQuiet(v: View, times: seq<int>)
    requires Inv(v)
    decreases |times|
  {
    times == [] || v.timer.None? ||
    (Enabled(v, DoFire(v.timer.value, times[0], true)) &&
     (StepKeepsInv(v, DoFire(v.timer.value, times[0], true)); IsQuiet(Fire(v, v.timer.value, times[0], true).0, times[1..])))
  }

  ghost function Quiet(v: View, times: seq<int>): (w: View)
    requires Inv(v) && IsQuiet(v, times)
    ensures Inv(w)
    decreases |times|
  {
    if times == [] || v.timer.None? then v
    else
      StepKeepsInv(v, DoFire(v.timer.value, times[0], true));
      Quiet(Fire(v, v.timer.value, times[0], true).0, times[1..])
  }

  // The timer was set at this time.
  ghost predicate SetAt(v: View, now: int)
    requires Inv(v)
  {
    v.timer.Some? && now < v.deadline && v.pending[v.timer.value] == now + Least(v.deadline - now, 1000)
  }

  /** Each firing takes a second, or all that was left: after as many firings as there are seconds
      left the data is cleared, however late each comes. */
  lemma {:induction false} QuietSessionsClear(v: View, now: int, times: seq<int>)
    requires Inv(v) && IsQuiet(v, times) && SetAt(v, now) && |times| >= Seconds(v.deadline - now)
    ensures Quiet(v, times).generation == v.generation + 1 && Quiet(v, times).timer.None?
    decreases |times|
  {
    var id := v.timer.value;
    var w := Fire(v, id, times[0], true).0;
    StepKeepsInv(v, DoFire(id, times[0], true));
    if times[0] < v.deadline {
      assert SetAt(w, times[0]);
      QuietSessionsClear(w, times[0], times[1..]);
    } else {
      assert w.timer.None?;
    }
  }
}
