/** The condition on loads is exact: a load that starts while another load or a preparing open is in
    flight can make a consuming request name a note that was not accepted. And the page meets it. */
module ReaderOverlaps {
  import opened Wrappers
  import S = Session
  import opened ReaderSteps
  import opened ReaderCalls

  // However it goes on, with loads that start when they may, requests name the note accepted last.
  ghost predicate Safe(w: World)
    requires Inv(w)
  {
    forall steps :: IsRun(w, steps) && LoadsApart(w, steps) ==> CallsNameAccepted(w, steps)
  }

  predicate InTime(w: World, now: int) {
    !S.IsExpired(w.v.session, now)
  }

  // Another identifier than the one accepted last.
  function Other(ids: seq<string>): (id: string)
    ensures id != "" && !(ids != [] && ids[|ids| - 1] == id)
  {
    if ids == [] then "x" else ids[|ids| - 1] + "x"
  }

  lemma UnsafeBefore(w: World, a: Step)
    requires Inv(w) && Enabled(w, a) && !a.StartLoad?
    ensures Inv(Next(w, a)) && (!Safe(Next(w, a)) ==> !Safe(w))
  {
    StepKeepsInv(w, a);
    hide Next, Inv, Enabled, NamesAccepted;
    var x := Next(w, a);
    if !Safe(x) {
      var rest :| IsRun(x, rest) && LoadsApart(x, rest) && !CallsNameAccepted(x, rest);
      var steps := [a] + rest;
      assert steps[1..] == rest;
      assert IsRun(w, steps) && LoadsApart(w, steps) && !CallsNameAccepted(w, steps);
    }
  }

  lemma UnsafeCall(w: World, a: Step)
    requires Inv(w) && Enabled(w, a) && !a.StartLoad? && !NamesAccepted(w, Next(w, a))
    ensures !Safe(w)
  {
    StepKeepsInv(w, a);
    hide Next, Inv, Enabled, NamesAccepted;
    var steps := [a];
    assert steps[1..] == [];
    assert IsRun(Next(w, a), []) && LoadsApart(Next(w, a), []);
    assert IsRun(w, steps) && LoadsApart(w, steps) && !CallsNameAccepted(w, steps);
  }

  // A current operation goes on, and the others wait.
  lemma Settled(w: World, op: nat, o: Outcome, now: int) returns (x: World)
    requires Inv(w) && IsCurrent(w, op) && Answers(o, w.frames[op]) && InTime(w, now)
    ensures Inv(x) && GoesOn(w, x, op, o) && InTime(x, now)
    ensures forall q :: q != op && IsCurrent(w, q) ==> IsCurrent(x, q) && x.frames[q] == w.frames[q]
    ensures op in x.frames ==> IsCurrent(x, op)
    ensures !Safe(x) ==> !Safe(w)
    ensures !NamesAccepted(w, x) ==> !Safe(w)
  {
    var a := Settle(op, o, now);
    x := Next(w, a);
    ResumeEffect(w.v, w.frames[op], o, now);
    UnsafeBefore(w, a);
    if !NamesAccepted(w, x) {
      UnsafeCall(w, a);
    }
    hide Resume, Inv, Safe, NamesAccepted, IsOpen, IsRequested;
  }

  // ---- A preparing open whose page changes its identifier -----------------------------------------

  lemma PreparedElsewhere(w: World, open: nat, now: int)
    requires Inv(w) && InTime(w, now) && IsCurrent(w, open) && w.frames[open].OpenPrepare? && !IsLast(w.accepted, w.v.id)
    ensures !Safe(w)
  {
    hide Inv, Safe;
    var x := Settled(w, open, Access, now);
    assert x.called == w.called + [w.v.id];
    assert x.called[|w.called|] == w.v.id;
  }

  lemma LoadDuringOpen(w: World, load: nat, open: nat, now: int)
    requires Inv(w) && InTime(w, now) && IsCurrent(w, load) && IsCurrent(w, open)
    requires w.frames[load].LoadLink? && w.frames[open].OpenPrepare?
    ensures !Safe(w)
  {
    hide Inv, Safe, NamesAccepted;
    var x := Settled(w, load, Link(Other(w.accepted)), now);
    assert x.accepted == w.accepted;
    PreparedElsewhere(x, open, now);
  }

  // ---- A load that reads its link after another was accepted ----------------------------------------

  // A note can be opened without a passphrase.
  predicate IsReady(v: View) {
    v.phase == Ready && v.metadata.Some? && !v.busy && !v.required
  }

  lemma OpenElsewhere(w: World, open: nat, now: int)
    requires Inv(w) && InTime(w, now) && IsReady(w.v) && open !in w.frames && w.v.id != "" && !IsLast(w.accepted, w.v.id)
    ensures !Safe(w)
  {
    var a := StartOpen(open, now);
    OpenEffect(w.v, now);
    assert Open(w.v, now).1.Some?;
    UnsafeBefore(w, a);
    hide Inv, Safe, Open;
    PreparedElsewhere(Next(w, a), open, now);
  }

  lemma LinkThenOpen(w: World, load: nat, open: nat, now: int)
    requires Inv(w) && InTime(w, now) && IsReady(w.v) && open !in w.frames && IsCurrent(w, load) && w.frames[load].LoadLink?
    ensures !Safe(w)
  {
    hide Inv, Safe, NamesAccepted;
    var x := Settled(w, load, Link(Other(w.accepted)), now);
    assert x.accepted == w.accepted;
    OpenElsewhere(x, open, now);
  }

  // The first load is taken as far as its acceptance.
  lemma LoadDuringLoad(w: World, first: nat, second: nat, now: int)
    requires Inv(w) && InTime(w, now) && IsCurrent(w, first) && IsCurrent(w, second) && first != second && !w.v.busy
    requires !IsOpen(w.frames[first]) && w.frames[second].LoadLink?
    ensures !Safe(w)
    decreases match w.frames[first] case LoadLink(_) => 2 case LoadMeta(_) => 1 case _ => 0
  {
    hide Inv, Safe, NamesAccepted;
    match w.frames[first]
    case LoadLink(_) =>
      var x := Settled(w, first, Link(""), now);
      LoadDuringLoad(x, first, second, now);
    case LoadMeta(_) =>
      var x := Settled(w, first, Meta(Metadata(0, 0)), now);
      LoadDuringLoad(x, first, second, now);
    case LoadInspect(_, m) =>
      var x := Settled(w, first, Inspected(w.v.id, m.remaining, false), now);
      LinkThenOpen(x, second, first, now);
  }

  // A request under way is let fail first.
  lemma LoadDuringLoadAndRequest(w: World, first: nat, second: nat, now: int)
    requires Inv(w) && InTime(w, now) && IsCurrent(w, first) && IsCurrent(w, second) && first != second
    requires !IsOpen(w.frames[first]) && w.frames[second].LoadLink?
    ensures !Safe(w)
  {
    if w.v.busy {
      assert CurrentOpens(w) != {};
      var open :| open in CurrentOpens(w);
      hide Inv, Safe, NamesAccepted;
      if w.frames[open].OpenPrepare? {
        LoadDuringOpen(w, second, open, now);
      } else {
        var x := Settled(w, open, Rejected, now);
        LoadDuringLoad(x, first, second, now);
      }
    } else {
      LoadDuringLoad(w, first, second, now);
    }
  }

  /** Whether a load may start is exactly whether requests stay right after it: for every page that is
      right so far, at any time. */
  lemma LoadsMayStartExactly(w: World, op: nat, now: int)
    requires Inv(w) && Faithful(w) && Enabled(w, StartLoad(op, now))
    ensures Inv(Next(w, StartLoad(op, now)))
    ensures Safe(Next(w, StartLoad(op, now))) <==> MayLoad(w)
  {
    StepKeepsInv(w, StartLoad(op, now));
    var x := Next(w, StartLoad(op, now));
    if MayLoad(w) {
      LoadIsFaithful(w, op, now);
      forall steps | IsRun(x, steps) && LoadsApart(x, steps) ensures CallsNameAccepted(x, steps) {
        LoadsApartSuffice(x, steps);
      }
    } else {
      OverlapIsUnsafe(w, op, now);
    }
  }

  lemma OverlapIsUnsafe(w: World, op: nat, now: int)
    requires Inv(w) && Enabled(w, StartLoad(op, now)) && Inv(Next(w, StartLoad(op, now))) && !MayLoad(w)
    ensures !Safe(Next(w, StartLoad(op, now)))
  {
    var x := Next(w, StartLoad(op, now));
    var other :| IsCurrent(w, other) && !IsRequested(w.frames[other]);
    LoadEffect(w.v, now);
    assert x.v.session.deadline == now + S.LIMIT;
    assert IsCurrent(x, op) && IsCurrent(x, other) && InTime(x, now);
    hide Inv, Safe, Load;
    if w.frames[other].OpenPrepare? {
      LoadDuringOpen(x, op, other, now);
    } else {
      LoadDuringLoadAndRequest(x, other, op, now);
    }
  }

  // ---- The page -------------------------------------------------------------------------------------

  // The page loads when it is mounted, and again after a clear when its fragment changes.
  predicate ReloadsClear(steps: seq<Step>) {
    forall i :: 0 < i < |steps| && steps[i].StartLoad? ==> steps[i - 1] == Happens(S.Cleared)
  }

  lemma {:induction false} ReloadsAreApart(w: World, steps: seq<Step>)
    requires Inv(w) && IsRun(w, steps) && ReloadsClear(steps)
    requires steps != [] && steps[0].StartLoad? ==> MayLoad(w)
    ensures LoadsApart(w, steps)
    decreases |steps|
  {
    if steps != [] {
      StepKeepsInv(w, steps[0]);
      var x, rest := Next(w, steps[0]), steps[1..];
      if steps[0] == Happens(S.Cleared) {
        EventEffect(w.v, S.Cleared);
        assert forall op :: op in x.frames ==> !IsCurrent(x, op);
      }
      assert rest != [] && rest[0].StartLoad? ==> steps[1 - 1] == Happens(S.Cleared);
      assert forall i :: 0 < i < |rest| ==> rest[i] == steps[i + 1] && rest[i - 1] == steps[i];
      hide Next, Inv, Enabled;
      ReloadsAreApart(x, rest);
    }
  }

  /** However often its fragment changes, each consuming request of the page names the note whose metadata
      was accepted last. */
  lemma PageRequestsNameTheAcceptedNote(steps: seq<Step>)
    ensures Inv(START)
    ensures IsRun(START, steps) && ReloadsClear(steps) ==> CallsNameAccepted(START, steps)
  {
    RequestsNameTheAcceptedNote(steps);
    if IsRun(START, steps) && ReloadsClear(steps) {
      ReloadsAreApart(START, steps);
    }
  }
}
