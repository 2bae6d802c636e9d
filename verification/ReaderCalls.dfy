/** Which note the consuming request of the reader page names: the one whose metadata was accepted last,
    provided no load starts while another load or a preparing open is in flight. */
module ReaderCalls {
  import opened Wrappers
  import S = Session
  import opened ReaderSteps

  function CurrentLoads(w: World): set<nat> {
    set op | op in w.frames && IsCurrent(w, op) && !IsOpen(w.frames[op])
  }

  // What a caller of load has to wait for, or to clear: of the current generation no load and no
  // preparing open is in flight.
  ghost predicate MayLoad(w: World) {
    forall op :: IsCurrent(w, op) ==> IsRequested(w.frames[op])
  }

  ghost predicate IsLast(ids: seq<string>, id: string) {
    ids != [] && ids[|ids| - 1] == id
  }

  // A step sends no consuming request, or one that names the identifier accepted last.
  ghost predicate NamesAccepted(w: World, x: World) {
    x.called == w.called || exists id :: IsLast(w.accepted, id) && x.called == w.called + [id]
  }

  ghost predicate CallsNameAccepted(w: World, steps: seq<Step>)
    requires Inv(w) && IsRun(w, steps)
    decreases |steps|
  {
    steps == [] ||
    (StepKeepsInv(w, steps[0]); NamesAccepted(w, Next(w, steps[0])) && CallsNameAccepted(Next(w, steps[0]), steps[1..]))
  }

  // Every load of the run starts when it may.
  ghost predicate LoadsApart(w: World, steps: seq<Step>)
    requires Inv(w) && IsRun(w, steps)
    decreases |steps|
  {
    steps == [] ||
    ((steps[0].StartLoad? ==> MayLoad(w)) && (StepKeepsInv(w, steps[0]); LoadsApart(Next(w, steps[0]), steps[1..])))
  }

  // ---- Sufficiency ----------------------------------------------------------------------------------

  // At most one load at a time, none on a page that is ready; a ready page holds the identifier
  // accepted last, and only a ready page prepares an open.
  ghost predicate Faithful(w: World) {
    && |CurrentLoads(w)| <= 1
    && (CurrentLoads(w) != {} ==> w.v.phase != Ready)
    && (w.v.phase == Ready && w.v.id != "" ==> IsLast(w.accepted, w.v.id))
    && MayPrepare(w)
  }

  ghost predicate MayPrepare(w: World) {
    forall op :: op in CurrentOpens(w) && w.frames[op].OpenPrepare? ==> w.v.phase == Ready && w.v.id != ""
  }

  lemma MovedLoads(w: World, x: World, op: nat, next: Option<Frame>)
    requires Moved(w, x, op, next) && S.Inv(x.v.session)
    ensures CurrentLoads(x) == CurrentLoads(w) - {op} + (if next.Some? && !IsOpen(next.value) then {op} else {})
  {
  }

  // The page lost its generation: every operation in flight is overtaken.
  lemma WipedIsFaithful(w: World, x: World, op: nat)
    requires Tickets(w) && Wiped(w.v, x.v) && (x.frames == w.frames || x.frames == w.frames - {op})
    ensures Faithful(x)
  {
    WipedOpens(w, x, op);
    assert CurrentLoads(x) == {};
  }

  // One operation moved from a faithful page.
  lemma MovedIsFaithful(w: World, x: World, op: nat, next: Option<Frame>)
    requires Faithful(w) && Moved(w, x, op, next) && S.Inv(x.v.session)
    requires next.Some? && !IsOpen(next.value) ==> op in CurrentLoads(w) || CurrentLoads(w) == {}
    requires CurrentLoads(w) - {op} != {} || (next.Some? && !IsOpen(next.value)) ==> x.v.phase != Ready
    requires x.v.phase == Ready && x.v.id != "" ==> IsLast(x.accepted, x.v.id)
    requires next.Some? && next.value.OpenPrepare? ==> x.v.phase == Ready && x.v.id != ""
    requires (forall q :: q in CurrentOpens(w) && q != op ==> !w.frames[q].OpenPrepare?) || (x.v.phase == Ready && x.v.id != "")
    ensures Faithful(x)
  {
    MovedPrepares(w, x, op, next);
    MovedLoadCount(w, x, op, next);
    hide Moved, IsLast, S.Inv, CurrentLoads, CurrentOpens, MayPrepare;
  }

  lemma MovedPrepares(w: World, x: World, op: nat, next: Option<Frame>)
    requires Moved(w, x, op, next) && S.Inv(x.v.session)
    requires next.Some? && next.value.OpenPrepare? ==> x.v.phase == Ready && x.v.id != ""
    requires (forall q :: q in CurrentOpens(w) && q != op ==> !w.frames[q].OpenPrepare?) || (x.v.phase == Ready && x.v.id != "")
    ensures MayPrepare(x)
  {
    MovedOpens(w, x, op, next);
    hide CurrentOpens, S.Inv;
  }

  lemma MovedLoadCount(w: World, x: World, op: nat, next: Option<Frame>)
    requires |CurrentLoads(w)| <= 1 && Moved(w, x, op, next) && S.Inv(x.v.session)
    requires next.Some? && !IsOpen(next.value) ==> op in CurrentLoads(w) || CurrentLoads(w) == {}
    ensures |CurrentLoads(x)| <= 1
    ensures CurrentLoads(x) != {} ==> CurrentLoads(w) - {op} != {} || (next.Some? && !IsOpen(next.value))
  {
    MovedLoads(w, x, op, next);
    hide Moved, S.Inv, CurrentLoads;
    if op in CurrentLoads(w) {
      Single(CurrentLoads(w), op);
    }
    if next.Some? && !IsOpen(next.value) {
      assert CurrentLoads(x) == {op};
    } else {
      FewerLoads(CurrentLoads(x), CurrentLoads(w));
    }
  }

  lemma FewerLoads(a: set<nat>, b: set<nat>)
    requires a <= b && |b| <= 1
    ensures |a| <= 1
  {
    if a != {} {
      var x :| x in a;
      Single(b, x);
      assert a == {x};
    }
  }

  lemma LoadIsFaithful(w: World, op: nat, now: int)
    requires Inv(w) && Faithful(w) && MayLoad(w) && Enabled(w, StartLoad(op, now))
    ensures Faithful(Next(w, StartLoad(op, now))) && Next(w, StartLoad(op, now)).called == w.called
  {
    LoadEffect(w.v, now);
    assert CurrentLoads(w) == {};
    assert forall q :: q in CurrentOpens(w) ==> IsCurrent(w, q) && !w.frames[q].OpenPrepare?;
    MovedIsFaithful(w, Next(w, StartLoad(op, now)), op, Some(Load(w.v, now).1));
  }

  lemma OpenIsFaithful(w: World, op: nat, now: int)
    requires Inv(w) && Faithful(w) && Enabled(w, StartOpen(op, now))
    ensures Faithful(Next(w, StartOpen(op, now)))
  {
    var x := Next(w, StartOpen(op, now));
    OpenEffect(w.v, now);
    OpenGuards(w.v, now);
    assert op !in CurrentLoads(w) && op !in CurrentOpens(w);
    hide Open, CurrentLoads, CurrentOpens, Inv, Faithful;
    if S.IsExpired(w.v.session, now) {
      WipedIsFaithful(w, x, op);
    } else {
      UnchangedIsFaithful(w, x, op, Open(w.v, now).1);
    }
  }

  lemma OpenGuards(v: View, now: int)
    requires S.WellFormed(v.session)
    ensures Open(v, now).1.Some? ==> v.phase == Ready && v.id != ""
  {
  }

  // An open starts, goes on or fails before its request, and the page stays as it is.
  lemma UnchangedIsFaithful(w: World, x: World, op: nat, next: Option<Frame>)
    requires Faithful(w) && Moved(w, x, op, next) && S.Inv(x.v.session) && op !in CurrentLoads(w)
    requires next.Some? ==> IsOpen(next.value)
    requires next.Some? && next.value.OpenPrepare? ==> w.v.phase == Ready && w.v.id != ""
    requires x.v.phase == w.v.phase && x.v.id == w.v.id && x.accepted == w.accepted
    ensures Faithful(x)
  {
    assert CurrentLoads(w) - {op} == CurrentLoads(w);
    MovedIsFaithful(w, x, op, next);
  }

  lemma SettleIsFaithful(w: World, op: nat, o: Outcome, now: int)
    requires Inv(w) && Faithful(w) && Enabled(w, Settle(op, o, now))
    ensures Faithful(Next(w, Settle(op, o, now))) && NamesAccepted(w, Next(w, Settle(op, o, now)))
  {
    var x := Next(w, Settle(op, o, now));
    var f := w.frames[op];
    ResumeEffect(w.v, f, o, now);
    var next := Resume(w.v, f, o, now).1;
    hide Resume, Tickets, Inv, Faithful;
    if f.t.generation != w.v.session.generation {
      assert CurrentLoads(x) == CurrentLoads(w) && CurrentOpens(x) == CurrentOpens(w);
      StillFaithful(w, x);
    } else if S.IsExpired(w.v.session, now) {
      WipedIsFaithful(w, x, op);
    } else if IsOpen(f) {
      OpenSettleIsFaithful(w, x, op, o);
    } else {
      LoadSettleIsFaithful(w, x, op, o);
    }
  }

  lemma StillFaithful(w: World, x: World)
    requires Faithful(w) && CurrentLoads(x) == CurrentLoads(w) && CurrentOpens(x) == CurrentOpens(w)
    requires forall op :: op in CurrentOpens(w) ==> x.frames[op] == w.frames[op]
    requires x.v.phase == w.v.phase && x.v.id == w.v.id && x.accepted == w.accepted
    ensures Faithful(x)
  {
  }

  // How a current operation goes on.
  ghost predicate GoesOn(w: World, x: World, op: nat, o: Outcome) {
    && op in w.frames && IsCurrent(w, op) && Answers(o, w.frames[op])
    && var (v, next) := Continue(w.v, w.frames[op], o);
       && x.v == v && x.frames == Suspend(w.frames, op, next)
       && x.accepted == w.accepted + (if Accepted(w.v, w.frames[op], o) then [w.v.id] else [])
       && x.called == w.called + (if next.Some? && next.value.OpenFetch? then [v.id] else [])
  }

  lemma ContinueMoves(w: World, x: World, op: nat, o: Outcome)
    requires Tickets(w) && GoesOn(w, x, op, o)
    ensures Moved(w, x, op, Continue(w.v, w.frames[op], o).1) && x.v.session == w.v.session
  {
  }

  lemma LoadSettleIsFaithful(w: World, x: World, op: nat, o: Outcome)
    requires Tickets(w) && Faithful(w) && GoesOn(w, x, op, o) && !IsOpen(w.frames[op])
    ensures Faithful(x) && x.called == w.called
  {
    ContinueMoves(w, x, op, o);
    assert op in CurrentLoads(w);
    Single(CurrentLoads(w), op);
    MovedIsFaithful(w, x, op, Continue(w.v, w.frames[op], o).1);
  }

  lemma OpenSettleIsFaithful(w: World, x: World, op: nat, o: Outcome)
    requires Tickets(w) && Faithful(w) && |CurrentOpens(w)| <= 1 && GoesOn(w, x, op, o) && IsOpen(w.frames[op])
    ensures Faithful(x) && NamesAccepted(w, x)
  {
    ContinueMoves(w, x, op, o);
    assert op in CurrentOpens(w) && op !in CurrentLoads(w);
    Single(CurrentOpens(w), op);
    assert w.accepted + [] == w.accepted;
    MovedIsFaithful(w, x, op, Continue(w.v, w.frames[op], o).1);
  }

  lemma StepIsFaithful(w: World, a: Step)
    requires Inv(w) && Faithful(w) && Enabled(w, a) && (a.StartLoad? ==> MayLoad(w))
    ensures Faithful(Next(w, a)) && NamesAccepted(w, Next(w, a))
  {
    var x := Next(w, a);
    hide Inv, Faithful, MayLoad, Open;
    match a
    case StartLoad(op, now) => LoadIsFaithful(w, op, now);
    case StartOpen(op, now) => OpenIsFaithful(w, op, now);
    case Settle(op, o, now) => SettleIsFaithful(w, op, o, now);
    case Happens(e) =>
      EventEffect(w.v, e);
      if x.v.session.generation > w.v.session.generation {
        WipedIsFaithful(w, x, 0);
      } else {
        assert CurrentLoads(x) == CurrentLoads(w) && CurrentOpens(x) == CurrentOpens(w);
        StillFaithful(w, x);
      }
    case Type(_) =>
      assert CurrentLoads(x) == CurrentLoads(w) && CurrentOpens(x) == CurrentOpens(w);
      StillFaithful(w, x);
  }

  lemma {:induction false} LoadsApartSuffice(w: World, steps: seq<Step>)
    requires Inv(w) && Faithful(w) && IsRun(w, steps) && LoadsApart(w, steps)
    ensures CallsNameAccepted(w, steps) && Faithful(Exec(w, steps))
    decreases |steps|
  {
    if steps != [] {
      StepKeepsInv(w, steps[0]);
      StepIsFaithful(w, steps[0]);
      hide Next, Inv, Enabled, Faithful, MayLoad, NamesAccepted;
      LoadsApartSuffice(Next(w, steps[0]), steps[1..]);
    }
  }

  /** In every run whose loads start when they may, any number of them, each consuming request names the
      note whose metadata was accepted last; and the page stays one on which the condition is exact. */
  lemma RequestsNameTheAcceptedNote(steps: seq<Step>)
    ensures Inv(START)
    ensures IsRun(START, steps) && LoadsApart(START, steps) ==>
              CallsNameAccepted(START, steps) && Faithful(Exec(START, steps))
  {
    BusyMeansOneOpen([]);
    assert CurrentLoads(START) == {} && CurrentOpens(START) == {};
    if IsRun(START, steps) && LoadsApart(START, steps) {
      LoadsApartSuffice(START, steps);
    }
  }
}
