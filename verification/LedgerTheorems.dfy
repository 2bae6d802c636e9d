/** Safety and reclamation over whole runs of the ledger. */
module LedgerTheorems {
  import opened Wrappers
  import opened Bytes
  import opened Ledger
  import opened LedgerRuns

  // No step of the run successfully creates this identifier.
  ghost predicate NoCreateOf(c: Config, w: World, steps: seq<Step>, id: Id)
    decreases |steps|
  {
    steps == [] ||
    (!(Created(steps[0], Apply(c, w.state, steps[0]).1) && steps[0].r.id == id)
     && NoCreateOf(c, Next(c, w, steps[0]), steps[1..], id))
  }

  lemma ClockForward(c: Config, s: State, a: Step)
    ensures Apply(c, s, a).0.now >= s.now
  {
    hide Create, Access, Unexpired;
    match a
    case AccessStep(typed, i, capability, op) => AccessKeepsLeases(s, typed, i, capability, op);
    case CreateStep(typed, r, reaped, failed) => CreateOutcome(c, s, typed, r, reaped, failed);
    case _ =>
  }

  // ---- No resurrection ------------------------------------------------------------------------

  predicate SameNote(a: Note, b: Note) {
    a == b.(remaining := a.remaining)
  }

  lemma AvailableBefore(c: Config, w: World, a: Step, id: Id)
    requires Enabled(w, a) && !(Created(a, Apply(c, w.state, a).1) && a.r.id == id)
    requires IsAvailable(Next(c, w, a).state, id)
    ensures IsAvailable(w.state, id)
    ensures var e, f := w.state.entries[id], Next(c, w, a).state.entries[id];
            e.expires == f.expires && SameNote(e.note.value, f.note.value)
  {
    EveryNoteStep(c, w, a, id);
    ClockForward(c, w.state, a);
    hide Apply, Discarded, NextForfeited;
  }

  /** A note that is available at the end of a run in which nobody created it was available at the
      start, under the same capabilities and with the same packet: once consumed, revoked or at its
      expiry, it stays unavailable to every operation until it is created again. */
  lemma {:induction false} NoResurrection(c: Config, w: World, steps: seq<Step>, id: Id)
    requires IsRun(c, w, steps) && NoCreateOf(c, w, steps, id)
    requires IsAvailable(Exec(c, w, steps).state, id)
    ensures IsAvailable(w.state, id)
    ensures var e, f := w.state.entries[id], Exec(c, w, steps).state.entries[id];
            e.expires == f.expires && SameNote(e.note.value, f.note.value)
    decreases |steps|
  {
    hide Apply, Next, Enabled;
    if steps != [] {
      NoResurrection(c, Next(c, w, steps[0]), steps[1..], id);
      AvailableBefore(c, w, steps[0], id);
    }
  }

  /** To every operation and capability: a note that was unavailable is answered as unavailable after
      every run in which nobody created it. */
  lemma StaysUnavailable(c: Config, w: World, steps: seq<Step>, id: Id, capability: Digest, op: Operation)
    requires IsRun(c, w, steps) && NoCreateOf(c, w, steps, id) && !IsAvailable(w.state, id)
    ensures Access(Exec(c, w, steps).state, true, id, capability, op).1 == Unavailable
  {
    if IsAvailable(Exec(c, w, steps).state, id) {
      NoResurrection(c, w, steps, id);
    }
    hide Matches, Perform, Exec, IsRun, NoCreateOf;
  }

  /** The first phase never refuses what the second would have granted: if an open succeeds, then an
      earlier check with the same capability, in the same incarnation, would have succeeded too, and
      would have changed nothing. */
  lemma OpenImpliesEarlierCheck(c: Config, w: World, steps: seq<Step>, id: Id, capability: Digest)
    requires IsRun(c, w, steps) && NoCreateOf(c, w, steps, id)
    requires Access(Exec(c, w, steps).state, true, id, capability, Open).1.OkPacket?
    ensures Access(w.state, true, id, capability, CheckOpen) == (w.state, Done)
    ensures Access(Exec(c, w, steps).state, true, id, capability, Open).1.packet == w.state.entries[id].note.value.packet
  {
    hide Matches;
    NoResurrection(c, w, steps, id);
  }

  // ---- Opens within the grant --------------------------------------------------------------------

  lemma OpensCounted(c: Config, w: World, a: Step, id: Id)
    requires NoteAgrees(w, id) && id in w.latest && Enabled(w, a)
    requires !(Created(a, Apply(c, w.state, a).1) && a.r.id == id)
    ensures var v := Next(c, w, a);
            && id in v.latest && v.latest[id] == w.latest[id].(opens := v.latest[id].opens)
            && Count(v.viewed, id) - Count(w.viewed, id) == v.latest[id].opens - w.latest[id].opens
            && (Opened(a, Apply(c, w.state, a).1) && a.id == id ==>
                  Apply(c, w.state, a).1.packet == w.latest[id].r.packet && v.latest[id].opens == w.latest[id].opens + 1)
  {
    EveryNoteStep(c, w, a, id);
    hide Apply, Discarded, NextForfeited;
  }

  /** Between two creations of an identifier it is opened at most as often as the first one grants. */
  lemma {:induction false} OpensWithinGrant(c: Config, w: World, steps: seq<Step>, id: Id)
    requires Inv(c, w) && id in w.latest && IsRun(c, w, steps) && NoCreateOf(c, w, steps, id)
    ensures var v := Exec(c, w, steps);
            && id in v.latest && v.latest[id] == w.latest[id].(opens := v.latest[id].opens)
            && Count(v.viewed, id) - Count(w.viewed, id) == v.latest[id].opens - w.latest[id].opens
            && w.latest[id].opens + (Count(v.viewed, id) - Count(w.viewed, id)) <= w.latest[id].r.views
    decreases |steps|
  {
    hide Apply, Next, Enabled;
    if steps == [] {
      assert NotesAgree(w);
    } else {
      assert NotesAgree(w);
      assert NoteAgrees(w, id);
      OpensCounted(c, w, steps[0], id);
      StepKeepsInv(c, w, steps[0]);
      OpensWithinGrant(c, Next(c, w, steps[0]), steps[1..], id);
    }
  }

  // ---- Challenges ----------------------------------------------------------------------------------

  /** Each challenge admits at most one creation, also after its spent marker has expired. */
  lemma AdmittedOnce(c: Config, steps: seq<Step>, challenge: Id)
    requires IsRun(c, START, steps)
    ensures Count(Exec(c, START, steps).admitted, challenge) <= 1
  {
    ReachableStates(c, steps);
  }

  function Usable(s: State): set<Id> {
    set ch | ch in s.leases && s.leases[ch].expires > s.now
  }

  /** Usable leases never exceed the configured number. */
  lemma UsableLeasesCapped(c: Config, steps: seq<Step>)
    requires IsRun(c, START, steps)
    ensures |Usable(Exec(c, START, steps).state)| <= c.maxChallenges
  {
    ReachableStates(c, steps);
    var s := Exec(c, START, steps).state;
    Subset(Usable(s), s.leaseIndex.Keys);
    assert |s.leaseIndex| == |s.leaseIndex.Keys|;
  }

  lemma RejectionKept(c: Config, w: World, a: Step, challenge: Id)
    requires Inv(c, w) && Enabled(w, a) && challenge in w.issued && !Admissible(w.state, challenge)
    ensures challenge in Next(c, w, a).issued && !Admissible(Next(c, w, a).state, challenge)
  {
    EveryLease(c, w, a, challenge);
    EveryChallengeStep(c, w, a);
    ClockForward(c, w.state, a);
    hide Apply, Discarded, NextForfeited;
  }

  // A lease that survives a step is unchanged.
  lemma EveryLease(c: Config, w: World, a: Step, challenge: Id)
    requires challenge in w.issued && Enabled(w, a)
    ensures var t := Apply(c, w.state, a).0;
            challenge in t.leases ==> challenge in w.state.leases && t.leases[challenge] == w.state.leases[challenge]
  {
    hide Create, Access, Unexpired;
    match a
    case AccessStep(typed, i, capability, op) => AccessKeepsLeases(w.state, typed, i, capability, op);
    case CreateStep(typed, r, reaped, failed) => CreateOutcome(c, w.state, typed, r, reaped, failed);
    case _ =>
  }

  /** The pre-check agrees with creation: once inspection rejects an issued challenge, every later
      creation with it is rejected for its proof. */
  lemma {:induction false} InspectRejectionIsFinal(c: Config, w: World, steps: seq<Step>, r: Request,
                                                   reaped: set<Id>, failed: set<Write>)
    requires Inv(c, w) && IsRun(c, w, steps) && r.challenge in w.issued
    requires !Inspect(w.state, r.challenge).OkBits?
    ensures Create(c, Exec(c, w, steps).state, true, r, reaped, failed).1 in {ProofReused, ProofInvalid}
    decreases |steps|
  {
    hide Next, Enabled, Apply, Inv;
    if steps != [] {
      RejectionKept(c, w, steps[0], r.challenge);
      StepKeepsInv(c, w, steps[0]);
      InspectRejectionIsFinal(c, Next(c, w, steps[0]), steps[1..], r, reaped, failed);
    }
  }

  // ---- Reclamation ------------------------------------------------------------------------------------

  // Charges of notes whose expiry is at or before a given time.
  function Stale(s: State, time: int): set<Id> {
    set id | id in s.entries && s.entries[id].expires <= time
  }

  // Reaping is part of this step.
  predicate Reaps(s: State, a: Step) {
    (a.ReapStep? && a.typed) || (a.CreateStep? && a.typed && Admissible(s, a.r.challenge))
  }

  ghost function ReapCount(c: Config, w: World, steps: seq<Step>): nat
    decreases |steps|
  {
    if steps == [] then 0
    else (if Reaps(w.state, steps[0]) then 1 else 0) + ReapCount(c, Next(c, w, steps[0]), steps[1..])
  }

  // An entry after a step was there before with the same expiry, or is new and expires later.
  lemma EveryEntry(c: Config, w: World, a: Step, id: Id)
    requires Enabled(w, a) && id in Apply(c, w.state, a).0.entries
    ensures var t := Apply(c, w.state, a).0;
            || t.entries[id].expires > w.state.now
            || (id in w.state.entries && t.entries[id].expires == w.state.entries[id].expires
                && (Reaps(w.state, a) ==> id !in a.reaped))
  {
    hide Create, Unexpired, Matches;
    match a
    case CreateStep(typed, r, reaped, failed) => CreateOutcome(c, w.state, typed, r, reaped, failed);
    case _ =>
  }

  lemma StaleStep(c: Config, w: World, a: Step, time: int)
    requires Enabled(w, a) && time <= w.state.now
    ensures var stale, after := Stale(w.state, time), Stale(Apply(c, w.state, a).0, time);
            && after <= stale
            && (Reaps(w.state, a) ==> after <= stale - a.reaped)
  {
    hide Apply, Enabled;
    var t := Apply(c, w.state, a).0;
    forall id | id in Stale(t, time)
      ensures id in Stale(w.state, time) && (Reaps(w.state, a) ==> id !in a.reaped)
    {
      EveryEntry(c, w, a, id);
    }
  }

  // Oldest first: a reaping that leaves a stale charge behind has taken 128 stale ones.
  lemma ReapedStale(s: State, reaped: set<Id>, time: int)
    requires IsReap(s, reaped) && time <= s.now
    ensures Stale(s, time) <= reaped || (reaped <= Stale(s, time) && |reaped| == REAP_LIMIT)
  {
    assert Stale(s, time) <= Expired(s);
    assert |Expired(s)| == |reaped| + |Expired(s) - reaped|;
  }

  /** Whatever else happens, and however the clock advances, k reapings remove all but at most
      n - 128k of the n charges that were due: ceil(n/128) of them remove every one. */
  lemma {:induction false} ReapingDrains(c: Config, w: World, steps: seq<Step>, time: int)
    requires IsRun(c, w, steps) && time <= w.state.now
    ensures var n, left := |Stale(w.state, time)|, |Stale(Exec(c, w, steps).state, time)|;
            var k := ReapCount(c, w, steps);
            left == 0 || left + 128 * k <= n
    decreases |steps|
  {
    if steps != [] {
      var a := steps[0];
      var stale, after := Stale(w.state, time), Stale(Next(c, w, a).state, time);
      StaleStep(c, w, a, time);
      ClockForward(c, w.state, a);
      ReapingDrains(c, Next(c, w, a), steps[1..], time);
      Subset(after, stale);
      if Reaps(w.state, a) {
        ReapedStale(w.state, a.reaped, time);
        Subset(after, stale - a.reaped);
        if a.reaped <= stale {
          assert |stale - a.reaped| == |stale| - |a.reaped|;
        }
      }
      hide Apply, Next, Enabled, Reaps, IsReap;
    }
  }

  /** An entry leaves the ledger only at its expiry, by the open of its last view, or by a
      revocation with the right capability; in particular no reaping takes an unexpired one. */
  lemma EntryRemoved(c: Config, w: World, a: Step, id: Id)
    requires Enabled(w, a) && id in w.state.entries && id !in Apply(c, w.state, a).0.entries
    ensures || w.state.entries[id].expires <= w.state.now
            || (a.AccessStep? && a.id == id && IsLive(w.state, id)
                && var n := w.state.entries[id].note.value;
                   (a.op == Open && n.remaining == 1 && Matches(n.read, a.capability))
                   || (a.op == Delete && Matches(n.revoke, a.capability)))
  {
    hide Create, Unexpired, Matches;
    match a
    case CreateStep(typed, r, reaped, failed) => CreateOutcome(c, w.state, typed, r, reaped, failed);
    case _ =>
  }
}
