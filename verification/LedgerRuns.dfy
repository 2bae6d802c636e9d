/** Every interleaving of the scripts with the clock, native expiry and failing writes: what holds
    in each reachable state and over whole runs. */
module LedgerRuns {
  import opened Wrappers
  import opened Bytes
  import opened Ledger

  datatype Step =
    | CreateStep(typed: bool, r: Request, reaped: set<Id>, failed: set<Write>)
    | AccessStep(typed: bool, id: Id, capability: Digest, op: Operation)
    | ReapStep(typed: bool, reaped: set<Id>)
    | IssueStep(typed: bool, challenge: Id, failed: set<Write>)
    | InspectStep(challenge: Id)
    | Tick(seconds: nat)
    // Native expiry of a note, a lease or a spent marker.
    | NoteVanishes(id: Id)
    | LeaseVanishes(challenge: Id)
    | SpentVanishes(challenge: Id)

  ghost function Apply(c: Config, s: State, a: Step): (State, Reply) {
    match a
    case CreateStep(typed, r, reaped, failed) => Create(c, s, typed, r, reaped, failed)
    case AccessStep(typed, id, capability, op) => Access(s, typed, id, capability, op)
    case ReapStep(typed, reaped) => Reap(s, typed, reaped)
    case IssueStep(typed, challenge, failed) => Issue(c, s, typed, challenge, failed)
    case InspectStep(challenge) => (s, Inspect(s, challenge))
    case Tick(seconds) => (s.(now := s.now + seconds), Done)
    case NoteVanishes(id) =>
      (if id in s.entries then s.(entries := s.entries[id := s.entries[id].(note := None)]) else s, Done)
    case LeaseVanishes(challenge) => (s.(leases := s.leases - {challenge}), Done)
    case SpentVanishes(challenge) => (s.(spent := s.spent - {challenge}), Done)
  }

  // ---- History --------------------------------------------------------------------------------

  // The latest successful creation of an identifier: its request, its time, and the opens since.
  datatype Incarnation = Incarnation(r: Request, at: int, opens: nat)

  // A challenge handed to the issuing script: when, and whether it was answered with it.
  datatype Issued = Issued(at: int, ok: bool)

  datatype World = World(
    state: State,
    issued: map<Id, Issued>,
    unindexed: set<Id>,         // challenges whose creation could not remove their index entry
    admitted: map<Id, nat>,     // successful creations by challenge
    latest: map<Id, Incarnation>,
    granted: map<Id, nat>,      // views granted by successful creations
    viewed: map<Id, nat>,       // successful opens
    forfeited: map<Id, nat>)    // views lost to expiry or revocation

  function Count(m: map<Id, nat>, id: Id): nat {
    if id in m then m[id] else 0
  }

  function Bump(m: map<Id, nat>, id: Id, n: nat): map<Id, nat> {
    m[id := Count(m, id) + n]
  }

  function Remaining(s: State, id: Id): nat {
    if IsLive(s, id) && s.entries[id].note.value.remaining >= 0 then s.entries[id].note.value.remaining else 0
  }

  // A step of the environment may happen; a script may be called at any time.
  predicate Enabled(w: World, a: Step) {
    var s := w.state;
    match a
    case CreateStep(_, r, reaped, _) => r.views >= 1 && r.ttl >= 1 && IsReap(s, reaped)
    case ReapStep(_, reaped) => IsReap(s, reaped)
    // Challenges are fresh random tokens.
    case IssueStep(_, challenge, _) => challenge !in w.issued
    case NoteVanishes(id) => id in s.entries && s.entries[id].expires <= s.now
    case LeaseVanishes(challenge) => challenge in s.leases && s.leases[challenge].expires <= s.now
    case SpentVanishes(challenge) => challenge in s.spent && s.spent[challenge] <= s.now
    case _ => true
  }

  predicate Created(a: Step, reply: Reply) {
    a.CreateStep? && reply.OkExpires?
  }

  predicate Opened(a: Step, reply: Reply) {
    a.AccessStep? && reply.OkPacket?
  }

  // The notes whose views this step gives up: expired, or revoked with the right capability.
  ghost function Discarded(c: Config, s: State, a: Step): set<Id> {
    match a
    case CreateStep(typed, r, reaped, _) => if typed && Admissible(s, r.challenge) then reaped else {}
    case ReapStep(typed, reaped) => if typed then reaped else {}
    case AccessStep(typed, id, _, op) =>
      if typed && IsLive(s, id) && (s.entries[id].expires <= s.now || (op == Delete && Apply(c, s, a).1 == Done)) then {id} else {}
    case NoteVanishes(id) => {id}
    case _ => {}
  }

  function NextIssued(w: World, a: Step, reply: Reply): map<Id, Issued> {
    if a.IssueStep? then w.issued[a.challenge := Issued(w.state.now, reply.OkExpires?)] else w.issued
  }

  function NextUnindexed(w: World, a: Step, reply: Reply): set<Id> {
    if Created(a, reply) && LeaseIndexEntry in a.failed then w.unindexed + {a.r.challenge} else w.unindexed
  }

  function NextAdmitted(w: World, a: Step, reply: Reply): map<Id, nat> {
    if Created(a, reply) then Bump(w.admitted, a.r.challenge, 1) else w.admitted
  }

  function NextLatest(w: World, a: Step, reply: Reply): map<Id, Incarnation> {
    if Created(a, reply) then w.latest[a.r.id := Incarnation(a.r, w.state.now, 0)]
    else if Opened(a, reply) && a.id in w.latest then w.latest[a.id := w.latest[a.id].(opens := w.latest[a.id].opens + 1)]
    else w.latest
  }

  function NextGranted(w: World, a: Step, reply: Reply): map<Id, nat> {
    if Created(a, reply) then Bump(w.granted, a.r.id, a.r.views) else w.granted
  }

  function NextViewed(w: World, a: Step, reply: Reply): map<Id, nat> {
    if Opened(a, reply) then Bump(w.viewed, a.id, 1) else w.viewed
  }

  function NextForfeited(w: World, discarded: set<Id>): (m: map<Id, nat>)
    ensures forall id :: Count(m, id) == Count(w.forfeited, id) + if id in discarded then Remaining(w.state, id) else 0
  {
    map id | id in w.forfeited.Keys + discarded ::
      Count(w.forfeited, id) + if id in discarded then Remaining(w.state, id) else 0
  }

  ghost function Next(c: Config, w: World, a: Step): World {
    var (t, reply) := Apply(c, w.state, a);
    World(t, NextIssued(w, a, reply), NextUnindexed(w, a, reply), NextAdmitted(w, a, reply), NextLatest(w, a, reply),
          NextGranted(w, a, reply), NextViewed(w, a, reply), NextForfeited(w, Discarded(c, w.state, a)))
  }

  const START: World := World(State(0, map[], map[], map[], map[]), map[], {}, map[], map[], map[], map[], map[])

  ghost predicate IsRun(c: Config, w: World, steps: seq<Step>)
    decreases |steps|
  {
    steps == [] || (Enabled(w, steps[0]) && IsRun(c, Next(c, w, steps[0]), steps[1..]))
  }

  ghost function Exec(c: Config, w: World, steps: seq<Step>): World
    decreases |steps|
  {
    if steps == [] then w else Exec(c, Next(c, w, steps[0]), steps[1..])
  }

  // ---- The invariant --------------------------------------------------------------------------

  ghost predicate WithinCaps(c: Config, s: State) {
    |s.entries| <= c.maxNotes && Sum(s.entries) <= c.maxBytes
  }

  // The stored fields are those of the request.
  predicate IsNoteOf(n: Note, r: Request) {
    n.packet == r.packet && n.header == r.header && n.peek == r.peek && n.read == r.read && n.revoke == r.revoke
  }

  // A live note holds what its creating request said, expires at the time that request asked for, and
  // has between one and all of its views left.
  predicate NoteAgrees(w: World, id: Id) {
    IsLive(w.state, id) ==>
      && id in w.latest
      && var note, inc := w.state.entries[id].note.value, w.latest[id];
      && inc.r.id == id && IsNoteOf(note, inc.r) && w.state.entries[id].expires == inc.at + inc.r.ttl
      && 1 <= note.remaining <= inc.r.views
      && inc.opens + note.remaining == inc.r.views
  }

  ghost predicate NotesAgree(w: World) {
    && (forall id :: NoteAgrees(w, id))
    && (forall id :: id in w.latest ==> w.latest[id].opens <= w.latest[id].r.views)
  }

  ghost predicate ConservedAt(w: World, id: Id) {
    Count(w.granted, id) == Count(w.viewed, id) + Remaining(w.state, id) + Count(w.forfeited, id)
  }

  ghost predicate Conserved(w: World) {
    forall id :: ConservedAt(w, id)
  }

  ghost predicate ChallengesAgree(w: World) {
    var s := w.state;
    && s.leases.Keys + w.admitted.Keys <= w.issued.Keys
    && s.leases.Keys !! w.admitted.Keys
    && s.spent.Keys <= w.admitted.Keys
    && forall ch :: ch in w.admitted ==> w.admitted[ch] == 1
  }

  // Every lease that can still be used is in the index, which the cap bounds.
  ghost predicate LeasesIndexed(c: Config, s: State) {
    && (forall ch :: ch in s.leases && s.leases[ch].expires > s.now ==>
                       ch in s.leaseIndex && s.leaseIndex[ch] == s.leases[ch].expires)
    && |s.leaseIndex| <= c.maxChallenges
  }

  ghost predicate Inv(c: Config, w: World) {
    WithinCaps(c, w.state) && NotesAgree(w) && Conserved(w) && ChallengesAgree(w) && LeasesIndexed(c, w.state)
  }

  // ---- Every step keeps it ----------------------------------------------------------------------

  lemma KeysShrink<V>(m: map<Id, V>, n: map<Id, V>)
    requires n.Keys <= m.Keys
    ensures |n| <= |m|
  {
    Subset(n.Keys, m.Keys);
    assert |n| == |n.Keys| && |m| == |m.Keys|;
  }

  lemma {:induction false} Subset<T>(a: set<T>, b: set<T>)
    requires a <= b
    ensures |a| <= |b|
  {
    if a != {} {
      var x :| x in a;
      Subset(a - {x}, b - {x});
    }
  }

  lemma CapsKeptByForget(c: Config, s: State, ids: set<Id>)
    requires WithinCaps(c, s)
    ensures WithinCaps(c, Forget(s, ids))
  {
    SumForget(s.entries, ids);
    KeysShrink(s.entries, Forget(s, ids).entries);
  }

  lemma CapsKeptByUpdate(c: Config, s: State, id: Id, e: Entry)
    requires WithinCaps(c, s) && id in s.entries && s.entries[id].charge == e.charge
    ensures WithinCaps(c, s.(entries := s.entries[id := e]))
  {
    SumUpdate(s.entries, id, e);
    assert s.entries[id := e].Keys == s.entries.Keys;
    KeysShrink(s.entries, s.entries[id := e]);
  }

  lemma CapsKeptByCreate(c: Config, s: State, typed: bool, r: Request, reaped: set<Id>, failed: set<Write>)
    requires WithinCaps(c, s)
    ensures WithinCaps(c, Create(c, s, typed, r, reaped, failed).0)
  {
    CapsKeptByForget(c, s, reaped);
    CreateOutcome(c, s, typed, r, reaped, failed);
    var t := Forget(s, reaped);
    if r.id !in t.entries {
      AdmittedCharge(t, r, LeaseIndexEntry in failed);
    }
    hide Create, Sum, Admissible, Admitted, Forget, EssentialFails;
  }

  lemma AdmittedCharge(t: State, r: Request, keepIndex: bool)
    requires r.id !in t.entries
    ensures |Admitted(t, r, keepIndex).entries| == |t.entries| + 1
    ensures Sum(Admitted(t, r, keepIndex).entries) == Sum(t.entries) + SizeOf(r)
  {
    SumAdd(t.entries, r.id, Admitted(t, r, keepIndex).entries[r.id]);
  }

  lemma CapsKeptByAccess(c: Config, s: State, typed: bool, id: Id, capability: Digest, op: Operation)
    requires WithinCaps(c, s)
    ensures WithinCaps(c, Access(s, typed, id, capability, op).0)
  {
    hide WithinCaps, Matches;
    CapsKeptByForget(c, s, {id});
    if IsLive(s, id) {
      var note := s.entries[id].note.value;
      CapsKeptByUpdate(c, s, id, s.entries[id].(note := Some(note.(remaining := note.remaining - 1))));
    }
  }

  lemma CapsKept(c: Config, s: State, a: Step)
    requires WithinCaps(c, s)
    ensures WithinCaps(c, Apply(c, s, a).0)
  {
    hide Create, Access, Sum;
    match a
    case CreateStep(typed, r, reaped, failed) => CapsKeptByCreate(c, s, typed, r, reaped, failed);
    case AccessStep(typed, id, capability, op) => CapsKeptByAccess(c, s, typed, id, capability, op);
    case ReapStep(typed, reaped) => CapsKeptByForget(c, s, reaped);
    case NoteVanishes(id) => if id in s.entries { CapsKeptByUpdate(c, s, id, s.entries[id].(note := None)); }
    case _ =>
  }

  // What a note is accounted with.
  function SizeOf(r: Request): nat {
    |r.packet| + |r.header| + 1024
  }

  /** Creation is all or nothing: the ledger is as it was, or as it was after the reaping, or it has
      the one new note; and which of these it is can be read off the reply. */
  lemma CreateOutcome(c: Config, s: State, typed: bool, r: Request, reaped: set<Id>, failed: set<Write>)
    ensures var (t, reply) := Create(c, s, typed, r, reaped, failed);
            && (reply.OkExpires? <==>
                  && typed && Admissible(s, r.challenge) && r.id !in Forget(s, reaped).entries
                  && |Forget(s, reaped).entries| < c.maxNotes
                  && Sum(Forget(s, reaped).entries) + SizeOf(r) <= c.maxBytes && !EssentialFails(failed))
            && (reply.OkExpires? ==> reply.expires == s.now + r.ttl && t == Admitted(Forget(s, reaped), r, LeaseIndexEntry in failed))
            && (!reply.OkExpires? ==> t == if typed && Admissible(s, r.challenge) then Forget(s, reaped) else s)
  {
    hide Sum, Admissible, Admitted, EssentialFails;
  }

  // What one step does to one note: creates it, counts an open of it, gives it up, or nothing.
  ghost predicate NoteStep(c: Config, s: State, a: Step, id: Id) {
    var (t, reply) := Apply(c, s, a);
    if Created(a, reply) && a.r.id == id then
      && (IsLive(s, id) ==> id in Discarded(c, s, a))
      && IsLive(t, id) && t.entries[id].expires == s.now + a.r.ttl
      && IsNoteOf(t.entries[id].note.value, a.r) && t.entries[id].note.value.remaining == a.r.views
    else if Opened(a, reply) && a.id == id then
      && IsAvailable(s, id) && reply.packet == s.entries[id].note.value.packet && id !in Discarded(c, s, a)
      && var n := s.entries[id].note.value;
         if n.remaining == 1 then !IsLive(t, id)
         else IsLive(t, id) && t.entries[id] == s.entries[id].(note := Some(n.(remaining := n.remaining - 1)))
    else if id in Discarded(c, s, a) then
      && !IsLive(t, id)
      && (IsAvailable(s, id) ==> a.AccessStep? && a.op == Delete && a.id == id && reply == Done
                                 && Matches(s.entries[id].note.value.revoke, a.capability))
    else IsLive(t, id) == IsLive(s, id) && (IsLive(s, id) ==> t.entries[id] == s.entries[id])
  }

  /** Only an open of it, its expiry or a revocation with the right capability touches a note, and
      only after its expiry or such a revocation are views given up. */
  lemma EveryNoteStep(c: Config, w: World, a: Step, id: Id)
    requires Enabled(w, a)
    ensures NoteStep(c, w.state, a, id)
  {
    match a
    case AccessStep(typed, i, capability, op) => AccessNoteStep(c, w.state, typed, i, capability, op, id);
    case CreateStep(typed, r, reaped, failed) => CreateNoteStep(c, w.state, typed, r, reaped, failed, id);
    case _ => PassiveNoteStep(c, w, a, id);
  }

  lemma PassiveNoteStep(c: Config, w: World, a: Step, id: Id)
    requires Enabled(w, a) && !a.AccessStep? && !a.CreateStep?
    ensures NoteStep(c, w.state, a, id)
  {
    hide Unexpired;
  }

  lemma CreateNoteStep(c: Config, s: State, typed: bool, r: Request, reaped: set<Id>, failed: set<Write>, id: Id)
    requires IsReap(s, reaped)
    ensures NoteStep(c, s, CreateStep(typed, r, reaped, failed), id)
  {
    CreateOutcome(c, s, typed, r, reaped, failed);
    ForgetNote(s, reaped, id);
    ForgetNote(s, reaped, r.id);
    AdmittedNote(Forget(s, reaped), r, LeaseIndexEntry in failed, id);
    hide Create, Admissible, EssentialFails, Admitted, Forget, Sum;
  }

  lemma ForgetNote(s: State, ids: set<Id>, id: Id)
    ensures IsLive(Forget(s, ids), id) <==> IsLive(s, id) && id !in ids
    ensures IsLive(Forget(s, ids), id) ==> Forget(s, ids).entries[id] == s.entries[id]
    ensures Forget(s, ids).now == s.now && (id in Forget(s, ids).entries <==> id in s.entries && id !in ids)
  {
  }

  lemma AdmittedNote(s: State, r: Request, keepIndex: bool, id: Id)
    ensures var t := Admitted(s, r, keepIndex);
            if id == r.id
            then IsLive(t, id) && t.entries[id].expires == s.now + r.ttl && IsNoteOf(t.entries[id].note.value, r)
                 && t.entries[id].note.value.remaining == r.views
            else IsLive(t, id) == IsLive(s, id) && (IsLive(s, id) ==> t.entries[id] == s.entries[id])
  {
  }

  lemma AccessNoteStep(c: Config, s: State, typed: bool, i: Id, capability: Digest, op: Operation, id: Id)
    ensures NoteStep(c, s, AccessStep(typed, i, capability, op), id)
  {
    hide Matches;
  }

  lemma NotesKept(c: Config, w: World, a: Step)
    requires NotesAgree(w) && Enabled(w, a)
    ensures NotesAgree(Next(c, w, a))
  {
    hide Apply, Discarded, NextForfeited;
    var v := Next(c, w, a);
    forall id ensures NoteAgrees(v, id) {
      assert NoteAgrees(w, id);
      EveryNoteStep(c, w, a, id);
    }
    forall id | id in v.latest ensures v.latest[id].opens <= v.latest[id].r.views {
      assert NoteAgrees(w, id);
      EveryNoteStep(c, w, a, id);
    }
  }

  lemma ConservationKeptAt(c: Config, w: World, a: Step, id: Id)
    requires NoteAgrees(w, id) && ConservedAt(w, id) && Enabled(w, a)
    ensures ConservedAt(Next(c, w, a), id)
  {
    EveryNoteStep(c, w, a, id);
    hide Apply, Discarded, NextLatest, Enabled, Matches;
  }

  lemma ConservationKept(c: Config, w: World, a: Step)
    requires NotesAgree(w) && Conserved(w) && Enabled(w, a)
    ensures Conserved(Next(c, w, a))
  {
    hide NoteAgrees, ConservedAt, Next, Enabled;
    forall id ensures ConservedAt(Next(c, w, a), id) {
      assert NoteAgrees(w, id) && ConservedAt(w, id);
      ConservationKeptAt(c, w, a, id);
    }
  }

  // What one step does to the challenges.
  ghost predicate ChallengeStep(c: Config, w: World, a: Step) {
    var (t, reply) := Apply(c, w.state, a);
    var s := w.state;
    if Created(a, reply) then
      && a.r.challenge in s.leases && a.r.challenge !in s.spent
      && t.leases == s.leases - {a.r.challenge} && t.spent.Keys == s.spent.Keys + {a.r.challenge}
    else
      && t.spent.Keys <= s.spent.Keys
      && t.leases.Keys <= s.leases.Keys + (if a.IssueStep? then {a.challenge} else {})
  }

  lemma EveryChallengeStep(c: Config, w: World, a: Step)
    ensures ChallengeStep(c, w, a)
  {
    hide Create, Access, Unexpired;
    match a
    case AccessStep(typed, i, capability, op) => AccessKeepsLeases(w.state, typed, i, capability, op);
    case CreateStep(typed, r, reaped, failed) => CreateOutcome(c, w.state, typed, r, reaped, failed);
    case _ =>
  }

  lemma ChallengesKept(c: Config, w: World, a: Step)
    requires ChallengesAgree(w) && Enabled(w, a)
    ensures ChallengesAgree(Next(c, w, a))
  {
    EveryChallengeStep(c, w, a);
    hide Apply, Discarded, NextForfeited, NextLatest;
  }

  lemma LeasesKept(c: Config, w: World, a: Step)
    requires LeasesIndexed(c, w.state) && Enabled(w, a)
    ensures LeasesIndexed(c, Apply(c, w.state, a).0)
  {
    hide Create, Access, Issue, Reap;
    var s := w.state;
    match a
    case AccessStep(typed, i, capability, op) => AccessKeepsLeases(s, typed, i, capability, op);
    case CreateStep(typed, r, reaped, failed) => LeasesKeptByCreate(c, s, typed, r, reaped, failed);
    case IssueStep(typed, challenge, failed) => LeasesKeptByIssue(c, s, typed, challenge, failed);
    case ReapStep(typed, reaped) => LeasesKeptByReap(c, s, typed, reaped);
    case _ =>
  }

  lemma LeasesKeptByTrim(c: Config, s: State)
    requires LeasesIndexed(c, s)
    ensures LeasesIndexed(c, TrimLeases(s))
  {
    KeysShrink(s.leaseIndex, TrimLeases(s).leaseIndex);
  }

  lemma LeasesKeptByReap(c: Config, s: State, typed: bool, reaped: set<Id>)
    requires LeasesIndexed(c, s)
    ensures LeasesIndexed(c, Reap(s, typed, reaped).0)
  {
    hide TrimLeases;
    LeasesKeptByTrim(c, Forget(s, reaped));
  }

  lemma LeasesKeptByIssue(c: Config, s: State, typed: bool, challenge: Id, failed: set<Write>)
    requires LeasesIndexed(c, s)
    ensures LeasesIndexed(c, Issue(c, s, typed, challenge, failed).0)
  {
    hide TrimLeases;
    LeasesKeptByTrim(c, s);
  }

  lemma LeasesKeptByCreate(c: Config, s: State, typed: bool, r: Request, reaped: set<Id>, failed: set<Write>)
    requires LeasesIndexed(c, s)
    ensures LeasesIndexed(c, Create(c, s, typed, r, reaped, failed).0)
  {
    CreateOutcome(c, s, typed, r, reaped, failed);
    LeasesKeptByAdmission(c, Forget(s, reaped), r, LeaseIndexEntry in failed);
    hide Create, Sum, Admitted, Admissible, EssentialFails;
  }

  lemma LeasesKeptByAdmission(c: Config, s: State, r: Request, keepIndex: bool)
    requires LeasesIndexed(c, s)
    ensures LeasesIndexed(c, Admitted(s, r, keepIndex))
  {
    KeysShrink(s.leaseIndex, s.leaseIndex - {r.challenge});
  }

  lemma AccessKeepsLeases(s: State, typed: bool, i: Id, capability: Digest, op: Operation)
    ensures Access(s, typed, i, capability, op).0 == s.(entries := Access(s, typed, i, capability, op).0.entries)
  {
    hide Matches;
  }

  lemma StepKeepsInv(c: Config, w: World, a: Step)
    requires Inv(c, w) && Enabled(w, a)
    ensures Inv(c, Next(c, w, a))
  {
    CapsKept(c, w.state, a);
    NotesKept(c, w, a);
    ConservationKept(c, w, a);
    ChallengesKept(c, w, a);
    LeasesKept(c, w, a);
  }

  /** In every state that any interleaving reaches from an empty cache: both caps hold, every live
      note has between one and all of its views left, no incarnation was opened more often than it
      grants, the views granted are the views opened, left and forfeited, every challenge admitted at
      most one note, and every usable lease is indexed. */
  lemma {:induction false} RunKeepsInv(c: Config, w: World, steps: seq<Step>)
    requires Inv(c, w) && IsRun(c, w, steps)
    ensures Inv(c, Exec(c, w, steps))
    decreases |steps|
  {
    if steps != [] {
      StepKeepsInv(c, w, steps[0]);
      RunKeepsInv(c, Next(c, w, steps[0]), steps[1..]);
    }
  }

  lemma ReachableStates(c: Config, steps: seq<Step>)
    requires IsRun(c, START, steps)
    ensures Inv(c, Exec(c, START, steps))
  {
    RunKeepsInv(c, START, steps);
  }
}
