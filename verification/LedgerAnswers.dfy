/** What the scripts answer, told from the history alone: the requests that created the notes, the
    opens since, and the challenges issued and used. */
module LedgerAnswers {
  import opened Wrappers
  import opened Bytes
  import opened Ledger
  import opened LedgerRuns

  // ---- What the state records of the history ------------------------------------------------------

  // An accounted note was charged for its packet, its header and 1024 bytes, and expires as requested.
  predicate EntryRecorded(w: World, id: Id) {
    id in w.state.entries ==>
      && id in w.latest && w.latest[id].r.id == id
      && w.state.entries[id].charge == |w.latest[id].r.packet| + |w.latest[id].r.header| + 1024
      && w.state.entries[id].expires == w.latest[id].at + w.latest[id].r.ttl
  }

  // Issued, and not yet at its expiry.
  predicate IsOpenFor(c: Config, w: World, challenge: Id) {
    challenge in w.issued && w.issued[challenge].ok && w.state.now < w.issued[challenge].at + c.challengeSeconds
  }

  // A challenge counts against the cap up to its expiry, unless a creation used it up.
  predicate IsPending(c: Config, w: World, challenge: Id) {
    IsOpenFor(c, w, challenge) && (challenge !in w.admitted || challenge in w.unindexed)
  }

  predicate ExpiresAsIssued(c: Config, w: World, challenge: Id, expires: int) {
    && challenge in w.issued && w.issued[challenge].ok
    && expires == w.issued[challenge].at + c.challengeSeconds
  }

  // A challenge that is open has its lease until a creation uses it, and its spent marker from then on.
  predicate KeysRecorded(c: Config, w: World, challenge: Id) {
    var s := w.state;
    && (challenge in s.leases ==>
          ExpiresAsIssued(c, w, challenge, s.leases[challenge].expires) && s.leases[challenge].bits == c.powBits)
    && (challenge in s.spent ==> ExpiresAsIssued(c, w, challenge, s.spent[challenge]))
    && (IsOpenFor(c, w, challenge) ==> if challenge in w.admitted then challenge in s.spent else challenge in s.leases)
    && (challenge in w.admitted ==> challenge in w.issued && w.issued[challenge].ok)
    && (challenge in w.unindexed ==> challenge in w.admitted)
  }

  // The entries that are not due are the pending challenges.
  predicate IndexRecorded(c: Config, w: World, challenge: Id) {
    var s := w.state;
    && (challenge in s.leaseIndex ==>
          && ExpiresAsIssued(c, w, challenge, s.leaseIndex[challenge])
          && (challenge in w.admitted ==> challenge in w.unindexed))
    && (IsPending(c, w, challenge) ==> challenge in s.leaseIndex)
  }

  ghost predicate Recorded(c: Config, w: World) {
    && (forall id :: EntryRecorded(w, id))
    && (forall challenge :: KeysRecorded(c, w, challenge))
    && (forall challenge :: IndexRecorded(c, w, challenge))
  }

  // ---- Every step records it ------------------------------------------------------------------------

  // An entry after a step is the created one, or was there before with the same charge and expiry.
  ghost predicate EntryStep(c: Config, s: State, a: Step, id: Id) {
    var (t, reply) := Apply(c, s, a);
    id in t.entries ==>
      if Created(a, reply) && a.r.id == id then
        t.entries[id].charge == |a.r.packet| + |a.r.header| + 1024 && t.entries[id].expires == s.now + a.r.ttl
      else
        id in s.entries && t.entries[id].charge == s.entries[id].charge && t.entries[id].expires == s.entries[id].expires
  }

  lemma EveryEntryStep(c: Config, s: State, a: Step, id: Id)
    ensures EntryStep(c, s, a, id)
  {
    match a
    case CreateStep(typed, r, reaped, failed) => CreateEntryStep(c, s, typed, r, reaped, failed, id);
    case AccessStep(typed, i, capability, op) => AccessEntryStep(c, s, typed, i, capability, op, id);
    case _ =>
      hide Unexpired;
  }

  lemma CreateEntryStep(c: Config, s: State, typed: bool, r: Request, reaped: set<Id>, failed: set<Write>, id: Id)
    ensures EntryStep(c, s, CreateStep(typed, r, reaped, failed), id)
  {
    CreateOutcome(c, s, typed, r, reaped, failed);
    hide Create, Sum, Admissible, EssentialFails;
  }

  lemma AccessEntryStep(c: Config, s: State, typed: bool, i: Id, capability: Digest, op: Operation, id: Id)
    ensures EntryStep(c, s, AccessStep(typed, i, capability, op), id)
  {
    hide Matches;
  }

  lemma EntryKept(c: Config, w: World, a: Step, id: Id)
    requires EntryRecorded(w, id)
    ensures EntryRecorded(Next(c, w, a), id)
  {
    EveryEntryStep(c, w.state, a, id);
    hide Apply, Discarded, NextForfeited;
  }

  predicate Issues(a: Step, reply: Reply, challenge: Id) {
    a.IssueStep? && a.challenge == challenge && reply.OkExpires?
  }

  predicate Uses(a: Step, reply: Reply, challenge: Id) {
    Created(a, reply) && a.r.challenge == challenge
  }

  // What one step does to the lease and the marker of one challenge.
  ghost predicate KeysStep(c: Config, s: State, a: Step, challenge: Id) {
    var (t, reply) := Apply(c, s, a);
    if Issues(a, reply, challenge) then
      && challenge in t.leases && t.leases[challenge].expires == s.now + c.challengeSeconds
      && t.leases[challenge].bits == c.powBits && t.spent == s.spent
    else if Uses(a, reply, challenge) then
      && challenge in s.leases && challenge !in t.leases
      && challenge in t.spent && t.spent[challenge] == s.leases[challenge].expires
    else
      && (challenge in t.leases ==> challenge in s.leases && t.leases[challenge] == s.leases[challenge])
      && (challenge in t.spent ==> challenge in s.spent && t.spent[challenge] == s.spent[challenge])
      && (challenge in s.leases && s.leases[challenge].expires > s.now ==> challenge in t.leases)
      && (challenge in s.spent && s.spent[challenge] > s.now ==> challenge in t.spent)
  }

  // What it does to the index entry.
  ghost predicate IndexStep(c: Config, s: State, a: Step, challenge: Id) {
    var (t, reply) := Apply(c, s, a);
    if Issues(a, reply, challenge) then
      challenge in t.leaseIndex && t.leaseIndex[challenge] == s.now + c.challengeSeconds
    else if Uses(a, reply, challenge) && LeaseIndexEntry !in a.failed then
      challenge !in t.leaseIndex
    else
      && (challenge in t.leaseIndex ==> challenge in s.leaseIndex && t.leaseIndex[challenge] == s.leaseIndex[challenge])
      && (challenge in s.leaseIndex && s.leaseIndex[challenge] > s.now ==> challenge in t.leaseIndex)
  }

  lemma EveryKeysStep(c: Config, w: World, a: Step, challenge: Id)
    requires Enabled(w, a)
    ensures KeysStep(c, w.state, a, challenge)
  {
    match a
    case CreateStep(typed, r, reaped, failed) => CreateKeysStep(c, w.state, typed, r, reaped, failed, challenge);
    case AccessStep(typed, id, capability, op) =>
      AccessKeepsLeases(w.state, typed, id, capability, op);
      hide Access;
    case _ =>
      hide Unexpired;
  }

  // What a creation leaves of the challenge keys.
  lemma CreatedKeys(c: Config, s: State, typed: bool, r: Request, reaped: set<Id>, failed: set<Write>)
    ensures var (t, reply) := Create(c, s, typed, r, reaped, failed);
            if reply.OkExpires? then
              && r.challenge in s.leases
              && t.leases == s.leases - {r.challenge} && t.spent == s.spent[r.challenge := s.leases[r.challenge].expires]
              && t.leaseIndex == if LeaseIndexEntry in failed then s.leaseIndex else s.leaseIndex - {r.challenge}
            else t.leases == s.leases && t.spent == s.spent && t.leaseIndex == s.leaseIndex
  {
    CreateOutcome(c, s, typed, r, reaped, failed);
    hide Create, Sum, EssentialFails, SizeOf, ChargeOf, NoteFor;
  }

  lemma CreateKeysStep(c: Config, s: State, typed: bool, r: Request, reaped: set<Id>, failed: set<Write>, challenge: Id)
    ensures KeysStep(c, s, CreateStep(typed, r, reaped, failed), challenge)
  {
    CreatedKeys(c, s, typed, r, reaped, failed);
    hide Create;
  }

  lemma EveryIndexStep(c: Config, w: World, a: Step, challenge: Id)
    ensures IndexStep(c, w.state, a, challenge)
  {
    match a
    case CreateStep(typed, r, reaped, failed) => CreateIndexStep(c, w.state, typed, r, reaped, failed, challenge);
    case AccessStep(typed, id, capability, op) =>
      AccessKeepsLeases(w.state, typed, id, capability, op);
      hide Access;
    case _ =>
  }

  lemma CreateIndexStep(c: Config, s: State, typed: bool, r: Request, reaped: set<Id>, failed: set<Write>, challenge: Id)
    ensures IndexStep(c, s, CreateStep(typed, r, reaped, failed), challenge)
  {
    CreatedKeys(c, s, typed, r, reaped, failed);
    hide Create;
  }

  lemma NowForward(c: Config, w: World, a: Step)
    ensures Apply(c, w.state, a).0.now >= w.state.now
    ensures !a.Tick? ==> Apply(c, w.state, a).0.now == w.state.now
  {
    hide Create, Access, Unexpired;
    match a
    case AccessStep(typed, i, capability, op) => AccessKeepsLeases(w.state, typed, i, capability, op);
    case CreateStep(typed, r, reaped, failed) => CreateOutcome(c, w.state, typed, r, reaped, failed);
    case _ =>
  }

  lemma KeysKept(c: Config, w: World, a: Step, challenge: Id)
    requires KeysRecorded(c, w, challenge) && Enabled(w, a) && (challenge in w.admitted ==> challenge !in w.state.leases)
    ensures KeysRecorded(c, Next(c, w, a), challenge)
  {
    EveryKeysStep(c, w, a, challenge);
    NowForward(c, w, a);
    hide Apply, Discarded, NextForfeited, NextLatest;
  }

  lemma IndexKept(c: Config, w: World, a: Step, challenge: Id)
    requires KeysRecorded(c, w, challenge) && IndexRecorded(c, w, challenge) && Enabled(w, a)
    requires challenge in w.admitted ==> challenge !in w.state.leases
    ensures IndexRecorded(c, Next(c, w, a), challenge)
  {
    EveryKeysStep(c, w, a, challenge);
    EveryIndexStep(c, w, a, challenge);
    NowForward(c, w, a);
    hide Apply, Discarded, NextForfeited, NextLatest;
  }

  lemma StepRecords(c: Config, w: World, a: Step)
    requires Inv(c, w) && Recorded(c, w) && Enabled(w, a)
    ensures Recorded(c, Next(c, w, a))
  {
    hide Next, Enabled, EntryRecorded, KeysRecorded, IndexRecorded;
    forall id ensures EntryRecorded(Next(c, w, a), id) {
      EntryKept(c, w, a, id);
    }
    forall challenge ensures KeysRecorded(c, Next(c, w, a), challenge) && IndexRecorded(c, Next(c, w, a), challenge) {
      KeysKept(c, w, a, challenge);
      IndexKept(c, w, a, challenge);
    }
  }

  lemma {:induction false} RunRecords(c: Config, w: World, steps: seq<Step>)
    requires Inv(c, w) && Recorded(c, w) && IsRun(c, w, steps)
    ensures Inv(c, Exec(c, w, steps)) && Recorded(c, Exec(c, w, steps))
    decreases |steps|
  {
    hide Next, Enabled, Inv, Recorded;
    if steps != [] {
      StepKeepsInv(c, w, steps[0]);
      StepRecords(c, w, steps[0]);
      RunRecords(c, Next(c, w, steps[0]), steps[1..]);
    }
  }

  /** Every reachable state records its history. */
  lemma ReachableRecords(c: Config, steps: seq<Step>)
    requires IsRun(c, START, steps)
    ensures Inv(c, Exec(c, START, steps)) && Recorded(c, Exec(c, START, steps))
  {
    ReachableStates(c, []);
    RunRecords(c, START, steps);
  }

  // ---- Bytes ------------------------------------------------------------------------------------------

  lemma {:induction false} SumMonotone(a: map<Id, Entry>, b: map<Id, Entry>)
    requires a.Keys == b.Keys && forall id :: id in a ==> a[id].charge <= b[id].charge
    ensures Sum(a) <= Sum(b)
    decreases |a|
  {
    if a != map[] {
      var id :| id in a;
      SumRemove(a, id);
      SumRemove(b, id);
      assert (a - {id}).Keys == a.Keys - {id} && (b - {id}).Keys == b.Keys - {id};
      SumMonotone(a - {id}, b - {id});
    } else {
      assert b == map[];
    }
  }

  // The packets and headers that live notes store, and 1024 bytes for each.
  ghost function Stored(entries: map<Id, Entry>): nat {
    Sum(map id | id in entries ::
          entries[id].(charge := if entries[id].note.None? then 0
                                 else |entries[id].note.value.packet| + |entries[id].note.value.header| + 1024))
  }

  // What the latest request of each identifier is accounted with.
  function Weights(latest: map<Id, Incarnation>, ids: set<Id>): map<Id, Entry>
    requires ids <= latest.Keys
  {
    map id | id in ids :: Entry(|latest[id].r.packet| + |latest[id].r.header| + 1024, 0, None)
  }

  ghost function Footprint(latest: map<Id, Incarnation>, ids: set<Id>): nat
    requires ids <= latest.Keys
  {
    Sum(Weights(latest, ids))
  }

  // These entries are accounted as their requests say.
  ghost predicate AreWeighed(latest: map<Id, Incarnation>, entries: map<Id, Entry>) {
    && entries.Keys <= latest.Keys
    && forall id :: id in entries ==> entries[id].charge == |latest[id].r.packet| + |latest[id].r.header| + 1024
  }

  lemma SumIsFootprint(latest: map<Id, Incarnation>, entries: map<Id, Entry>)
    requires AreWeighed(latest, entries)
    ensures Sum(entries) == Footprint(latest, entries.Keys)
  {
    var weights := Weights(latest, entries.Keys);
    assert weights.Keys == entries.Keys;
    SumMonotone(entries, weights);
    SumMonotone(weights, entries);
  }

  lemma AccountedAreWeighed(c: Config, w: World, reaped: set<Id>)
    requires Recorded(c, w)
    ensures AreWeighed(w.latest, Forget(w.state, reaped).entries)
  {
    var rest := Forget(w.state, reaped).entries;
    assert forall id :: id in rest ==> id in w.state.entries && rest[id] == w.state.entries[id];
    assert forall id :: id in w.state.entries ==> EntryRecorded(w, id);
  }

  lemma StoredWithinCharges(c: Config, w: World)
    requires Inv(c, w) && Recorded(c, w)
    ensures Stored(w.state.entries) <= Sum(w.state.entries)
  {
    var entries := w.state.entries;
    var stored := map id | id in entries ::
      entries[id].(charge := if entries[id].note.None? then 0
                             else |entries[id].note.value.packet| + |entries[id].note.value.header| + 1024);
    assert stored.Keys == entries.Keys;
    forall id | id in stored ensures stored[id].charge <= entries[id].charge {
      assert NoteAgrees(w, id) && EntryRecorded(w, id);
    }
    hide Inv, Recorded;
    SumMonotone(stored, entries);
  }

  /** In every reachable state the packets and headers of all live notes, with 1024 bytes for each note,
      fit the configured storage, and each live note is accounted with exactly its own stored bytes. */
  lemma LiveNotesFit(c: Config, steps: seq<Step>)
    requires IsRun(c, START, steps)
    ensures var s := Exec(c, START, steps).state;
            && Stored(s.entries) <= c.maxBytes && |s.entries| <= c.maxNotes
            && forall id :: IsLive(s, id) ==>
                 s.entries[id].charge == |s.entries[id].note.value.packet| + |s.entries[id].note.value.header| + 1024
  {
    ReachableRecords(c, steps);
    var w := Exec(c, START, steps);
    StoredWithinCharges(c, w);
    forall id | IsLive(w.state, id)
      ensures w.state.entries[id].charge
           == |w.state.entries[id].note.value.packet| + |w.state.entries[id].note.value.header| + 1024
    {
      assert NoteAgrees(w, id) && EntryRecorded(w, id);
    }
    hide Exec, IsRun, Recorded;
  }

  // ---- Answers about notes ----------------------------------------------------------------------------

  // Exactly the 64 bytes of the digest.
  predicate Proves(capability: Digest, digest: Digest) {
    |capability| == 64 && capability == digest
  }

  // Still stored, and not yet at the expiry its creating request asked for.
  predicate IsTheirs(w: World, id: Id) {
    IsLive(w.state, id) && id in w.latest && w.state.now < w.latest[id].at + w.latest[id].r.ttl
  }

  // The answer to a capability, from the creating request and the opens since.
  function Answer(w: World, typed: bool, id: Id, capability: Digest, op: Operation): Reply {
    if !typed then Capacity
    else if !IsTheirs(w, id) then Unavailable
    else
      var inc := w.latest[id];
      match op
      case Unknown => Capacity
      case Meta =>
        if Proves(capability, inc.r.peek) then OkMeta(inc.r.header, inc.at + inc.r.ttl, inc.r.views - inc.opens) else Unavailable
      case CheckOpen => if Proves(capability, inc.r.read) then Done else Unavailable
      case Open => if Proves(capability, inc.r.read) then OkPacket(inc.r.packet) else Unavailable
      case Delete => if Proves(capability, inc.r.revoke) then Done else Unavailable
  }

  /** In every reachable state an available note answers each operation to the digest that its creating
      request named for it and to no other: with that request's header, expiry and views left, or its
      packet. Metadata, checks and refusals change nothing about it. */
  lemma AccessAnswers(c: Config, w: World, typed: bool, id: Id, capability: Digest, op: Operation)
    requires Inv(c, w)
    ensures var (t, reply) := Access(w.state, typed, id, capability, op);
            && reply == Answer(w, typed, id, capability, op)
            && (IsTheirs(w, id) && (op == Meta || op == CheckOpen || reply == Unavailable || reply == Capacity) ==>
                  t == w.state)
  {
    assert NoteAgrees(w, id);
    if IsTheirs(w, id) && op != Unknown {
      AuthorisedAnswers(w, id, capability, op);
    }
    hide Inv, Forget, Perform, Proves, Matches, CapabilityFor;
  }

  // Once the note is found unexpired.
  lemma AuthorisedAnswers(w: World, id: Id, capability: Digest, op: Operation)
    requires NoteAgrees(w, id) && IsTheirs(w, id) && op != Unknown
    ensures var (t, reply) := if Matches(CapabilityFor(w.state.entries[id].note.value, op), capability) then Perform(w.state, id, op)
                              else (w.state, Unavailable);
            && reply == Answer(w, true, id, capability, op)
            && (op == Meta || op == CheckOpen || reply == Unavailable || reply == Capacity ==> t == w.state)
  {
    hide Forget;
  }

  // ---- Answers about challenges -------------------------------------------------------------------------

  // A creation or an inspection with it finds its proof in order.
  predicate IsUsable(c: Config, w: World, challenge: Id) {
    IsOpenFor(c, w, challenge) && challenge !in w.admitted
  }

  // Used challenges are known as such until their expiry; unknown ones never were issued.
  predicate RejectsProof(c: Config, w: World, challenge: Id, reply: Reply) {
    && (reply == ProofReused || reply == ProofInvalid)
    && (IsOpenFor(c, w, challenge) ==> reply == ProofReused)
    && (reply == ProofReused ==> challenge in w.admitted)
  }

  lemma UsableIsAdmissible(c: Config, w: World, challenge: Id)
    requires Inv(c, w) && Recorded(c, w)
    ensures Admissible(w.state, challenge) <==> IsUsable(c, w, challenge)
    ensures IsUsable(c, w, challenge) || RejectsProof(c, w, challenge, ProofError(w.state, challenge))
    ensures Admissible(w.state, challenge) ==> w.state.leases[challenge].bits == c.powBits
  {
    assert KeysRecorded(c, w, challenge);
    hide Recorded;
  }

  /** Inspection answers the configured work for a challenge from its issue to its expiry until a
      creation used it, and rejects every other one for its proof. */
  lemma InspectAnswers(c: Config, w: World, challenge: Id)
    requires Inv(c, w) && Recorded(c, w)
    ensures var reply := Inspect(w.state, challenge);
            if IsUsable(c, w, challenge) then reply == OkBits(c.powBits) else RejectsProof(c, w, challenge, reply)
  {
    UsableIsAdmissible(c, w, challenge);
  }

  ghost function Pending(c: Config, w: World): set<Id> {
    set challenge | challenge in w.issued && IsPending(c, w, challenge)
  }

  lemma IndexIsPending(c: Config, w: World)
    requires Recorded(c, w)
    ensures Unexpired(w.state.leaseIndex, w.state.now).Keys == Pending(c, w)
  {
    var left := Unexpired(w.state.leaseIndex, w.state.now).Keys;
    forall challenge ensures challenge in left <==> challenge in Pending(c, w) {
      assert IndexRecorded(c, w, challenge);
    }
  }

  /** A fresh challenge is refused for capacity if and only if the pending ones reach the cap or a write
      fails; otherwise it expires after the configured time. */
  lemma IssueAnswers(c: Config, w: World, typed: bool, challenge: Id, failed: set<Write>)
    requires Recorded(c, w) && challenge !in w.issued
    ensures Issue(c, w.state, typed, challenge, failed).1
         == if !typed || |Pending(c, w)| >= c.maxChallenges || LeaseKey in failed || LeaseIndexEntry in failed
            then Capacity else OkExpires(w.state.now + c.challengeSeconds)
  {
    IndexIsPending(c, w);
    assert KeysRecorded(c, w, challenge);
    var left := Unexpired(w.state.leaseIndex, w.state.now);
    assert |left| == |left.Keys|;
    hide Recorded, Unexpired, Pending;
  }

  // ---- Answers to creations -----------------------------------------------------------------------------

  /** Every creation in a reachable state: its proof is judged from the history; an identifier still
      accounted for conflicts; and capacity is refused if and only if the notes or the bytes of all
      accounted requests, with those of this one, exceed a cap, or a write before the decision fails. */
  lemma CreateAnswers(c: Config, w: World, typed: bool, r: Request, reaped: set<Id>, failed: set<Write>)
    requires Inv(c, w) && Recorded(c, w) && IsReap(w.state, reaped)
    ensures var ids := w.state.entries.Keys - reaped;
            var reply := Create(c, w.state, typed, r, reaped, failed).1;
            && ids <= w.latest.Keys
            && if !typed then reply == Capacity
               else if !IsUsable(c, w, r.challenge) then RejectsProof(c, w, r.challenge, reply)
               else if r.id in ids then reply == IdConflict
               else if |ids| >= c.maxNotes || Footprint(w.latest, ids) + |r.packet| + |r.header| + 1024 > c.maxBytes
                       || (exists x :: x in failed && x != LeaseIndexEntry)
               then reply == Capacity
               else reply == OkExpires(w.state.now + r.ttl)
  {
    hide Inv, Recorded, Sum, Footprint, EssentialFails, IsReap, Admissible, IsUsable, ProofError, RejectsProof, Admitted,
         AreWeighed;
    UsableIsAdmissible(c, w, r.challenge);
    AccountedFootprint(c, w, reaped);
    EssentialWrites(failed);
  }

  lemma AccountedFootprint(c: Config, w: World, reaped: set<Id>)
    requires Recorded(c, w)
    ensures var ids, rest := w.state.entries.Keys - reaped, Forget(w.state, reaped).entries;
            && rest.Keys == ids <= w.latest.Keys && |rest| == |ids| && Sum(rest) == Footprint(w.latest, ids)
  {
    hide Recorded, Sum;
    var rest := Forget(w.state, reaped).entries;
    assert rest.Keys == w.state.entries.Keys - reaped && |rest| == |rest.Keys|;
    AccountedAreWeighed(c, w, reaped);
    SumIsFootprint(w.latest, rest);
  }

  lemma EssentialWrites(failed: set<Write>)
    ensures EssentialFails(failed) <==> exists x :: x in failed && x != LeaseIndexEntry
  {
    if x :| x in failed && x != LeaseIndexEntry {
      assert x == Record || x == Ttl || x == Charge || x == Index || x == Total || x == Spent || x == LeaseKey;
    }
  }

  // ---- Effects ------------------------------------------------------------------------------------------

  // Nothing but the accounts changed, and of these at most this one.
  predicate OnlyEntry(s: State, t: State, id: Id) {
    t == s.(entries := t.entries) && t.entries - {id} == s.entries - {id}
  }

  // The note left for its next reader.
  function OneViewLess(e: Entry): Entry
    requires e.note.Some?
  {
    var n := e.note.value;
    Entry(e.charge, e.expires, Some(Note(n.packet, n.header, n.peek, n.read, n.revoke, n.remaining - 1)))
  }

  /** An access frees the account of the note when it finds it expired, deletes it or opens it for the last
      time; another open takes one view; everything else leaves the whole state alone. */
  lemma AccessEffects(s: State, typed: bool, id: Id, capability: Digest, op: Operation)
    ensures var (t, reply) := Access(s, typed, id, capability, op);
            && OnlyEntry(s, t, id)
            && if typed && IsLive(s, id) && s.entries[id].expires <= s.now then id !in t.entries
               else if op == Delete && reply == Done then IsAvailable(s, id) && id !in t.entries
               else if reply.OkPacket? then
                 && op == Open && IsAvailable(s, id)
                 && if s.entries[id].note.value.remaining == 1 then id !in t.entries
                    else id in t.entries && t.entries[id] == OneViewLess(s.entries[id])
               else t == s
  {
    hide Matches;
  }

  // The note, whole and for the time and views asked for, and a spent marker in place of the lease.
  predicate IsAdmission(s: State, t: State, r: Request, reaped: set<Id>, indexKept: bool, spentUntil: int) {
    && t.now == s.now
    && t.entries == (s.entries - reaped)[r.id := Entry(|r.packet| + |r.header| + 1024, s.now + r.ttl,
                                                       Some(Note(r.packet, r.header, r.peek, r.read, r.revoke, r.views)))]
    && t.leases == s.leases - {r.challenge}
    && t.spent == s.spent[r.challenge := spentUntil]
    && t.leaseIndex == if indexKept then s.leaseIndex else s.leaseIndex - {r.challenge}
  }

  /** A creation that is answered adds its note and turns the lease into a spent marker with the same expiry;
      a refused one leaves everything but what it reaped. */
  lemma CreateEffects(c: Config, w: World, typed: bool, r: Request, reaped: set<Id>, failed: set<Write>)
    requires Inv(c, w) && Recorded(c, w)
    ensures var (t, reply) := Create(c, w.state, typed, r, reaped, failed);
            if reply.OkExpires? then
              && r.challenge in w.issued
              && IsAdmission(w.state, t, r, reaped, LeaseIndexEntry in failed, w.issued[r.challenge].at + c.challengeSeconds)
            else t == w.state.(entries := w.state.entries - if typed && IsUsable(c, w, r.challenge) then reaped else {})
  {
    hide Inv, Recorded, Admissible, IsUsable, Create, IsAdmission;
    UsableIsAdmissible(c, w, r.challenge);
    LeaseIsRecorded(c, w, r.challenge);
    CreateChange(c, w.state, typed, r, reaped, failed);
  }

  lemma CreateChange(c: Config, s: State, typed: bool, r: Request, reaped: set<Id>, failed: set<Write>)
    ensures var (t, reply) := Create(c, s, typed, r, reaped, failed);
            if reply.OkExpires? then
              r.challenge in s.leases && IsAdmission(s, t, r, reaped, LeaseIndexEntry in failed, s.leases[r.challenge].expires)
            else t == s.(entries := s.entries - if typed && Admissible(s, r.challenge) then reaped else {})
  {
    hide Sum, EssentialFails, Admissible, Create, Admitted, Forget, IsAdmission, SizeOf;
    CreateOutcome(c, s, typed, r, reaped, failed);
    AdmissibleHasLease(s, r.challenge);
    AdmittedIs(s, r, reaped, LeaseIndexEntry in failed);
    ForgetIs(s, reaped);
  }

  lemma AdmittedIs(s: State, r: Request, reaped: set<Id>, keepIndex: bool)
    ensures r.challenge in s.leases ==>
              IsAdmission(s, Admitted(Forget(s, reaped), r, keepIndex), r, reaped, keepIndex, s.leases[r.challenge].expires)
  {
  }

  lemma ForgetIs(s: State, reaped: set<Id>)
    ensures Forget(s, reaped) == s.(entries := s.entries - reaped) && s == s.(entries := s.entries - {})
  {
    assert s.entries - {} == s.entries;
  }

  lemma AdmissibleHasLease(s: State, challenge: Id)
    ensures Admissible(s, challenge) ==> challenge in s.leases
  {
  }

  lemma LeaseIsRecorded(c: Config, w: World, challenge: Id)
    requires Recorded(c, w)
    ensures challenge in w.state.leases ==> ExpiresAsIssued(c, w, challenge, w.state.leases[challenge].expires)
  {
    assert KeysRecorded(c, w, challenge);
    hide Recorded;
  }

  /** Issuing removes the due index entries; a challenge that is answered has a lease and an index entry with
      the same expiry, and a refused one leaves neither. */
  lemma IssueEffects(c: Config, s: State, typed: bool, challenge: Id, failed: set<Write>)
    ensures var (t, reply) := Issue(c, s, typed, challenge, failed);
            if reply.OkExpires? then
              && t.now == s.now && t.entries == s.entries && t.spent == s.spent
              && t.leases == s.leases[challenge := Lease(s.now + c.challengeSeconds, c.powBits)]
              && challenge in t.leaseIndex && t.leaseIndex[challenge] == s.now + c.challengeSeconds
              && (forall x :: x != challenge ==> (x in t.leaseIndex <==> x in s.leaseIndex && s.leaseIndex[x] > s.now))
              && (forall x :: x != challenge && x in t.leaseIndex ==> t.leaseIndex[x] == s.leaseIndex[x])
            else
              && t == s.(leaseIndex := t.leaseIndex)
              && (if typed then (forall x :: x in t.leaseIndex <==> x in s.leaseIndex && s.leaseIndex[x] > s.now)
                  else t.leaseIndex == s.leaseIndex)
              && (forall x :: x in t.leaseIndex ==> t.leaseIndex[x] == s.leaseIndex[x])
  {
  }

  /** A reaping frees the accounts it reaped and the due index entries, and nothing else. */
  lemma ReapEffects(s: State, typed: bool, reaped: set<Id>)
    ensures var (t, reply) := Reap(s, typed, reaped);
            if !typed then t == s && reply == Capacity
            else
              && reply == Done && t == s.(entries := s.entries - reaped, leaseIndex := t.leaseIndex)
              && (forall x :: x in t.leaseIndex <==> x in s.leaseIndex && s.leaseIndex[x] > s.now)
              && (forall x :: x in t.leaseIndex ==> t.leaseIndex[x] == s.leaseIndex[x])
  {
  }
}
