/** The cache as the scripts keep it: note hashes with native deadlines, the expiry index, the charge
    table and the byte total, and the challenge keys. Each script is a method that performs its
    commands one by one, and is proved to be one transition of the ledger. */
module Valkey {
  import opened Wrappers
  import opened Bytes
  import opened Ledger
  import LedgerRuns

  datatype NoteHash = NoteHash(packet: seq<byte>, header: seq<byte>, peek: Digest, read: Digest, revoke: Digest,
                               expires: int, remaining: int)

  // tonumber(redis.call('GET', total) or '0')
  function Number(total: Option<int>): int {
    if total.Some? then total.value else 0
  }

  function HashFor(r: Request, expires: int): NoteHash {
    NoteHash(r.packet, r.header, r.peek, r.read, r.revoke, expires, r.views)
  }

  function NoteOf(h: NoteHash): Note {
    Note(h.packet, h.header, h.peek, h.read, h.revoke, h.remaining)
  }

  function EntryOf(notes: map<Id, NoteHash>, index: map<Id, int>, charges: map<Id, nat>, id: Id): Entry
    requires id in index && id in charges
  {
    Entry(charges[id], index[id], if id in notes then Some(NoteOf(notes[id])) else None)
  }

  function Entries(notes: map<Id, NoteHash>, index: map<Id, int>, charges: map<Id, nat>): map<Id, Entry> {
    map id | id in charges && id in index :: EntryOf(notes, index, charges, id)
  }

  // The redundant structures agree.
  ghost predicate Agree(notes: map<Id, NoteHash>, deadlines: map<Id, int>, index: map<Id, int>, charges: map<Id, nat>,
                        total: Option<int>) {
    && index.Keys == charges.Keys
    && notes.Keys == deadlines.Keys <= charges.Keys
    && (forall id :: id in notes ==> notes[id].expires == deadlines[id] == index[id] && notes[id].remaining >= 1)
    && (forall id :: id in charges ==> charges[id] > 0)
    && Number(total) == Sum(Entries(notes, index, charges))
  }

  // The tables a creation writes.
  datatype Tables = Tables(notes: map<Id, NoteHash>, deadlines: map<Id, int>, index: map<Id, int>, charges: map<Id, nat>,
                           total: Option<int>, spent: map<Id, int>)

  ghost predicate TablesAgree(t: Tables) {
    Agree(t.notes, t.deadlines, t.index, t.charges, t.total)
  }

  ghost function StateOf(t: Tables, now: int, leases: map<Id, Lease>, leaseIndex: map<Id, int>): State {
    State(now, Entries(t.notes, t.index, t.charges), leases, t.spent, leaseIndex)
  }

  // The first k writes of a creation, on any tables.
  function Written(t: Tables, r: Request, hash: NoteHash, charge: nat, proofExpires: int, k: nat): Tables {
    Tables(
      if k >= 1 then t.notes[r.id := hash] else t.notes,
      if k >= 2 then t.deadlines[r.id := hash.expires] else t.deadlines,
      if k >= 4 then t.index[r.id := hash.expires] else t.index,
      if k >= 3 then t.charges[r.id := charge] else t.charges,
      if k >= 5 then Some(Number(t.total) + charge) else t.total,
      if k >= 6 then t.spent[r.challenge := proofExpires] else t.spent)
  }

  function RolledBack(t: Tables, id: Id, challenge: Id, previous: int): Tables {
    Tables(t.notes - {id}, t.deadlines - {id}, t.index - {id}, t.charges - {id}, Some(previous), t.spent - {challenge})
  }

  class Valkey {
    var now: int
    var notes: map<Id, NoteHash>
    // The native expiry that EXPIREAT sets.
    var deadlines: map<Id, int>
    var index: map<Id, int>
    var charges: map<Id, nat>
    var total: Option<int>
    var leases: map<Id, Lease>
    var spent: map<Id, int>
    var leaseIndex: map<Id, int>

    ghost function Now(): Tables
      reads this
    {
      Tables(notes, deadlines, index, charges, total, spent)
    }

    ghost predicate Valid()
      reads this
    {
      TablesAgree(Now())
    }

    ghost function Abs(): State
      reads this
    {
      StateOf(Now(), now, leases, leaseIndex)
    }

    constructor ()
      ensures Valid() && Abs() == LedgerRuns.START.state
    {
      now, notes, deadlines, index, charges, total := 0, map[], map[], map[], map[], None;
      leases, spent, leaseIndex := map[], map[], map[];
    }

    // ---- common.lua -------------------------------------------------------------------------

    // The clamp at zero is never needed.
    method ReleaseNote(id: Id)
      requires Valid()
      modifies this
      ensures Valid() && Abs() == Forget(old(Abs()), {id})
    {
      hide Agree, Entries;
      var charge := if id in charges then charges[id] else 0;
      var previous := Number(total);
      AgreeReleased(notes, deadlines, index, charges, total, id);
      notes, deadlines := notes - {id}, deadlines - {id};
      index := index - {id};
      charges := charges - {id};
      if charge > 0 {
        total := Some(if previous - charge < 0 then 0 else previous - charge);
      }
    }

    method ReapNotes(time: int, limit: nat) returns (expired: seq<Id>)
      requires Valid() && time == now && limit == REAP_LIMIT
      modifies this
      ensures Valid() && Abs() == Forget(old(Abs()), Elements(expired))
      ensures IsReap(old(Abs()), Elements(expired))
    {
      ghost var start := Abs();
      EntriesMirror(notes, index, charges);
      expired := RangeByScore(index, time, limit);
      RangeIsReap(start, index, Elements(expired));
      hide Agree, Entries, IsReap, IsLowest, Forget;
      ForgetNone(start);
      for i := 0 to |expired|
        invariant Valid() && Abs() == Forget(start, Elements(expired[..i]))
      {
        ForgetNext(start, expired, i);
        ReleaseNote(expired[i]);
      }
      assert expired[..|expired|] == expired;
    }

    // ---- create.lua ---------------------------------------------------------------------------

    // Compensation: the partial records go, the total is restored, the spent marker goes.
    method Rollback(id: Id, previous: int, challenge: Id)
      modifies this`notes, this`deadlines, this`index, this`charges, this`total, this`spent
      ensures Now() == RolledBack(old(Now()), id, challenge, previous)
    {
      notes, deadlines := notes - {id}, deadlines - {id};
      index := index - {id};
      charges := charges - {id};
      total := Some(previous);
      spent := spent - {challenge};
    }

    /** For every choice of failing commands the script is the all-or-nothing transition. */
    method CreateNote(c: Config, typed: bool, r: Request, failed: set<Write>) returns (reply: Reply, ghost reaped: set<Id>)
      requires Valid() && r.views >= 1 && r.ttl >= 1
      modifies this
      ensures Valid() && IsReap(old(Abs()), reaped)
      ensures (Abs(), reply) == Create(c, old(Abs()), typed, r, reaped, failed)
    {
      reaped := SomeReap(Abs());
      if !typed {
        return Capacity, reaped;
      }
      if r.challenge in spent {
        return ProofReused, reaped;
      }
      if r.challenge !in leases {
        return ProofInvalid, reaped;
      }
      var proofExpires := leases[r.challenge].expires;
      var time := now;
      if proofExpires <= time {
        return ProofInvalid, reaped;
      }
      var expired := ReapNotes(time, 128);
      reaped := Elements(expired);
      reply := AdmitNote(c, r, proofExpires, failed);
    }

    // From the conflict check to the end of the script.
    method AdmitNote(c: Config, r: Request, proofExpires: int, failed: set<Write>) returns (reply: Reply)
      requires Valid() && r.views >= 1 && r.ttl >= 1
      requires r.challenge !in spent && r.challenge in leases && leases[r.challenge].expires == proofExpires
      modifies this
      ensures Valid()
      ensures (Abs(), reply) == Admit(c, old(Abs()), r, failed)
    {
      hide Agree, Entries, Sum, Admitted, EssentialFails;
      AgreeReads(notes, deadlines, index, charges, total);
      if r.id in notes || r.id in charges {
        return IdConflict;
      }
      var previous := Number(total);
      var charge := |r.packet| + |r.header| + 1024;
      if |charges| >= c.maxNotes || previous + charge > c.maxBytes {
        return Capacity;
      }
      var expires := now + r.ttl;
      var done := Account(r, expires, charge, previous, proofExpires, failed);
      reply := if done then OkExpires(expires) else Capacity;
    }

    // All or nothing, whichever command fails.
    method Account(r: Request, expires: int, charge: nat, previous: int, proofExpires: int, failed: set<Write>)
      returns (done: bool)
      requires Valid() && r.views >= 1 && expires == now + r.ttl && charge == ChargeOf(r) && previous == Number(total)
      requires r.id !in charges && r.challenge !in spent
      requires r.challenge in leases && leases[r.challenge].expires == proofExpires
      modifies this
      ensures Valid() && done == !EssentialFails(failed)
      ensures Abs() == if done then Admitted(old(Abs()), r, LeaseIndexEntry in failed) else old(Abs())
    {
      hide TablesAgree, StateOf, Admitted, EssentialFails, HashFor, ChargeOf, Written, RolledBack;
      ghost var t, u := Now(), leases;
      ghost var k;
      done, k := WriteRecords(r, expires, charge, previous, proofExpires, failed);
      if !done {
        Rollback(r.id, previous, r.challenge);
        RestoredState(t, now, leases, leaseIndex, r, HashFor(r, expires), charge, proofExpires, k);
        return;
      }
      AdmittedState(t, now, u, leaseIndex, r, expires, proofExpires, LeaseIndexEntry in failed);
      if LeaseIndexEntry !in failed {
        leaseIndex := leaseIndex - {r.challenge};
      }
    }

    // The seven writes that may fail, up to the first that does; k of the first six took place. A
    // failed command does nothing.
    method WriteRecords(r: Request, expires: int, charge: nat, previous: int, proofExpires: int, failed: set<Write>)
      returns (done: bool, ghost k: nat)
      requires previous == Number(total) && r.challenge !in spent && r.challenge in leases
      modifies this`notes, this`deadlines, this`index, this`charges, this`total, this`spent, this`leases
      ensures done == !EssentialFails(failed)
      ensures k <= 6 && (done ==> k == 6)
      ensures Now() == Written(old(Now()), r, HashFor(r, expires), charge, proofExpires, k)
      ensures leases == if done then old(leases) - {r.challenge} else old(leases)
    {
      done, k := false, 0;
      if Record in failed {
        return;
      }
      notes, k := notes[r.id := HashFor(r, expires)], 1;
      if Ttl in failed || r.id !in notes {
        return;
      }
      deadlines, k := deadlines[r.id := expires], 2;
      if Charge in failed {
        return;
      }
      charges, k := charges[r.id := charge], 3;
      if Index in failed {
        return;
      }
      index, k := index[r.id := expires], 4;
      if Total in failed {
        return;
      }
      total, k := Some(previous + charge), 5;
      if Spent in failed || r.challenge in spent {
        return;
      }
      spent, k := spent[r.challenge := proofExpires], 6;
      if LeaseKey in failed || r.challenge !in leases {
        return;
      }
      leases := leases - {r.challenge};
      done := true;
    }

    // ---- access.lua ---------------------------------------------------------------------------

    /** The branch for a note without remaining views is never needed. */
    method AccessNote(typed: bool, id: Id, capability: Digest, op: Operation) returns (reply: Reply)
      requires Valid()
      modifies this
      ensures Valid() && (Abs(), reply) == Access(old(Abs()), typed, id, capability, op)
    {
      EntriesMirror(notes, index, charges);
      hide Entries, Matches, Perform, Forget, Sum;
      if !typed {
        return Capacity;
      }
      if id !in notes {
        return Unavailable;
      }
      var note := notes[id];
      assert note.remaining >= 1 && note.expires == index[id];
      hide Agree;
      if note.expires <= now {
        ReleaseNote(id);
        return Unavailable;
      }
      if op == Unknown {
        return Capacity;
      }
      var stored := match op { case Meta => note.peek case Delete => note.revoke case _ => note.read };
      var same := ConstantEqual(Some(stored), capability);
      if !same {
        return Unavailable;
      }
      if note.remaining < 1 {
        assert false; // access.lua would release the note here
      }
      reply := PerformOn(id, note, op);
    }

    // The end of access.lua, once the capability has been compared.
    method PerformOn(id: Id, note: NoteHash, op: Operation) returns (reply: Reply)
      requires Valid() && id in notes && notes[id] == note && op != Unknown
      modifies this
      ensures Valid() && id in old(Abs()).entries && (Abs(), reply) == Perform(old(Abs()), id, op)
    {
      NoteRead(Now(), now, leases, leaseIndex, id);
      hide TablesAgree, StateOf, Forget;
      if op == CheckOpen {
        return Done;
      }
      if op == Meta {
        return OkMeta(note.header, note.expires, note.remaining);
      }
      if op == Delete {
        ReleaseNote(id);
        return Done;
      }
      SpendView(id, note);
      reply := OkPacket(note.packet);
    }

    method SpendView(id: Id, note: NoteHash)
      requires Valid() && id in notes && notes[id] == note
      modifies this
      ensures Valid() && id in old(Abs()).entries && IsLive(old(Abs()), id)
      ensures (Abs(), OkPacket(note.packet)) == Perform(old(Abs()), id, Open)
    {
      NoteRead(Now(), now, leases, leaseIndex, id);
      hide TablesAgree, StateOf, Forget;
      if note.remaining == 1 {
        ReleaseNote(id);
      } else {
        ViewSpent(Now(), now, leases, leaseIndex, id, note.(remaining := note.remaining - 1));
        notes := notes[id := note.(remaining := note.remaining - 1)];
      }
    }

    // ---- issue.lua, inspect_proof.lua, reap.lua -----------------------------------------------

    method IssueChallenge(c: Config, typed: bool, challenge: Id, failed: set<Write>) returns (reply: Reply)
      requires Valid()
      modifies this`leases, this`leaseIndex
      ensures Valid() && (Abs(), reply) == Issue(c, old(Abs()), typed, challenge, failed)
    {
      hide TablesAgree, Entries, Unexpired;
      if !typed {
        return Capacity;
      }
      var time := now;
      TrimLeaseIndex(time);
      if |leaseIndex| >= c.maxChallenges {
        return Capacity;
      }
      var expires := time + c.challengeSeconds;
      var stored := StoreLease(challenge, Lease(expires, c.powBits), failed);
      reply := if stored then OkExpires(expires) else Capacity;
    }

    // Both or neither: a lease whose index entry fails is deleted again.
    method StoreLease(challenge: Id, lease: Lease, failed: set<Write>) returns (stored: bool)
      modifies this`leases, this`leaseIndex
      ensures stored == !(LeaseKey in failed || challenge in old(leases) || LeaseIndexEntry in failed)
      ensures leases == if stored then old(leases)[challenge := lease] else old(leases)
      ensures leaseIndex == if stored then old(leaseIndex)[challenge := lease.expires] else old(leaseIndex)
    {
      if LeaseKey in failed || challenge in leases {
        return false;
      }
      RemoveAdded(leases, challenge, lease);
      leases := leases[challenge := lease];
      if LeaseIndexEntry in failed {
        leases := leases - {challenge};
        return false;
      }
      leaseIndex := leaseIndex[challenge := lease.expires];
      stored := true;
    }

    // ZREMRANGEBYSCORE challenges -inf time
    method TrimLeaseIndex(time: int)
      modifies this`leaseIndex
      ensures leaseIndex == Unexpired(old(leaseIndex), time)
    {
      leaseIndex := map c | c in leaseIndex && leaseIndex[c] > time :: leaseIndex[c];
    }

    method InspectProof(challenge: Id) returns (reply: Reply)
      ensures reply == Inspect(Abs(), challenge)
    {
      if challenge in spent {
        return ProofReused;
      }
      if challenge !in leases {
        return ProofInvalid;
      }
      var lease := leases[challenge];
      if lease.expires <= now {
        return ProofInvalid;
      }
      reply := OkBits(lease.bits);
    }

    method ReapScript(typed: bool) returns (reply: Reply, ghost reaped: set<Id>)
      requires Valid()
      modifies this
      ensures Valid() && IsReap(old(Abs()), reaped)
      ensures (Abs(), reply) == Reap(old(Abs()), typed, reaped)
    {
      hide Unexpired;
      reaped := SomeReap(Abs());
      if !typed {
        return Capacity, reaped;
      }
      var time := now;
      var expired := ReapNotes(time, 128);
      reaped := Elements(expired);
      TrimLeaseIndex(time);
      reply := Done;
    }

    // ---- The environment ------------------------------------------------------------------------

    method Advance(seconds: nat)
      requires Valid()
      modifies this`now
      ensures Valid() && Abs() == old(Abs()).(now := old(now) + seconds)
    {
      now := now + seconds;
    }

    // Native expiry deletes the note and nothing else: its charge and index entry stay.
    method ExpireNote(id: Id)
      requires Valid() && id in deadlines && deadlines[id] <= now
      modifies this`notes, this`deadlines
      ensures Valid() && id in old(Abs()).entries && old(Abs()).entries[id].expires <= now
      ensures Abs().entries == old(Abs()).entries[id := old(Abs()).entries[id].(note := None)]
      ensures Abs() == old(Abs()).(entries := Abs().entries)
    {
      ghost var before := Entries(notes, index, charges);
      notes, deadlines := notes - {id}, deadlines - {id};
      assert Entries(notes, index, charges) == before[id := before[id].(note := None)];
      SumUpdate(before, id, before[id].(note := None));
    }

    method ExpireLease(challenge: Id)
      requires Valid() && challenge in leases && leases[challenge].expires <= now
      modifies this`leases
      ensures Valid() && Abs() == old(Abs()).(leases := old(leases) - {challenge})
    {
      leases := leases - {challenge};
    }

    method ExpireSpent(challenge: Id)
      requires Valid() && challenge in spent && spent[challenge] <= now
      modifies this`spent
      ensures Valid() && Abs() == old(Abs()).(spent := old(spent) - {challenge})
    {
      spent := spent - {challenge};
    }
  }

  // Whole digests are compared, whatever the first difference.
  method ConstantEqual(a: Option<Digest>, b: Digest) returns (equal: bool)
    ensures equal <==> a.Some? && Matches(a.value, b)
  {
    if a.None? || |a.value| != 64 || |b| != 64 {
      return false;
    }
    var difference: bv8 := 0;
    for i := 0 to 64
      invariant difference == 0 <==> a.value[..i] == b[..i]
    {
      assert a.value[..i + 1] == a.value[..i] + [a.value[i]] && b[..i + 1] == b[..i] + [b[i]];
      difference := difference | (a.value[i] ^ b[i]);
    }
    equal := difference == 0;
    assert a.value[..64] == a.value && b[..64] == b;
  }

  function Elements(ids: seq<Id>): set<Id> {
    set id | id in ids
  }

  predicate NotAbove(scores: map<Id, int>, a: set<Id>, b: set<Id>)
    requires a + b <= scores.Keys
  {
    forall x, y :: x in a && y in b ==> scores[x] <= scores[y]
  }

  function Eligible(scores: map<Id, int>, max: int): set<Id> {
    set id | id in scores && scores[id] <= max
  }

  // The members with a score of at most max, lowest first, no more than limit of them.
  ghost predicate IsLowest(scores: map<Id, int>, max: int, chosen: set<Id>, limit: nat) {
    && chosen <= Eligible(scores, max)
    && |chosen| == Min(limit, |Eligible(scores, max)|)
    && NotAbove(scores, chosen, Eligible(scores, max) - chosen)
  }

  // ZRANGEBYSCORE key -inf max LIMIT 0 limit
  method RangeByScore(scores: map<Id, int>, max: int, limit: nat) returns (ids: seq<Id>)
    ensures IsLowest(scores, max, Elements(ids), limit)
  {
    var rest := Eligible(scores, max);
    ghost var eligible := rest;
    ids := [];
    hide NotAbove, Elements;
    assert Elements([]) == {} && NotAbove(scores, {}, rest) by { RangeStart(scores, rest); }
    while rest != {} && |ids| < limit
      invariant rest <= eligible && Elements(ids) == eligible - rest
      invariant |ids| + |rest| == |eligible| && |ids| <= limit
      invariant NotAbove(scores, eligible - rest, rest)
      decreases rest
    {
      LowestExists(scores, rest);
      var next :| next in rest && NotAbove(scores, {next}, rest);
      RangeStep(scores, eligible, rest, ids, next);
      ids, rest := ids + [next], rest - {next};
    }
    assert eligible - (eligible - rest) == rest;
  }

  lemma RangeStart(scores: map<Id, int>, rest: set<Id>)
    requires rest <= scores.Keys
    ensures Elements([]) == {} && rest - rest == {} && NotAbove(scores, {}, rest)
  {
  }

  lemma RangeStep(scores: map<Id, int>, eligible: set<Id>, rest: set<Id>, ids: seq<Id>, next: Id)
    requires rest <= eligible <= scores.Keys && next in rest
    requires Elements(ids) == eligible - rest
    requires NotAbove(scores, eligible - rest, rest) && NotAbove(scores, {next}, rest)
    ensures Elements(ids + [next]) == eligible - (rest - {next})
    ensures NotAbove(scores, eligible - (rest - {next}), rest - {next})
  {
    assert Elements(ids + [next]) == Elements(ids) + {next};
    assert eligible - (rest - {next}) == (eligible - rest) + {next};
  }

  lemma {:induction false} LowestExists(scores: map<Id, int>, s: set<Id>)
    requires s != {} && s <= scores.Keys
    ensures exists id :: id in s && NotAbove(scores, {id}, s)
  {
    var x :| x in s;
    if s != {x} {
      LowestExists(scores, s - {x});
      var y :| y in s - {x} && NotAbove(scores, {y}, s - {x});
      assert NotAbove(scores, {if scores[x] <= scores[y] then x else y}, s);
    } else {
      assert NotAbove(scores, {x}, s);
    }
  }

  lemma RangeIsReap(s: State, index: map<Id, int>, ids: set<Id>)
    requires index.Keys == s.entries.Keys && forall id :: id in index ==> index[id] == s.entries[id].expires
    requires IsLowest(index, s.now, ids, REAP_LIMIT)
    ensures IsReap(s, ids)
  {
    assert Expired(s) == Eligible(index, s.now);
  }

  lemma ForgetNone(s: State)
    ensures Forget(s, Elements([])) == s
  {
    assert s.entries - {} == s.entries;
  }

  lemma ForgetNext(s: State, ids: seq<Id>, i: nat)
    requires i < |ids|
    ensures Forget(Forget(s, Elements(ids[..i])), {ids[i]}) == Forget(s, Elements(ids[..i + 1]))
  {
    assert ids[..i + 1] == ids[..i] + [ids[i]];
    assert Elements(ids[..i + 1]) == Elements(ids[..i]) + {ids[i]};
    assert s.entries - Elements(ids[..i]) - {ids[i]} == s.entries - (Elements(ids[..i]) + {ids[i]});
  }

  lemma {:induction false} LowestRange(scores: map<Id, int>, eligible: set<Id>, limit: nat) returns (chosen: set<Id>)
    requires eligible <= scores.Keys
    ensures chosen <= eligible && |chosen| == Min(limit, |eligible|)
    ensures NotAbove(scores, chosen, eligible - chosen)
  {
    chosen := {};
    if limit > 0 {
      chosen := LowestRange(scores, eligible, limit - 1);
      var rest := eligible - chosen;
      assert |eligible| == |chosen| + |rest|;
      if rest != {} {
        LowestExists(scores, rest);
        var next :| next in rest && NotAbove(scores, {next}, rest);
        chosen := chosen + {next};
      }
    }
  }

  /** In every state there is a range to reap. */
  lemma ReapExists(s: State)
    ensures exists ids :: IsReap(s, ids)
  {
    var scores := map id | id in s.entries :: s.entries[id].expires;
    var ids := LowestRange(scores, Expired(s), REAP_LIMIT);
    assert Expired(s) == Eligible(scores, s.now);
    RangeIsReap(s, scores, ids);
  }

  ghost function SomeReap(s: State): (ids: set<Id>)
    ensures IsReap(s, ids)
  {
    ReapExists(s);
    var ids :| IsReap(s, ids);
    ids
  }

  // ---- The tables and the abstract ledger -------------------------------------------------------

  lemma EntriesMirror(notes: map<Id, NoteHash>, index: map<Id, int>, charges: map<Id, nat>)
    requires notes.Keys <= index.Keys == charges.Keys
    ensures var entries := Entries(notes, index, charges);
            && entries.Keys == charges.Keys
            && forall id :: id in charges ==> entries[id] == EntryOf(notes, index, charges, id)
  {
  }

  // What the scripts read off the tables is what the ledger says.
  lemma AgreeReads(notes: map<Id, NoteHash>, deadlines: map<Id, int>, index: map<Id, int>, charges: map<Id, nat>,
                   total: Option<int>)
    requires Agree(notes, deadlines, index, charges, total)
    ensures notes.Keys == deadlines.Keys <= charges.Keys == index.Keys == Entries(notes, index, charges).Keys
    ensures |Entries(notes, index, charges)| == |charges|
    ensures Number(total) == Sum(Entries(notes, index, charges))
  {
    var entries := Entries(notes, index, charges);
    assert |entries| == |entries.Keys| && |charges| == |charges.Keys|;
  }

  lemma ReleasedSum(notes: map<Id, NoteHash>, index: map<Id, int>, charges: map<Id, nat>, id: Id)
    requires index.Keys == charges.Keys
    ensures Entries(notes - {id}, index - {id}, charges - {id}) == Entries(notes, index, charges) - {id}
    ensures Sum(Entries(notes, index, charges)) == Sum(Entries(notes, index, charges) - {id}) + if id in charges then charges[id] else 0
  {
    var before := Entries(notes, index, charges);
    if id in before {
      SumRemove(before, id);
    } else {
      assert before - {id} == before;
    }
  }

  // The new total is exact: nothing is clamped.
  lemma AgreeReleased(notes: map<Id, NoteHash>, deadlines: map<Id, int>, index: map<Id, int>, charges: map<Id, nat>,
                      total: Option<int>, id: Id)
    requires Agree(notes, deadlines, index, charges, total)
    ensures var charge := if id in charges then charges[id] else 0;
            && Number(total) - charge >= 0
            && (charge > 0 ==> Agree(notes - {id}, deadlines - {id}, index - {id}, charges - {id}, Some(Number(total) - charge)))
            && (charge == 0 ==> Agree(notes - {id}, deadlines - {id}, index - {id}, charges - {id}, total))
            && Entries(notes - {id}, index - {id}, charges - {id}) == Entries(notes, index, charges) - {id}
  {
    ReleasedSum(notes, index, charges, id);
    hide Entries, Sum;
  }

  lemma AddedSum(notes: map<Id, NoteHash>, index: map<Id, int>, charges: map<Id, nat>, id: Id, hash: NoteHash, charge: nat)
    requires id !in charges && index.Keys == charges.Keys
    ensures Entries(notes[id := hash], index[id := hash.expires], charges[id := charge])
         == Entries(notes, index, charges)[id := Entry(charge, hash.expires, Some(NoteOf(hash)))]
    ensures Sum(Entries(notes[id := hash], index[id := hash.expires], charges[id := charge]))
         == Sum(Entries(notes, index, charges)) + charge
  {
    var e := Entry(charge, hash.expires, Some(NoteOf(hash)));
    assert Entries(notes[id := hash], index[id := hash.expires], charges[id := charge]) == Entries(notes, index, charges)[id := e];
    SumAdd(Entries(notes, index, charges), id, e);
  }

  lemma AgreeAdded(notes: map<Id, NoteHash>, deadlines: map<Id, int>, index: map<Id, int>, charges: map<Id, nat>,
                   total: Option<int>, id: Id, hash: NoteHash, charge: nat)
    requires Agree(notes, deadlines, index, charges, total) && id !in charges && charge > 0 && hash.remaining >= 1
    ensures Agree(notes[id := hash], deadlines[id := hash.expires], index[id := hash.expires], charges[id := charge],
                  Some(Number(total) + charge))
    ensures Entries(notes[id := hash], index[id := hash.expires], charges[id := charge])
         == Entries(notes, index, charges)[id := Entry(charge, hash.expires, Some(NoteOf(hash)))]
  {
    AddedSum(notes, index, charges, id, hash, charge);
    hide Entries, Sum;
  }

  lemma AgreeTotal(notes: map<Id, NoteHash>, deadlines: map<Id, int>, index: map<Id, int>, charges: map<Id, nat>,
                   total: Option<int>)
    requires Agree(notes, deadlines, index, charges, total)
    ensures Agree(notes, deadlines, index, charges, Some(Number(total)))
    ensures Number(total) == Sum(Entries(notes, index, charges))
  {
  }

  lemma AgreeUpdated(notes: map<Id, NoteHash>, deadlines: map<Id, int>, index: map<Id, int>, charges: map<Id, nat>,
                     total: Option<int>, id: Id, hash: NoteHash)
    requires Agree(notes, deadlines, index, charges, total) && id in notes && hash.expires == notes[id].expires
    ensures Entries(notes[id := hash], index, charges)
         == Entries(notes, index, charges)[id := Entry(charges[id], index[id], Some(NoteOf(hash)))]
    ensures hash.remaining >= 1 ==> Agree(notes[id := hash], deadlines, index, charges, total)
  {
    var e := Entry(charges[id], index[id], Some(NoteOf(hash)));
    assert Entries(notes[id := hash], index, charges) == Entries(notes, index, charges)[id := e];
    SumUpdate(Entries(notes, index, charges), id, e);
    hide Entries, Sum;
  }

  lemma AccountedTables(t: Tables, r: Request, expires: int, proofExpires: int)
    requires Agree(t.notes, t.deadlines, t.index, t.charges, t.total) && r.id !in t.charges && r.views >= 1
    ensures var u := Written(t, r, HashFor(r, expires), ChargeOf(r), proofExpires, 6);
            && Agree(u.notes, u.deadlines, u.index, u.charges, u.total)
            && u.spent == t.spent[r.challenge := proofExpires]
            && Entries(u.notes, u.index, u.charges)
            == Entries(t.notes, t.index, t.charges)[r.id := Entry(ChargeOf(r), expires, Some(NoteFor(r)))]
  {
    AgreeAdded(t.notes, t.deadlines, t.index, t.charges, t.total, r.id, HashFor(r, expires), ChargeOf(r));
    hide Agree, Entries;
  }

  // What the scripts read in a note is what the ledger says.
  lemma NoteRead(t: Tables, now: int, leases: map<Id, Lease>, leaseIndex: map<Id, int>, id: Id)
    requires TablesAgree(t) && id in t.notes
    ensures var note, s := t.notes[id], StateOf(t, now, leases, leaseIndex);
            && id in s.entries && s.entries[id].expires == note.expires && s.entries[id].note == Some(NoteOf(note))
            && note.remaining >= 1
  {
    EntriesMirror(t.notes, t.index, t.charges);
    hide Entries;
  }

  lemma ViewSpent(t: Tables, now: int, leases: map<Id, Lease>, leaseIndex: map<Id, int>, id: Id, spent: NoteHash)
    requires TablesAgree(t) && id in t.notes
    requires spent == t.notes[id].(remaining := t.notes[id].remaining - 1) && spent.remaining >= 1
    ensures var s, u := StateOf(t, now, leases, leaseIndex), t.(notes := t.notes[id := spent]);
            && TablesAgree(u) && id in s.entries
            && StateOf(u, now, leases, leaseIndex)
            == s.(entries := s.entries[id := s.entries[id].(note := Some(NoteOf(spent)))])
  {
    EntriesMirror(t.notes, t.index, t.charges);
    AgreeUpdated(t.notes, t.deadlines, t.index, t.charges, t.total, id, spent);
    hide Agree, Entries, Sum;
  }

  // The written tables are those of the ledger with the note admitted.
  lemma AdmittedState(t: Tables, now: int, leases: map<Id, Lease>, leaseIndex: map<Id, int>, r: Request, expires: int,
                      proofExpires: int, keepIndex: bool)
    requires TablesAgree(t) && r.id !in t.charges && r.views >= 1 && expires == now + r.ttl
    requires r.challenge in leases && leases[r.challenge].expires == proofExpires
    ensures var u := Written(t, r, HashFor(r, expires), ChargeOf(r), proofExpires, 6);
            && TablesAgree(u)
            && Admitted(StateOf(t, now, leases, leaseIndex), r, keepIndex)
            == StateOf(u, now, leases - {r.challenge}, if keepIndex then leaseIndex else leaseIndex - {r.challenge})
  {
    hide Agree, Entries, Written, HashFor, ChargeOf, NoteFor, Admitted;
    AccountedTables(t, r, expires, proofExpires);
    var u := Written(t, r, HashFor(r, expires), ChargeOf(r), proofExpires, 6);
    AdmittedParts(StateOf(t, now, leases, leaseIndex), r, keepIndex, Entries(u.notes, u.index, u.charges), u.spent);
  }

  lemma AdmittedParts(s: State, r: Request, keepIndex: bool, entries: map<Id, Entry>, spent: map<Id, int>)
    requires r.challenge in s.leases && spent == s.spent[r.challenge := s.leases[r.challenge].expires]
    requires entries == s.entries[r.id := Entry(ChargeOf(r), s.now + r.ttl, Some(NoteFor(r)))]
    ensures Admitted(s, r, keepIndex)
         == State(s.now, entries, s.leases - {r.challenge}, spent,
                  if keepIndex then s.leaseIndex else s.leaseIndex - {r.challenge})
  {
  }

  // After any number of writes the compensation leaves the ledger as it was.
  lemma RestoredState(t: Tables, now: int, leases: map<Id, Lease>, leaseIndex: map<Id, int>, r: Request, hash: NoteHash,
                      charge: nat, proofExpires: int, k: nat)
    requires TablesAgree(t) && r.id !in t.charges && r.challenge !in t.spent && k <= 6
    ensures var u := RolledBack(Written(t, r, hash, charge, proofExpires, k), r.id, r.challenge, Number(t.total));
            TablesAgree(u) && StateOf(u, now, leases, leaseIndex) == StateOf(t, now, leases, leaseIndex)
  {
    AgreeReads(t.notes, t.deadlines, t.index, t.charges, t.total);
    RollbackIsExact(t, r, hash, charge, proofExpires, k);
    AgreeTotal(t.notes, t.deadlines, t.index, t.charges, t.total);
    hide Agree, Entries, Written, RolledBack, Sum;
  }

  // ---- What makes the compensation exact --------------------------------------------------------

  /** Without the ledger invariant the compensation restores the tables exactly when the identifier
      was in none of them and the challenge was not spent: the existence checks of the script rule out
      two of the five, its invariant the others. The total then reads the same, as a number. */
  lemma RollbackIsExact(t: Tables, r: Request, hash: NoteHash, charge: nat, proofExpires: int, k: nat)
    requires k <= 6
    ensures RolledBack(Written(t, r, hash, charge, proofExpires, k), r.id, r.challenge, Number(t.total))
         == t.(total := Some(Number(t.total)))
       <==> r.id !in t.notes && r.id !in t.deadlines && r.id !in t.index && r.id !in t.charges && r.challenge !in t.spent
  {
    RemoveAdded(t.notes, r.id, hash);
    RemoveAdded(t.deadlines, r.id, hash.expires);
    RemoveAdded(t.index, r.id, hash.expires);
    RemoveAdded(t.charges, r.id, charge);
    RemoveAdded(t.spent, r.challenge, proofExpires);
  }

  lemma RemoveAdded<V>(m: map<Id, V>, id: Id, v: V)
    ensures m[id := v] - {id} == m - {id}
    ensures m - {id} == m <==> id !in m
  {
    if id in m {
      assert id !in m - {id};
    }
  }
}
