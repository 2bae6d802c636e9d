/** The note ledger and the challenge leases as one map each, and every script as one transition.
    The four redundant structures that the scripts really keep are in module Valkey, which is
    proved to refine this one. */
module Ledger {
  import opened Wrappers
  import opened Bytes

  type Id = string

  // Lower-case hex SHA-256, as bytes.
  type Digest = seq<bv8>

  datatype Note = Note(packet: seq<byte>, header: seq<byte>, peek: Digest, read: Digest, revoke: Digest, remaining: int)

  // An accounted note. Its record may already be gone by native expiry; the charge stays.
  datatype Entry = Entry(charge: nat, expires: int, note: Option<Note>)

  datatype Lease = Lease(expires: int, bits: nat)

  datatype State = State(now: int, entries: map<Id, Entry>, leases: map<Id, Lease>, spent: map<Id, int>,
                         leaseIndex: map<Id, int>)

  datatype Config = Config(maxNotes: nat, maxBytes: nat, maxChallenges: nat, challengeSeconds: nat, powBits: nat)

  datatype Request = Request(id: Id, packet: seq<byte>, header: seq<byte>, peek: Digest, read: Digest, revoke: Digest,
                             ttl: nat, views: nat, challenge: Id)

  datatype Operation = Meta | CheckOpen | Open | Delete | Unknown

  datatype Reply =
    | Done
    | OkExpires(expires: int)
    | OkBits(bits: nat)
    | OkMeta(header: seq<byte>, noteExpires: int, remaining: int)
    | OkPacket(packet: seq<byte>)
    | Unavailable
    | Capacity
    | ProofReused
    | ProofInvalid
    | IdConflict

  // The commands whose errors the scripts catch.
  datatype Write = Record | Ttl | Charge | Index | Total | Spent | LeaseKey | LeaseIndexEntry

  const REAP_LIMIT: nat := 128

  // ---- Accounting ---------------------------------------------------------------------------

  // The sum of all charges.
  ghost function Sum(entries: map<Id, Entry>): nat {
    if entries == map[] then 0
    else
      var id :| id in entries;
      entries[id].charge + Sum(entries - {id})
  }

  lemma {:induction false} SumRemove(entries: map<Id, Entry>, id: Id)
    requires id in entries
    ensures Sum(entries) == entries[id].charge + Sum(entries - {id})
    decreases |entries|
  {
    var first :| first in entries && Sum(entries) == entries[first].charge + Sum(entries - {first});
    if first != id {
      var rest := entries - {first};
      SumRemove(rest, id);
      assert rest - {id} == entries - {id} - {first};
      SumRemove(entries - {id}, first);
    }
  }

  lemma SumAdd(entries: map<Id, Entry>, id: Id, e: Entry)
    requires id !in entries
    ensures Sum(entries[id := e]) == Sum(entries) + e.charge
  {
    SumRemove(entries[id := e], id);
    assert entries[id := e] - {id} == entries;
  }

  lemma SumUpdate(entries: map<Id, Entry>, id: Id, e: Entry)
    requires id in entries && entries[id].charge == e.charge
    ensures Sum(entries[id := e]) == Sum(entries)
  {
    SumRemove(entries, id);
    SumRemove(entries[id := e], id);
    assert entries[id := e] - {id} == entries - {id};
  }

  lemma {:induction false} SumForget(entries: map<Id, Entry>, ids: set<Id>)
    ensures Sum(entries - ids) <= Sum(entries)
    decreases |ids|
  {
    if ids != {} {
      var id :| id in ids;
      SumForget(entries, ids - {id});
      assert entries - ids == (entries - (ids - {id})) - {id};
      if id in entries {
        SumRemove(entries - (ids - {id}), id);
      } else {
        assert entries - ids == entries - (ids - {id});
      }
    } else {
      assert entries - ids == entries;
    }
  }

  // ---- Reaping ------------------------------------------------------------------------------

  function Expired(s: State): set<Id> {
    set id | id in s.entries && s.entries[id].expires <= s.now
  }

  function Min(a: nat, b: nat): nat {
    if a <= b then a else b
  }

  // A reply of ZRANGEBYSCORE -inf now LIMIT 0 128: lowest expiry first, ties in any order.
  predicate IsReap(s: State, ids: set<Id>) {
    && ids <= Expired(s)
    && |ids| == Min(REAP_LIMIT, |Expired(s)|)
    && forall a, b :: a in ids && b in Expired(s) - ids ==> s.entries[a].expires <= s.entries[b].expires
  }

  function Forget(s: State, ids: set<Id>): State {
    s.(entries := s.entries - ids)
  }

  // What ZREMRANGEBYSCORE -inf now leaves.
  function Unexpired(scores: map<Id, int>, now: int): map<Id, int> {
    map c | c in scores && scores[c] > now :: scores[c]
  }

  function TrimLeases(s: State): State {
    s.(leaseIndex := Unexpired(s.leaseIndex, s.now))
  }

  function Reap(s: State, typed: bool, reaped: set<Id>): (State, Reply) {
    if !typed then (s, Capacity) else (TrimLeases(Forget(s, reaped)), Done)
  }

  // ---- Challenges -----------------------------------------------------------------------------

  // The challenge would pass the proof checks now.
  predicate Admissible(s: State, challenge: Id) {
    challenge !in s.spent && challenge in s.leases && s.leases[challenge].expires > s.now
  }

  function ProofError(s: State, challenge: Id): Reply {
    if challenge in s.spent then ProofReused else ProofInvalid
  }

  function Inspect(s: State, challenge: Id): Reply {
    if Admissible(s, challenge) then OkBits(s.leases[challenge].bits) else ProofError(s, challenge)
  }

  function Issue(c: Config, s: State, typed: bool, challenge: Id, failed: set<Write>): (State, Reply) {
    if !typed then (s, Capacity)
    else
      var t := TrimLeases(s);
      if |t.leaseIndex| >= c.maxChallenges || challenge in t.leases || LeaseKey in failed || LeaseIndexEntry in failed
      then (t, Capacity)
      else
        var expires := s.now + c.challengeSeconds;
        (t.(leases := t.leases[challenge := Lease(expires, c.powBits)], leaseIndex := t.leaseIndex[challenge := expires]),
         OkExpires(expires))
  }

  // ---- Creation -------------------------------------------------------------------------------

  function ChargeOf(r: Request): nat {
    |r.packet| + |r.header| + 1024
  }

  // A write before which the creation has not been decided.
  predicate EssentialFails(failed: set<Write>) {
    || Record in failed || Ttl in failed || Charge in failed || Index in failed || Total in failed
    || Spent in failed || LeaseKey in failed
  }

  // All or nothing: with a conflict, without capacity or after one failed essential write, nothing.
  ghost function Admit(c: Config, t: State, r: Request, failed: set<Write>): (State, Reply) {
    if r.id in t.entries then (t, IdConflict)
    else if |t.entries| >= c.maxNotes || Sum(t.entries) + ChargeOf(r) > c.maxBytes || EssentialFails(failed) then (t, Capacity)
    else (Admitted(t, r, LeaseIndexEntry in failed), OkExpires(t.now + r.ttl))
  }

  ghost function Create(c: Config, s: State, typed: bool, r: Request, reaped: set<Id>, failed: set<Write>): (State, Reply) {
    if !typed then (s, Capacity)
    else if !Admissible(s, r.challenge) then (s, ProofError(s, r.challenge))
    else Admit(c, Forget(s, reaped), r, failed)
  }

  function NoteFor(r: Request): Note {
    Note(r.packet, r.header, r.peek, r.read, r.revoke, r.views)
  }

  // One note and one charge more; the lease became a spent marker.
  function Admitted(t: State, r: Request, keepIndex: bool): State {
    t.(entries := t.entries[r.id := Entry(ChargeOf(r), t.now + r.ttl, Some(NoteFor(r)))],
       leases := t.leases - {r.challenge},
       spent := t.spent[r.challenge := if r.challenge in t.leases then t.leases[r.challenge].expires else t.now],
       leaseIndex := if keepIndex then t.leaseIndex else t.leaseIndex - {r.challenge})
  }

  // ---- Access -----------------------------------------------------------------------------------

  predicate IsLive(s: State, id: Id) {
    id in s.entries && s.entries[id].note.Some?
  }

  // Present and not at its expiry.
  predicate IsAvailable(s: State, id: Id) {
    IsLive(s, id) && s.entries[id].expires > s.now
  }

  // Exactly 64 bytes, and equal.
  predicate Matches(stored: Digest, given: Digest) {
    |given| == 64 && stored == given
  }

  function CapabilityFor(n: Note, op: Operation): Digest {
    match op
    case Meta => n.peek
    case Delete => n.revoke
    case _ => n.read
  }

  function Access(s: State, typed: bool, id: Id, capability: Digest, op: Operation): (State, Reply) {
    if !typed then (s, Capacity)
    else if !IsLive(s, id) then (s, Unavailable)
    else if s.entries[id].expires <= s.now then (Forget(s, {id}), Unavailable)
    else if op == Unknown then (s, Capacity)
    else
      if !Matches(CapabilityFor(s.entries[id].note.value, op), capability) then (s, Unavailable) else Perform(s, id, op)
  }

  // The operation, once authorised.
  function Perform(s: State, id: Id, op: Operation): (State, Reply)
    requires IsLive(s, id)
  {
    var note := s.entries[id].note.value;
    match op
    case CheckOpen => (s, Done)
    case Meta => (s, OkMeta(note.header, s.entries[id].expires, note.remaining))
    case Delete => (Forget(s, {id}), Done)
    case _ =>
      (if note.remaining == 1 then Forget(s, {id})
       else s.(entries := s.entries[id := s.entries[id].(note := Some(note.(remaining := note.remaining - 1)))]),
       OkPacket(note.packet))
  }
}
