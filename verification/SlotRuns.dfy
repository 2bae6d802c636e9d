/** What becomes of the requests of one process: who may open a note, what an open spends, and when a
    request is over. */
module SlotRuns {
  import opened Wrappers
  import opened Ledger
  import opened Slots
  import LedgerAnswers
  import LedgerRuns

  // ---- One step of one request ------------------------------------------------------------------

  function Next1(s: Slots, a: Step, reply: Reply): Option<Holder>
    requires Enabled(s, a) && forall r :: r in s.holders ==> Owned(s.holders[r])
  {
    OwnersKept(s, a, reply);
    Held(Apply(s, a, reply), a.r)
  }

  // The response after one of its owners is gone: over, or with these owners left.
  predicate IsLeft(h: Option<Holder>, body: bool, chunks: map<nat, nat>) {
    if !body && chunks == map[] then h == None
    else h.Some? && h.value.Responding? && h.value.body == body && h.value.chunks == chunks
  }

  /** How each step moves its request on. The permits follow from it, as they add up. */
  lemma Transition(max: nat, s: Slots, a: Step, reply: Reply)
    requires Inv(max, s) && Enabled(s, a)
    ensures var h := Next1(s, a, reply);
            match a
            case TakeUpload(r) => h == if s.uploads > 0 then Some(Entering) else None
            case TakePacket(r) => h == Some(if s.packets > 0 then Uploading else Leaving)
            case EndUpload(r) => h == Some(Leaving)
            case LeaveUpload(r) => h == None
            case CheckOpen(r, id, hash) => h == if reply == Done then Some(Authorised(id, hash)) else None
            case TakeOpen(r) => h == if s.packets > 0 then Some(Opening(s.holders[r].id, s.holders[r].hash)) else None
            case Consume(r) => h == if reply.OkPacket? then Some(Responding(1, true, map[])) else None
            case CancelOpen(r) => h == None
            case Poll(r, k) => IsLeft(h, true, s.holders[r].chunks[k := 1])
            case CloneHandle(r, k) => IsLeft(h, s.holders[r].body, s.holders[r].chunks[k := s.holders[r].chunks[k] + 1])
            case DropHandle(r, k) =>
              var n := s.holders[r].chunks[k];
              IsLeft(h, s.holders[r].body, if n > 1 then s.holders[r].chunks[k := n - 1] else s.holders[r].chunks - {k})
            case DropBody(r) => IsLeft(h, false, s.holders[r].chunks)
  {
    match a
    case DropHandle(r, k) =>
      ChunkGoneOwned(s.holders[r], k);
      assert k in s.holders[r].chunks[k := s.holders[r].chunks[k] - 1];
    case DropBody(r) => BodyGoneOwned(s.holders[r]);
    case CloneHandle(r, k) => assert k in s.holders[r].chunks[k := s.holders[r].chunks[k] + 1];
    case _ =>
  }

  // ---- The two commands of an open ----------------------------------------------------------------

  // The ledger holds this note, unexpired, and the capability is its read digest of 64 bytes.
  predicate IsReadable(s: State, id: Id, hash: Digest) {
    IsLive(s, id) && s.now < s.entries[id].expires && |hash| == 64 && hash == s.entries[id].note.value.read
  }

  lemma ReadAnswers(s: State, id: Id, hash: Digest)
    ensures Access(s, true, id, hash, Operation.CheckOpen).1 == Done <==> IsReadable(s, id, hash)
    ensures Access(s, true, id, hash, Operation.Open).1.OkPacket? <==> IsReadable(s, id, hash)
    ensures IsReadable(s, id, hash) ==> Access(s, true, id, hash, Operation.Open).1 == OkPacket(s.entries[id].note.value.packet)
  {
  }

  /** A request is authorised exactly when the check ran, its answer arrived, and the note was readable with
      that capability; a check spends nothing. */
  lemma CheckAuthorises(c: Config, max: nat, w: World, r: RequestId, id: Id, hash: Digest, runs: bool, lost: bool)
    requires Inv(max, w.slots) && Possible(w, Local(Step.CheckOpen(r, id, hash), runs, lost))
    ensures var v := Next(c, w, Local(Step.CheckOpen(r, id, hash), runs, lost));
            && v.slots.holders == (if runs && !lost && IsReadable(w.ledger, id, hash)
                                   then w.slots.holders[r := Authorised(id, hash)] else w.slots.holders)
            && (IsAvailable(w.ledger, id) ==> v.ledger == w.ledger)
  {
    ReadAnswers(w.ledger, id, hash);
    LedgerAnswers.AccessEffects(w.ledger, true, id, hash, Operation.CheckOpen);
    hide Access, Inv, Owned;
  }

  /** The consuming command of a request takes exactly one view, if it runs and the note is still readable
      with the capability that was checked; the request goes on to respond exactly if the answer arrives too. */
  lemma ConsumeSpends(c: Config, max: nat, w: World, r: RequestId, runs: bool, lost: bool)
    requires Inv(max, w.slots) && Possible(w, Local(Consume(r), runs, lost))
    ensures var h, s := w.slots.holders[r], w.ledger;
            var v := Next(c, w, Local(Consume(r), runs, lost));
            && (r in v.slots.holders <==> runs && !lost && IsReadable(s, h.id, h.hash))
            && (if runs && IsReadable(s, h.id, h.hash) then
                  && LedgerAnswers.OnlyEntry(s, v.ledger, h.id)
                  && if s.entries[h.id].note.value.remaining == 1 then h.id !in v.ledger.entries
                     else h.id in v.ledger.entries && v.ledger.entries[h.id] == LedgerAnswers.OneViewLess(s.entries[h.id])
                else runs || v.ledger == s)
  {
    var h := w.slots.holders[r];
    ReadAnswers(w.ledger, h.id, h.hash);
    LedgerAnswers.AccessEffects(w.ledger, true, h.id, h.hash, Operation.Open);
    hide Access, Inv, Owned, IsReadable;
  }

  // ---- Runs ---------------------------------------------------------------------------------------

  // The request may open this note with this capability.
  predicate MayOpen(s: Slots, r: RequestId, id: Id, hash: Digest) {
    r in s.holders && (s.holders[r] == Authorised(id, hash) || s.holders[r] == Opening(id, hash))
  }

  // Move k is an answered check of it, of a note that was readable with this capability.
  ghost predicate WasChecked(c: Config, max: nat, w: World, moves: seq<Move>, k: nat, r: RequestId, id: Id, hash: Digest)
    requires Inv(max, w.slots) && IsRun(c, max, w, moves)
  {
    && k < |moves| && moves[k] == Local(Step.CheckOpen(r, id, hash), true, false)
    && IsRun(c, max, w, moves[..k])
    && IsReadable(Exec(c, max, w, moves[..k]).ledger, id, hash)
  }

  lemma MayOpenBefore(c: Config, max: nat, w: World, m: Move, r: RequestId, id: Id, hash: Digest)
    requires Inv(max, w.slots) && Possible(w, m)
    requires MayOpen(Next(c, w, m).slots, r, id, hash) && !MayOpen(w.slots, r, id, hash)
    ensures m == Local(Step.CheckOpen(r, id, hash), true, false) && IsReadable(w.ledger, id, hash)
  {
    if m.Local? {
      var reply := Call(w.ledger, w.slots, m.a, m.runs, m.lost).1;
      Transition(max, w.slots, m.a, reply);
      Balanced(w.slots, m.a, reply);
      if m.a.CheckOpen? {
        ReadAnswers(w.ledger, m.a.id, m.a.hash);
      }
      hide Access, IsReadable, Owned, Apply;
    }
  }

  /** Over every run: a request that may open a note has had exactly that note checked, at a moment when it
      was readable with exactly that capability. */
  lemma {:induction false} OpensWereChecked(c: Config, max: nat, w: World, moves: seq<Move>, r: RequestId, id: Id, hash: Digest)
    requires Inv(max, w.slots) && IsRun(c, max, w, moves)
    requires MayOpen(Exec(c, max, w, moves).slots, r, id, hash) && !MayOpen(w.slots, r, id, hash)
    ensures exists k :: WasChecked(c, max, w, moves, k, r, id, hash)
    decreases |moves|
  {
    hide Next, MayOpen, IsReadable;
    NextKeepsInv(c, max, w, moves[0]);
    var v := Next(c, w, moves[0]);
    if MayOpen(v.slots, r, id, hash) {
      MayOpenBefore(c, max, w, moves[0], r, id, hash);
      assert moves[..0] == [];
      assert WasChecked(c, max, w, moves, 0, r, id, hash);
    } else {
      OpensWereChecked(c, max, v, moves[1..], r, id, hash);
      var k: nat :| WasChecked(c, max, v, moves[1..], k, r, id, hash);
      assert moves[..k + 1][1..] == moves[1..][..k] && moves[..k + 1][0] == moves[0];
      assert WasChecked(c, max, w, moves, k + 1, r, id, hash);
    }
  }
}
