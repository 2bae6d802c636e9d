/** The slots of one API process: uploads and downloads share the packet slots, and a response keeps
    its slot while its body or any transported chunk is alive. Requests interleave at every await,
    on any number of threads, and may be cancelled at any of them. */
module Slots {
  import opened Wrappers
  import opened Ledger
  import LedgerRuns

  type RequestId = nat

  // What one request in flight holds.
  datatype Holder =
    | Entering                         // create_note between its two acquisitions
    | Uploading                        // both slots
    | Leaving                          // the packet slot is returned or was refused
    | Authorised(id: Id, hash: Digest) // open_note after check_open: no slot yet
    | Opening(id: Id, hash: Digest)
    // The reference count of the permit, its owners, and the handles on each chunk.
    | Responding(refs: nat, body: bool, chunks: map<nat, nat>)

  datatype Slots = Slots(uploads: nat, packets: nat, holders: map<RequestId, Holder>)

  datatype Step =
    | TakeUpload(r: RequestId)
    | TakePacket(r: RequestId)
    | EndUpload(r: RequestId)          // completion, error or cancellation
    | LeaveUpload(r: RequestId)
    | CheckOpen(r: RequestId, id: Id, hash: Digest)
    | TakeOpen(r: RequestId)
    | Consume(r: RequestId)            // the consuming command and its response
    | CancelOpen(r: RequestId)
    | Poll(r: RequestId, chunk: nat)   // the body yields a frame
    | CloneHandle(r: RequestId, chunk: nat)
    | DropHandle(r: RequestId, chunk: nat)
    | DropBody(r: RequestId)

  function Held(s: Slots, r: RequestId): Option<Holder> {
    if r in s.holders then Some(s.holders[r]) else None
  }

  function Put(s: Slots, r: RequestId, h: Holder): (t: Slots)
    ensures t == s.(holders := t.holders) && Held(t, r) == Some(h) && t.holders - {r} == s.holders - {r}
  {
    s.(holders := s.holders[r := h])
  }

  function Gone(s: Slots, r: RequestId): (t: Slots)
    ensures t == s.(holders := t.holders) && r !in t.holders && t.holders - {r} == s.holders - {r}
  {
    s.(holders := s.holders - {r})
  }

  predicate HasChunk(s: Slots, r: RequestId, chunk: nat) {
    r in s.holders && s.holders[r].Responding? && chunk in s.holders[r].chunks
  }

  // Each step belongs to a point of the handlers or of the response.
  predicate Enabled(s: Slots, a: Step) {
    match a
    case TakeUpload(r) => r !in s.holders
    case TakePacket(r) => Held(s, r) == Some(Entering)
    case EndUpload(r) => Held(s, r) == Some(Uploading)
    case LeaveUpload(r) => Held(s, r) == Some(Leaving)
    case CheckOpen(r, _, _) => r !in s.holders
    case TakeOpen(r) => r in s.holders && s.holders[r].Authorised?
    case Consume(r) => r in s.holders && s.holders[r].Opening?
    case CancelOpen(r) => r in s.holders && (s.holders[r].Authorised? || s.holders[r].Opening?)
    case Poll(r, chunk) => r in s.holders && s.holders[r].Responding? && s.holders[r].body && chunk !in s.holders[r].chunks
    case CloneHandle(r, chunk) => HasChunk(s, r, chunk)
    case DropHandle(r, chunk) => HasChunk(s, r, chunk)
    case DropBody(r) => r in s.holders && s.holders[r].Responding? && s.holders[r].body
  }

  // One owner of the permit less; the last one returns the slot.
  function Dropped(s: Slots, r: RequestId, h: Holder): Slots
    requires h.Responding? && h.refs > 0
  {
    if h.refs == 1 then Gone(s, r).(packets := s.packets + 1) else Put(s, r, h.(refs := h.refs - 1))
  }

  // An open or a check that the ledger answered.
  function Apply(s: Slots, a: Step, reply: Reply): Slots
    requires Enabled(s, a)
    requires (a.DropBody? || a.DropHandle?) ==> s.holders[a.r].refs > 0
  {
    match a
    case TakeUpload(r) => if s.uploads == 0 then s else Put(s, r, Entering).(uploads := s.uploads - 1)
    case TakePacket(r) => if s.packets == 0 then Put(s, r, Leaving) else Put(s, r, Uploading).(packets := s.packets - 1)
    case EndUpload(r) => Put(s, r, Leaving).(packets := s.packets + 1)
    case LeaveUpload(r) => Gone(s, r).(uploads := s.uploads + 1)
    case CheckOpen(r, id, hash) => if reply == Done then Put(s, r, Authorised(id, hash)) else s
    case TakeOpen(r) =>
      if s.packets == 0 then Gone(s, r)
      else Put(s, r, Opening(s.holders[r].id, s.holders[r].hash)).(packets := s.packets - 1)
    case Consume(r) => if reply.OkPacket? then Put(s, r, Responding(1, true, map[])) else Gone(s, r).(packets := s.packets + 1)
    case CancelOpen(r) => if s.holders[r].Opening? then Gone(s, r).(packets := s.packets + 1) else Gone(s, r)
    case Poll(r, chunk) =>
      var h := s.holders[r];
      Put(s, r, h.(refs := h.refs + 1, chunks := h.chunks[chunk := 1]))
    case CloneHandle(r, chunk) =>
      var h := s.holders[r];
      Put(s, r, h.(chunks := h.chunks[chunk := h.chunks[chunk] + 1]))
    case DropHandle(r, chunk) =>
      var h := s.holders[r];
      if h.chunks[chunk] > 1 then Put(s, r, h.(chunks := h.chunks[chunk := h.chunks[chunk] - 1]))
      else Dropped(s, r, h.(chunks := h.chunks - {chunk}))
    case DropBody(r) => Dropped(s, r, s.holders[r].(body := false))
  }

  class AppState {
    const max: nat
    var uploads: nat
    var packets: nat
    var holders: map<RequestId, Holder>

    ghost function View(): Slots
      reads this
    {
      Slots(uploads, packets, holders)
    }

    // Permits and holders add up, and every response owns its permit.
    ghost predicate Valid()
      reads this
    {
      Inv(max, View())
    }

    constructor (max: nat)
      requires max >= 2
      ensures this.max == max && Valid() && View() == Started(max)
    {
      this.max, uploads, packets, holders := max, max - 1, max, map[];
      new;
      StartedIsInv(max);
    }

    // None for fewer than two slots: the router is not built.
    static method Build(max: nat) returns (state: Option<AppState>)
      ensures state.Some? <==> max >= 2
      ensures state.Some? ==> fresh(state.value) && state.value.Valid() && state.value.View() == Started(max)
    {
      if max < 2 {
        return None;
      }
      var app := new AppState(max);
      state := Some(app);
    }

    // ---- create_note

    method TakeUploadSlot(r: RequestId) returns (ok: bool)
      requires Valid() && Enabled(View(), TakeUpload(r))
      modifies this
      ensures Valid()
      ensures View() == Apply(old(View()), TakeUpload(r), Done) && (ok <==> r in holders)
    {
      StepKeepsInv(max, View(), TakeUpload(r), Done);
      hide Inv;
      if uploads == 0 {
        return false;
      }
      uploads, holders := uploads - 1, holders[r := Entering];
      ok := true;
    }

    // A refused upload still has its first permit to drop.
    method TakePacketSlot(r: RequestId) returns (ok: bool)
      requires Valid() && Enabled(View(), TakePacket(r))
      modifies this
      ensures Valid()
      ensures View() == Apply(old(View()), TakePacket(r), Done) && (ok <==> holders[r] == Uploading)
    {
      StepKeepsInv(max, View(), TakePacket(r), Done);
      hide Inv;
      if packets == 0 {
        holders := holders[r := Leaving];
        return false;
      }
      packets, holders := packets - 1, holders[r := Uploading];
      ok := true;
    }

    // Locals drop in reverse: the packet permit, then the upload permit.
    method FinishUpload(r: RequestId)
      requires Valid() && Enabled(View(), EndUpload(r))
      modifies this
      ensures Valid()
      ensures View() == Apply(Apply(old(View()), EndUpload(r), Done), LeaveUpload(r), Done)
    {
      StepKeepsInv(max, View(), EndUpload(r), Done);
      StepKeepsInv(max, Apply(View(), EndUpload(r), Done), LeaveUpload(r), Done);
      hide Inv;
      packets, holders := packets + 1, holders[r := Leaving];
      uploads, holders := uploads + 1, holders - {r};
    }

    // ---- open_note

    method Authorise(r: RequestId, id: Id, hash: Digest, reply: Reply)
      requires Valid() && Enabled(View(), Step.CheckOpen(r, id, hash))
      modifies this
      ensures Valid()
      ensures View() == Apply(old(View()), Step.CheckOpen(r, id, hash), reply)
    {
      StepKeepsInv(max, View(), Step.CheckOpen(r, id, hash), reply);
      hide Inv;
      if reply == Done {
        holders := holders[r := Authorised(id, hash)];
      }
    }

    method TakeOpenSlot(r: RequestId) returns (ok: bool)
      requires Valid() && Enabled(View(), TakeOpen(r))
      modifies this
      ensures Valid()
      ensures View() == Apply(old(View()), TakeOpen(r), Done) && (ok <==> old(packets) > 0)
      ensures !ok ==> exists q :: q != r && q in old(holders) && IsDownload(old(holders)[q])
    {
      if packets == 0 {
        FullMeansDownload(max, View(), r);
      }
      StepKeepsInv(max, View(), TakeOpen(r), Done);
      hide Inv;
      if packets == 0 {
        holders := holders - {r};
        return false;
      }
      var h := holders[r];
      packets, holders := packets - 1, holders[r := Opening(h.id, h.hash)];
      ok := true;
    }

    method Respond(r: RequestId, reply: Reply)
      requires Valid() && Enabled(View(), Consume(r))
      modifies this
      ensures Valid()
      ensures View() == Apply(old(View()), Consume(r), reply)
    {
      StepKeepsInv(max, View(), Consume(r), reply);
      hide Inv;
      if reply.OkPacket? {
        holders := holders[r := Responding(1, true, map[])];
      } else {
        packets, holders := packets + 1, holders - {r};
      }
    }

    method Cancel(r: RequestId)
      requires Valid() && Enabled(View(), CancelOpen(r))
      modifies this
      ensures Valid()
      ensures View() == Apply(old(View()), CancelOpen(r), Done)
    {
      StepKeepsInv(max, View(), CancelOpen(r), Done);
      hide Inv;
      if holders[r].Opening? {
        packets := packets + 1;
      }
      holders := holders - {r};
    }

    // ---- HeldBody and HeldChunk

    method PollFrame(r: RequestId, chunk: nat)
      requires Valid() && Enabled(View(), Poll(r, chunk))
      modifies this
      ensures Valid()
      ensures View() == Apply(old(View()), Poll(r, chunk), Done)
    {
      StepKeepsInv(max, View(), Poll(r, chunk), Done);
      hide Inv;
      var h := holders[r];
      h := h.(chunks := h.chunks[chunk := 1]);
      holders := holders[r := h.(refs := h.refs + 1)];
    }

    method CloneChunk(r: RequestId, chunk: nat)
      requires Valid() && Enabled(View(), CloneHandle(r, chunk))
      modifies this
      ensures Valid()
      ensures View() == Apply(old(View()), CloneHandle(r, chunk), Done)
    {
      StepKeepsInv(max, View(), CloneHandle(r, chunk), Done);
      hide Inv;
      var h := holders[r];
      holders := holders[r := h.(chunks := h.chunks[chunk := h.chunks[chunk] + 1])];
    }

    method DropChunk(r: RequestId, chunk: nat)
      requires Valid() && Enabled(View(), DropHandle(r, chunk))
      modifies this
      ensures Valid()
      ensures old(holders)[r].refs > 0 && View() == Apply(old(View()), DropHandle(r, chunk), Done)
      ensures packets == old(packets) + One(r !in holders)
    {
      StepKeepsInv(max, View(), DropHandle(r, chunk), Done);
      hide Inv;
      var h := holders[r];
      ChunkGoneOwned(h, chunk);
      if h.chunks[chunk] > 1 {
        holders := holders[r := h.(chunks := h.chunks[chunk := h.chunks[chunk] - 1])];
      } else {
        ReleasePermit(r, h.(chunks := h.chunks - {chunk}));
      }
    }

    method DropResponseBody(r: RequestId)
      requires Valid() && Enabled(View(), DropBody(r))
      modifies this
      ensures Valid()
      ensures old(holders)[r].refs > 0 && View() == Apply(old(View()), DropBody(r), Done)
      ensures packets == old(packets) + One(r !in holders) && (r !in holders <==> old(holders)[r].chunks == map[])
    {
      StepKeepsInv(max, View(), DropBody(r), Done);
      hide Inv;
      BodyGoneOwned(holders[r]);
      ReleasePermit(r, holders[r].(body := false));
    }

    // One reference less to the shared permit; the last one puts it back.
    method ReleasePermit(r: RequestId, h: Holder)
      requires r in holders && h.Responding? && h.refs > 0
      modifies this
      ensures View() == Dropped(old(View()), r, h)
    {
      var left := h.(refs := h.refs - 1);
      if left.refs == 0 {
        packets, holders := packets + 1, holders - {r};
      } else {
        holders := holders[r := left];
      }
    }
  }

  // ---- Conservation -----------------------------------------------------------------------------

  predicate HoldsUpload(h: Holder) {
    h.Entering? || h.Uploading? || h.Leaving?
  }

  predicate HoldsPacket(h: Holder) {
    h.Uploading? || h.Opening? || h.Responding?
  }

  // A body or a chunk is alive, and the count of the permit is the number of its owners.
  predicate Owned(h: Holder) {
    h.Responding? ==>
      && h.refs == |h.chunks| + (if h.body then 1 else 0)
      && (h.body || h.chunks != map[])
      && forall k :: k in h.chunks ==> h.chunks[k] >= 1
  }

  function Holders(holders: map<RequestId, Holder>, holds: Holder -> bool): set<RequestId> {
    set r | r in holders && holds(holders[r])
  }

  ghost predicate Inv(max: nat, s: Slots) {
    && s.uploads + |Holders(s.holders, HoldsUpload)| == max - 1
    && s.packets + |Holders(s.holders, HoldsPacket)| == max
    && forall r :: r in s.holders ==> Owned(s.holders[r])
  }

  function One(b: bool): nat {
    if b then 1 else 0
  }

  lemma PutCount(holders: map<RequestId, Holder>, r: RequestId, h: Holder, holds: Holder -> bool)
    ensures |Holders(holders[r := h], holds)| == |Holders(holders - {r}, holds)| + One(holds(h))
  {
    var rest := holders - {r};
    if holds(h) {
      assert Holders(holders[r := h], holds) == Holders(rest, holds) + {r};
    } else {
      assert Holders(holders[r := h], holds) == Holders(rest, holds);
    }
  }

  lemma GoneCount(holders: map<RequestId, Holder>, r: RequestId, holds: Holder -> bool)
    ensures |Holders(holders, holds)| == |Holders(holders - {r}, holds)| + One(r in holders && holds(holders[r]))
  {
    if r in holders {
      assert holders[r := holders[r]] == holders;
      PutCount(holders, r, holders[r], holds);
    } else {
      assert holders - {r} == holders;
    }
  }

  lemma PollOwned(h: Holder, k: nat)
    requires h.Responding? && Owned(h) && k !in h.chunks
    ensures Owned(h.(refs := h.refs + 1, chunks := h.chunks[k := 1]))
  {
    assert h.chunks[k := 1].Keys == h.chunks.Keys + {k};
    assert |h.chunks[k := 1]| == |h.chunks[k := 1].Keys| && |h.chunks| == |h.chunks.Keys|;
    assert k in h.chunks[k := 1];
  }

  lemma HandleOwned(h: Holder, k: nat, n: nat)
    requires h.Responding? && Owned(h) && k in h.chunks && n >= 1
    ensures Owned(h.(chunks := h.chunks[k := n]))
  {
    assert h.chunks[k := n].Keys == h.chunks.Keys;
    assert |h.chunks[k := n]| == |h.chunks[k := n].Keys| && |h.chunks| == |h.chunks.Keys|;
    assert k in h.chunks[k := n];
  }

  lemma ChunkGoneOwned(h: Holder, k: nat)
    requires h.Responding? && Owned(h) && k in h.chunks
    ensures h.refs > 0 && (h.refs == 1 <==> !h.body && h.chunks - {k} == map[])
    ensures h.refs > 1 ==> Owned(h.(refs := h.refs - 1, chunks := h.chunks - {k}))
  {
    var rest := h.chunks - {k};
    assert h.chunks.Keys == rest.Keys + {k};
    assert |rest| == |rest.Keys| && |h.chunks| == |h.chunks.Keys|;
    assert |rest.Keys| == 0 ==> rest.Keys == {};
  }

  lemma BodyGoneOwned(h: Holder)
    requires h.Responding? && Owned(h) && h.body
    ensures h.refs > 0 && (h.refs == 1 <==> h.chunks == map[])
    ensures h.refs > 1 ==> Owned(h.(refs := h.refs - 1, body := false))
  {
    assert |h.chunks| == |h.chunks.Keys|;
    assert |h.chunks.Keys| == 0 ==> h.chunks.Keys == {};
  }

  lemma OwnersKept(s: Slots, a: Step, reply: Reply)
    requires Enabled(s, a) && forall r :: r in s.holders ==> Owned(s.holders[r])
    ensures (a.DropBody? || a.DropHandle?) ==> s.holders[a.r].refs > 0
    ensures var t := Apply(s, a, reply);
            a.r in t.holders ==> Owned(t.holders[a.r])
  {
    hide Dropped;
    match a
    case Poll(r, k) => PollOwned(s.holders[r], k);
    case CloneHandle(r, k) => HandleOwned(s.holders[r], k, s.holders[r].chunks[k] + 1);
    case DropHandle(r, k) => HandleDropped(s, r, k);
    case DropBody(r) =>
      BodyGoneOwned(s.holders[r]);
      DroppedOwned(s, r, s.holders[r].(body := false));
    case _ =>
  }

  lemma HandleDropped(s: Slots, r: RequestId, k: nat)
    requires HasChunk(s, r, k) && Owned(s.holders[r])
    ensures s.holders[r].refs > 0
    ensures var t := Apply(s, DropHandle(r, k), Done);
            r in t.holders ==> Owned(t.holders[r])
  {
    var h := s.holders[r];
    ChunkGoneOwned(h, k);
    DroppedOwned(s, r, h.(chunks := h.chunks - {k}));
    if h.chunks[k] > 1 {
      HandleOwned(h, k, h.chunks[k] - 1);
    }
    hide Dropped, Owned;
  }

  lemma DroppedOwned(s: Slots, r: RequestId, h: Holder)
    requires h.Responding? && h.refs > 0 && (h.refs > 1 ==> Owned(h.(refs := h.refs - 1)))
    ensures r in Dropped(s, r, h).holders ==> Owned(Dropped(s, r, h).holders[r])
  {
  }

  function UploadsOf(s: Slots, r: RequestId): nat {
    One(r in s.holders && HoldsUpload(s.holders[r]))
  }

  function PacketsOf(s: Slots, r: RequestId): nat {
    One(r in s.holders && HoldsPacket(s.holders[r]))
  }

  // What one step does to the permits of its request and to those that are free.
  ghost predicate IsBalanced(s: Slots, t: Slots, r: RequestId) {
    && t.holders - {r} == s.holders - {r}
    && t.uploads + UploadsOf(t, r) == s.uploads + UploadsOf(s, r)
    && t.packets + PacketsOf(t, r) == s.packets + PacketsOf(s, r)
  }

  // A permit leaves the semaphore exactly when the request gets it, and returns when it gives it up.
  lemma Balanced(s: Slots, a: Step, reply: Reply)
    requires Enabled(s, a) && forall r :: r in s.holders ==> Owned(s.holders[r])
    ensures (a.DropBody? || a.DropHandle?) ==> s.holders[a.r].refs > 0
    ensures IsBalanced(s, Apply(s, a, reply), a.r)
  {
    if a.DropHandle? {
      ChunkGoneOwned(s.holders[a.r], a.chunk);
      DropBalanced(s, a.r, s.holders[a.r].(chunks := s.holders[a.r].chunks - {a.chunk}));
    } else if a.DropBody? {
      BodyGoneOwned(s.holders[a.r]);
      DropBalanced(s, a.r, s.holders[a.r].(body := false));
    }
    hide Owned, Put, Gone, Dropped;
  }

  lemma DropBalanced(s: Slots, r: RequestId, h: Holder)
    requires r in s.holders && s.holders[r].Responding? && h.Responding? && h.refs > 0
    ensures IsBalanced(s, Dropped(s, r, h), r)
  {
    hide Put, Gone;
  }

  lemma SameRest(s: Slots, t: Slots, r: RequestId)
    requires t.holders - {r} == s.holders - {r} && forall q :: q in s.holders ==> Owned(s.holders[q])
    requires r in t.holders ==> Owned(t.holders[r])
    ensures forall q :: q in t.holders ==> Owned(t.holders[q])
  {
    hide Owned;
    forall q | q in t.holders && q != r ensures Owned(t.holders[q]) {
      assert q in t.holders - {r};
      assert q in s.holders - {r};
    }
  }

  /** At every point of every interleaving, permits and holders add up, and a response holds its slot
      exactly while its body or one of its chunks is alive. */
  lemma StepKeepsInv(max: nat, s: Slots, a: Step, reply: Reply)
    requires Inv(max, s) && Enabled(s, a)
    ensures (a.DropBody? || a.DropHandle?) ==> s.holders[a.r].refs > 0
    ensures Inv(max, Apply(s, a, reply))
  {
    OwnersKept(s, a, reply);
    Balanced(s, a, reply);
    hide Apply, Owned, Holders, Enabled;
    var t := Apply(s, a, reply);
    SameRest(s, t, a.r);
    GoneCount(s.holders, a.r, HoldsUpload);
    GoneCount(s.holders, a.r, HoldsPacket);
    GoneCount(t.holders, a.r, HoldsUpload);
    GoneCount(t.holders, a.r, HoldsPacket);
  }

  // ---- The process beside the ledger ------------------------------------------------------------

  datatype World = World(slots: Slots, ledger: State)

  // A script call runs at most once, and its reply may be lost.
  datatype Move =
    | Local(a: Step, runs: bool, lost: bool)
    | Other(step: LedgerRuns.Step)

  // What the store does for a step, and the answer the handler sees.
  function Call(ledger: State, s: Slots, a: Step, runs: bool, lost: bool): (State, Reply)
    requires Enabled(s, a)
  {
    if !runs then (ledger, Unavailable)
    else
      var (next, reply) :=
        match a
        case CheckOpen(_, id, hash) => Access(ledger, true, id, hash, Operation.CheckOpen)
        case Consume(r) => Access(ledger, true, s.holders[r].id, s.holders[r].hash, Operation.Open)
        case _ => (ledger, Unavailable);
      (next, if lost then Unavailable else reply)
  }

  ghost predicate Possible(w: World, m: Move) {
    match m
    case Local(a, _, _) => Enabled(w.slots, a)
    case Other(step) => true
  }

  ghost function Next(c: Config, w: World, m: Move): World
    requires Possible(w, m) && forall r :: r in w.slots.holders ==> Owned(w.slots.holders[r])
  {
    match m
    case Local(a, runs, lost) =>
      var (ledger, reply) := Call(w.ledger, w.slots, a, runs, lost);
      OwnersKept(w.slots, a, reply);
      World(Apply(w.slots, a, reply), ledger)
    case Other(step) => w.(ledger := LedgerRuns.Apply(c, w.ledger, step).0)
  }

  ghost predicate IsRun(c: Config, max: nat, w: World, moves: seq<Move>)
    requires Inv(max, w.slots)
    decreases |moves|
  {
    moves == [] ||
    (Possible(w, moves[0])
     && (NextKeepsInv(c, max, w, moves[0]); IsRun(c, max, Next(c, w, moves[0]), moves[1..])))
  }

  ghost function Exec(c: Config, max: nat, w: World, moves: seq<Move>): (v: World)
    requires Inv(max, w.slots) && IsRun(c, max, w, moves)
    ensures Inv(max, v.slots)
    decreases |moves|
  {
    if moves == [] then w
    else
      NextKeepsInv(c, max, w, moves[0]);
      Exec(c, max, Next(c, w, moves[0]), moves[1..])
  }

  predicate IsDownload(h: Holder) {
    h.Opening? || h.Responding?
  }

  lemma Pigeonhole<T>(a: set<T>, b: set<T>)
    requires |a| > |b|
    ensures exists x :: x in a && x !in b
  {
    if a <= b {
      LedgerRuns.Subset(a, b);
    }
  }

  // Uploads leave one slot: without a free one, a download holds one.
  lemma FullMeansDownload(max: nat, s: Slots, r: RequestId)
    requires Inv(max, s) && s.packets == 0 && r in s.holders && !HoldsPacket(s.holders[r])
    ensures exists q :: q != r && q in s.holders && IsDownload(s.holders[q])
  {
    var packets, uploads := Holders(s.holders, HoldsPacket), Holders(s.holders, HoldsUpload);
    Pigeonhole(packets, uploads);
    var q :| q in packets && q !in uploads;
    assert q != r && IsDownload(s.holders[q]);
  }

  lemma NextKeepsInv(c: Config, max: nat, w: World, m: Move)
    requires Inv(max, w.slots) && Possible(w, m)
    ensures Inv(max, Next(c, w, m).slots)
  {
    if m.Local? {
      StepKeepsInv(max, w.slots, m.a, Call(w.ledger, w.slots, m.a, m.runs, m.lost).1);
    }
  }

  // build_router refuses fewer than two slots.
  function Started(max: nat): Slots
    requires max >= 2
  {
    Slots(max - 1, max, map[])
  }

  lemma StartedIsInv(max: nat)
    requires max >= 2
    ensures Inv(max, Started(max))
  {
    assert Holders(map[], HoldsUpload) == {} && Holders(map[], HoldsPacket) == {};
  }

  /** From the start, whatever the interleaving with other processes and whatever is cancelled, every
      permit is free or held by one live request, upload or response. */
  lemma PermitsAreConserved(c: Config, max: nat, ledger: State, moves: seq<Move>)
    requires max >= 2
    ensures Inv(max, Started(max))
    ensures IsRun(c, max, World(Started(max), ledger), moves) ==>
              var s := Exec(c, max, World(Started(max), ledger), moves).slots;
              && s.uploads + |Holders(s.holders, HoldsUpload)| == max - 1
              && s.packets + |Holders(s.holders, HoldsPacket)| == max
  {
    StartedIsInv(max);
  }

  /** An authorised open is refused for capacity only while another download holds a slot, since
      uploads leave one; and then it has spent no view. */
  lemma RefusedOpen(c: Config, max: nat, w: World, r: RequestId, runs: bool, lost: bool)
    requires Inv(max, w.slots) && Enabled(w.slots, TakeOpen(r)) && max >= 2
    ensures var v := Next(c, w, Local(TakeOpen(r), runs, lost));
            && v.ledger == w.ledger
            && (r !in v.slots.holders ==> exists q :: q != r && q in w.slots.holders && IsDownload(w.slots.holders[q]))
  {
    if w.slots.packets == 0 {
      FullMeansDownload(max, w.slots, r);
    }
  }

  /** Of all that a process does, only the consuming command of a request that holds a packet slot
      changes an available note. */
  lemma OnlySlotHoldersSpend(c: Config, max: nat, w: World, m: Move, id: Id)
    requires Inv(max, w.slots) && Possible(w, m) && m.Local? && IsAvailable(w.ledger, id)
    ensures var v := Next(c, w, m);
            v.ledger.entries != w.ledger.entries && (id !in v.ledger.entries || v.ledger.entries[id] != w.ledger.entries[id]) ==>
              && m.a.Consume? && m.a.r in w.slots.holders
              && HoldsPacket(w.slots.holders[m.a.r]) && w.slots.holders[m.a.r].id == id
  {
    hide Apply, Matches, Owned, Holders;
  }
}
