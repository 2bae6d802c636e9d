/** The page that opens a note, as a state machine whose operations stop at every await. Clears,
    expiry, user actions and other operations interleave there, and the worker and the service answer
    anything. Module Readers has the object. */
module ReaderSteps {
  import opened Wrappers
  import S = Session

  datatype Phase = Loading | Ready | Showing | Blank | Broken

  datatype Metadata = Metadata(expires: int, remaining: int)

  datatype Content = Content(text: string, files: seq<seq<int>>)

  datatype View = View(session: S.View, phase: Phase, passphrase: string, required: bool, busy: bool, error: bool,
                       expiresAt: int, remaining: int, content: Option<Content>, id: string,
                       metadata: Option<Metadata>, disposals: nat)

  // An operation suspended at an await.
  datatype Frame =
    | LoadLink(t: S.Ticket)
    | LoadMeta(t: S.Ticket)
    | LoadInspect(t: S.Ticket, metadata: Metadata)
    | OpenPrepare(t: S.Ticket)
    | OpenFetch(t: S.Ticket)      // the consuming call is under way
    | OpenDecrypt(t: S.Ticket)

  // How the awaited promise settles.
  datatype Outcome =
    | Rejected
    | Link(id: string)
    | Meta(metadata: Metadata)
    | Inspected(id: string, views: int, argon2id: bool)
    | Access
    | Packet
    | Decrypted(content: Content)

  predicate Answers(o: Outcome, f: Frame) {
    match f
    case LoadLink(_) => o.Rejected? || o.Link?
    case LoadMeta(_) => o.Rejected? || o.Meta?
    case LoadInspect(_, _) => o.Rejected? || o.Inspected?
    case OpenPrepare(_) => o.Rejected? || o.Access?
    case OpenFetch(_) => o.Rejected? || o.Packet?
    case OpenDecrypt(_) => o.Rejected? || o.Decrypted?
  }

  predicate IsOpen(f: Frame) {
    f.OpenPrepare? || f.OpenFetch? || f.OpenDecrypt?
  }

  predicate IsRequested(f: Frame) {
    f.OpenFetch? || f.OpenDecrypt?
  }

  predicate HasData(v: View) {
    v.id != "" || v.passphrase != "" || v.content.Some? || v.busy || v.phase == Loading
  }

  // ---- The synchronous pieces ---------------------------------------------------------------------

  function Reset(v: View): View {
    v.(phase := Blank, passphrase := "", content := None, busy := false, error := false, expiresAt := 0, remaining := 0,
       id := "", metadata := None, disposals := v.disposals + 1)
  }

  // The session calls back when it clears.
  function After(v: View, session: S.View, cleared: bool): View {
    if cleared then Reset(v.(session := session)) else v.(session := session)
  }

  function Load(v: View, now: int): (View, Frame)
    requires S.WellFormed(v.session)
  {
    var v := v.(phase := Loading, error := false);
    var (s, cleared) := S.TouchAt(v.session, now, now, HasData(v));
    var w := After(v, s, cleared);
    var (u, late) := S.Expire(w.session, now);
    (After(w, u, late), LoadLink(S.TicketOf(u)))
  }

  function Open(v: View, now: int): (View, Option<Frame>)
    requires S.WellFormed(v.session)
  {
    var (s, cleared) := S.Expire(v.session, now);
    if cleared then (After(v, s, true), None)
    else if v.busy || v.phase != Ready || v.id == "" || v.metadata.None? then (v, None)
    else if v.required && v.passphrase == "" then (v.(error := true), None)
    else (v.(busy := true, error := false), Some(OpenPrepare(S.TicketOf(s))))
  }

  function LoadFailed(v: View): View {
    v.(disposals := v.disposals + 1, id := "", phase := Broken, error := true)
  }

  function OpenFailed(v: View, requested: bool): View {
    var w := v.(passphrase := "", error := true, busy := false);
    if requested then w.(disposals := w.disposals + 1, id := "", metadata := None, phase := Broken) else w
  }

  // The piece after an await: first of all the ticket is checked.
  function Resume(v: View, f: Frame, o: Outcome, now: int): (View, Option<Frame>)
    requires S.WellFormed(v.session) && f.t.signal < |v.session.signals| && Answers(o, f)
  {
    var (s, valid, cleared) := S.Validate(v.session, f.t, now);
    if valid then Continue(v, f, o) else (After(v, s, cleared), None)
  }

  function Continue(v: View, f: Frame, o: Outcome): (View, Option<Frame>)
    requires Answers(o, f)
  {
    if o.Rejected? then (if IsOpen(f) then OpenFailed(v, IsRequested(f)) else LoadFailed(v), None)
    else
      match f
      case LoadLink(t) => (v.(id := o.id), Some(LoadMeta(t)))
      case LoadMeta(t) => (v, Some(LoadInspect(t, o.metadata)))
      case LoadInspect(t, m) => (if Accepted(v, f, o) then Loaded(v, m, o.argon2id) else LoadFailed(v), None)
      case OpenPrepare(t) => (v.(passphrase := ""), Some(OpenFetch(t)))
      case OpenFetch(t) => (v, Some(OpenDecrypt(t)))
      case OpenDecrypt(t) => (Shown(v, o.content), None)
  }

  // The metadata is taken for the identifier of the link.
  predicate Accepted(v: View, f: Frame, o: Outcome) {
    f.LoadInspect? && o.Inspected? && o.id == v.id && f.metadata.remaining <= o.views
  }

  function Loaded(v: View, m: Metadata, argon2id: bool): View {
    v.(metadata := Some(m), phase := Ready, required := argon2id, expiresAt := m.expires, remaining := m.remaining)
  }

  function Shown(v: View, content: Content): View {
    v.(content := Some(content), remaining := v.remaining - 1, phase := Showing, id := "", metadata := None,
       disposals := v.disposals + 1, busy := false)
  }

  // ---- Every interleaving -------------------------------------------------------------------------

  // How many loads were started, the identifiers whose metadata was accepted, and those that the
  // consuming requests named.
  datatype World = World(v: View, frames: map<nat, Frame>, started: nat, accepted: seq<string>, called: seq<string>)

  datatype Step =
    | StartLoad(op: nat, now: int)
    | StartOpen(op: nat, now: int)
    | Settle(op: nat, o: Outcome, now: int)
    | Happens(e: S.Event)
    | Type(passphrase: string)

  const START: World := World(View(S.START, Loading, "", false, false, false, 0, 0, None, "", None, 0), map[], 0, [], [])

  predicate Enabled(w: World, a: Step) {
    match a
    case StartLoad(op, _) => op !in w.frames
    case StartOpen(op, _) => op !in w.frames
    case Settle(op, o, _) => op in w.frames && Answers(o, w.frames[op])
    case Happens(e) => S.Enabled(w.v.session, S.StepOf(e, HasData(w.v)))
    case Type(_) => true
  }

  function Suspend(frames: map<nat, Frame>, op: nat, next: Option<Frame>): map<nat, Frame> {
    if next.Some? then frames[op := next.value] else frames - {op}
  }

  ghost predicate Tickets(w: World) {
    && S.Inv(w.v.session)
    && forall op :: op in w.frames ==> w.frames[op].t.signal == w.frames[op].t.generation <= w.v.session.generation
  }

  ghost function Next(w: World, a: Step): World
    requires Tickets(w) && Enabled(w, a)
  {
    match a
    case StartLoad(op, now) => var (v, f) := Load(w.v, now); w.(v := v, frames := w.frames[op := f], started := w.started + 1)
    case StartOpen(op, now) => var (v, next) := Open(w.v, now); w.(v := v, frames := Suspend(w.frames, op, next))
    case Settle(op, o, now) =>
      var f := w.frames[op];
      var (v, next) := Resume(w.v, f, o, now);
      World(v, Suspend(w.frames, op, next), w.started,
            w.accepted + (if S.Validate(w.v.session, f.t, now).1 && Accepted(w.v, f, o) then [w.v.id] else []),
            w.called + (if next.Some? && next.value.OpenFetch? then [v.id] else []))
    case Happens(e) =>
      var (s, cleared) := S.Apply(w.v.session, S.StepOf(e, HasData(w.v)));
      w.(v := After(w.v, s, cleared))
    case Type(passphrase) => w.(v := w.v.(passphrase := passphrase))
  }

  predicate IsCurrent(w: World, op: nat) {
    op in w.frames && w.frames[op].t.generation == w.v.session.generation
  }

  function CurrentOpens(w: World): set<nat> {
    set op | op in w.frames && IsCurrent(w, op) && IsOpen(w.frames[op])
  }

  predicate PrepareUnderWay(w: World) {
    exists op :: op in CurrentOpens(w) && w.frames[op].OpenPrepare?
  }

  predicate RequestUnderWay(w: World) {
    exists op :: op in CurrentOpens(w) && IsRequested(w.frames[op])
  }

  function LoadFrames(frames: map<nat, Frame>): set<nat> {
    set op | op in frames && !IsOpen(frames[op])
  }

  // Every load in flight or accepted was started.
  ghost predicate LoadsAgree(w: World) {
    |LoadFrames(w.frames)| + |w.accepted| <= w.started
  }

  ghost predicate Inv(w: World) {
    OpensAgree(w) && LoadsAgree(w)
  }

  // Busy means exactly one open of the current generation in flight; while it only prepares, the
  // metadata stays; and an accepted load pays for at most one consuming call.
  ghost predicate OpensAgree(w: World) {
    && Tickets(w)
    && |CurrentOpens(w)| == (if w.v.busy then 1 else 0)
    && (PrepareUnderWay(w) ==> w.v.metadata.Some?)
    && |w.called| + (if w.v.metadata.Some? && !RequestUnderWay(w) then 1 else 0) <= |w.accepted|
  }

  // ---- What one piece does ------------------------------------------------------------------------

  // Everything sensitive is gone, and the generation with it.
  predicate Wiped(v: View, u: View) {
    && u.session.generation == v.session.generation + 1
    && u.id == "" && u.passphrase == "" && u.content.None? && u.metadata.None? && !u.busy && u.phase == Blank
    && !u.error && u.expiresAt == 0 && u.remaining == 0 && u.disposals == v.disposals + 1
  }

  /** A continuation whose generation has been cleared changes nothing and disposes of nothing; one
      whose deadline has passed clears; any other goes on. */
  lemma ResumeEffect(v: View, f: Frame, o: Outcome, now: int)
    requires S.Inv(v.session) && Answers(o, f) && f.t.signal == f.t.generation <= v.session.generation
    ensures var r := Resume(v, f, o, now);
            && S.Inv(r.0.session)
            && (if f.t.generation != v.session.generation then r == (v, None)
                else if S.IsExpired(v.session, now) then Wiped(v, r.0) && r.1.None?
                else r == Continue(v, f, o))
  {
    S.StepKeepsInv(v.session, S.DoValidate(f.t, now));
    ResetWipes(v.(session := S.Clear(v.session)), v);
    hide Continue, Wiped, Reset, S.Inv, S.Clear;
  }

  lemma ResetWipes(w: View, v: View)
    requires w.session.generation == v.session.generation + 1 && w == v.(session := w.session)
    ensures Wiped(v, Reset(w)) && Reset(w).session == w.session
  {
  }

  lemma LoadEffect(v: View, now: int)
    requires S.Inv(v.session)
    ensures var (u, f) := Load(v, now);
            && S.Inv(u.session) && u.session.generation == v.session.generation
            && f == LoadLink(S.TicketOf(u.session)) && u == v.(phase := Loading, error := false, session := u.session)
  {
    S.StepKeepsInv(v.session, S.DoTouch(now, now, true));
    hide S.Inv;
  }

  lemma OpenEffect(v: View, now: int)
    requires S.Inv(v.session)
    ensures var (u, next) := Open(v, now);
            && S.Inv(u.session)
            && (if S.IsExpired(v.session, now) then Wiped(v, u) && next.None?
                else if next.Some? then
                  && next.value == OpenPrepare(S.TicketOf(v.session)) && !v.busy && v.metadata.Some?
                  && u == v.(busy := true, error := false)
                else u == v.(error := u.error))
  {
    S.StepKeepsInv(v.session, S.DoExpire(now));
  }

  lemma EventEffect(v: View, e: S.Event)
    requires S.Inv(v.session) && S.Enabled(v.session, S.StepOf(e, HasData(v)))
    ensures var (s, cleared) := S.Apply(v.session, S.StepOf(e, HasData(v)));
            && S.Inv(s)
            && if cleared then Wiped(v, After(v, s, true)) else s.generation == v.session.generation
  {
    S.StepKeepsInv(v.session, S.StepOf(e, HasData(v)));
  }

  // A step wipes the page, or keeps the generation and moves one operation.
  ghost predicate Moved(w: World, x: World, op: nat, next: Option<Frame>) {
    && x.v.session.generation == w.v.session.generation
    && x.frames == Suspend(w.frames, op, next)
    && (next.Some? ==> next.value.t == S.TicketOf(x.v.session))
  }

  lemma MovedOpens(w: World, x: World, op: nat, next: Option<Frame>)
    requires Moved(w, x, op, next) && S.Inv(x.v.session)
    ensures CurrentOpens(x) == CurrentOpens(w) - {op} + (if next.Some? && IsOpen(next.value) then {op} else {})
    ensures forall q :: q in CurrentOpens(w) && q != op ==> q in CurrentOpens(x) && x.frames[q] == w.frames[q]
  {
  }

  lemma WipedOpens(w: World, x: World, op: nat)
    requires x.frames == w.frames || x.frames == w.frames - {op}
    requires Tickets(w) && x.v.session.generation > w.v.session.generation
    ensures CurrentOpens(x) == {}
  {
  }

  lemma TicketsKept(w: World, a: Step)
    requires Tickets(w) && Enabled(w, a)
    ensures Tickets(Next(w, a))
  {
    match a
    case StartLoad(op, now) => LoadEffect(w.v, now);
    case StartOpen(op, now) => OpenEffect(w.v, now);
    case Settle(op, o, now) => ResumeEffect(w.v, w.frames[op], o, now);
    case Happens(e) => EventEffect(w.v, e);
    case Type(_) =>
  }

  lemma WipedKeepsOpens(w: World, x: World, op: nat)
    requires OpensAgree(w) && Tickets(x) && Wiped(w.v, x.v) && x.accepted == w.accepted && x.called == w.called
    requires x.frames == w.frames || x.frames == w.frames - {op}
    ensures OpensAgree(x)
  {
    WipedOpens(w, x, op);
    hide Tickets, CurrentOpens;
  }

  // One operation moved, and it was not and is not an open.
  lemma OtherKeepsOpens(w: World, x: World, op: nat, next: Option<Frame>)
    requires OpensAgree(w) && Tickets(x) && Moved(w, x, op, next) && x.called == w.called
    requires op in w.frames ==> !IsOpen(w.frames[op])
    requires next.Some? ==> !IsOpen(next.value)
    requires x.v.busy == w.v.busy && |x.accepted| >= |w.accepted|
    requires x.v.metadata == w.v.metadata || (x.v.metadata.Some? && |x.accepted| == |w.accepted| + 1)
    ensures OpensAgree(x)
  {
    UntouchedOpens(w, x, op, next);
    hide Tickets, CurrentOpens, Moved, RequestUnderWay, PrepareUnderWay;
  }

  lemma UntouchedOpens(w: World, x: World, op: nat, next: Option<Frame>)
    requires Moved(w, x, op, next) && S.Inv(x.v.session)
    requires op in w.frames ==> !IsOpen(w.frames[op])
    requires next.Some? ==> !IsOpen(next.value)
    ensures CurrentOpens(x) == CurrentOpens(w)
    ensures RequestUnderWay(x) == RequestUnderWay(w) && PrepareUnderWay(x) == PrepareUnderWay(w)
  {
    MovedOpens(w, x, op, next);
    assert op !in CurrentOpens(w);
    SetMinusNothing(CurrentOpens(w), op);
    hide Moved, IsCurrent, S.Inv, CurrentOpens, RequestUnderWay, PrepareUnderWay;
    SameRequests(w, x);
  }

  lemma SetMinusNothing(s: set<nat>, x: nat)
    requires x !in s
    ensures s - {x} + {} == s
  {
  }

  lemma SameRequests(w: World, x: World)
    requires CurrentOpens(x) == CurrentOpens(w) && forall q :: q in CurrentOpens(w) ==> x.frames[q] == w.frames[q]
    ensures RequestUnderWay(x) == RequestUnderWay(w) && PrepareUnderWay(x) == PrepareUnderWay(w)
  {
    hide CurrentOpens;
  }

  lemma OpenStarts(w: World, x: World, op: nat, f: Frame)
    requires OpensAgree(w) && Tickets(x) && Moved(w, x, op, Some(f)) && f.OpenPrepare? && !w.v.busy && x.v.busy
    requires w.v.metadata.Some? && x.v.metadata == w.v.metadata && x.accepted == w.accepted && x.called == w.called
    ensures OpensAgree(x)
  {
    MovedOpens(w, x, op, Some(f));
    assert CurrentOpens(w) == {};
    assert CurrentOpens(x) == {op} && x.frames[op] == f;
    hide Tickets, CurrentOpens;
  }

  lemma StartOpenKeepsOpens(w: World, x: World, op: nat, now: int)
    requires OpensAgree(w) && Tickets(x) && op !in w.frames
    requires var (v, next) := Open(w.v, now); x == w.(v := v, frames := Suspend(w.frames, op, next))
    ensures OpensAgree(x)
  {
    OpenEffect(w.v, now);
    var next := Open(w.v, now).1;
    assert w.frames - {op} == w.frames;
    hide Open, Tickets, CurrentOpens, RequestUnderWay;
    if S.IsExpired(w.v.session, now) {
      WipedKeepsOpens(w, x, op);
    } else if next.Some? {
      OpenStarts(w, x, op, next.value);
    } else {
      OtherKeepsOpens(w, x, op, None);
    }
  }

  // The only current open goes on.
  lemma OpenGoesOn(w: World, x: World, op: nat, next: Option<Frame>)
    requires OpensAgree(w) && Tickets(x) && Moved(w, x, op, next) && IsCurrent(w, op) && IsOpen(w.frames[op]) && x.accepted == w.accepted
    requires next.Some? ==> IsOpen(next.value) && x.v.busy && !next.value.OpenPrepare?
    requires next.None? ==> !x.v.busy
    requires x.v.metadata == w.v.metadata || x.v.metadata.None?
    requires next.None? && IsRequested(w.frames[op]) ==> x.v.metadata.None?
    requires |x.called| == |w.called| + if w.frames[op].OpenPrepare? && next.Some? then 1 else 0
    ensures OpensAgree(x)
  {
    MovedOpens(w, x, op, next);
    assert op in CurrentOpens(w);
    assert CurrentOpens(w) == {op} by { Single(CurrentOpens(w), op); }
    assert RequestUnderWay(w) <==> IsRequested(w.frames[op]);
    if next.Some? {
      assert CurrentOpens(x) == {op};
      assert op in CurrentOpens(x) && IsRequested(x.frames[op]);
    } else {
      assert CurrentOpens(x) == {};
    }
    hide Tickets, CurrentOpens;
  }

  lemma Single(s: set<nat>, x: nat)
    requires x in s && |s| <= 1
    ensures s == {x}
  {
    assert |s - {x}| == |s| - 1;
    assert s - {x} == {};
  }

  lemma SettleKeepsOpens(w: World, op: nat, o: Outcome, now: int)
    requires OpensAgree(w) && Enabled(w, Settle(op, o, now)) && Tickets(Next(w, Settle(op, o, now)))
    ensures OpensAgree(Next(w, Settle(op, o, now)))
  {
    var x := Next(w, Settle(op, o, now));
    var f := w.frames[op];
    ResumeEffect(w.v, f, o, now);
    var next := Resume(w.v, f, o, now).1;
    hide Resume, Tickets, OpensAgree;
    if f.t.generation != w.v.session.generation {
      StaleOpens(w, x, op);
    } else if S.IsExpired(w.v.session, now) {
      WipedKeepsOpens(w, x, op);
    } else if IsOpen(f) {
      OpenGoesOn(w, x, op, next);
    } else {
      OtherKeepsOpens(w, x, op, next);
    }
  }

  lemma StaleOpens(w: World, x: World, op: nat)
    requires OpensAgree(w) && op in w.frames && !IsCurrent(w, op) && x == w.(frames := w.frames - {op})
    ensures OpensAgree(x)
  {
    assert CurrentOpens(x) == CurrentOpens(w);
  }

  lemma StepKeepsOpens(w: World, a: Step)
    requires OpensAgree(w) && Enabled(w, a)
    ensures OpensAgree(Next(w, a))
  {
    TicketsKept(w, a);
    hide OpensAgree, Tickets;
    var x := Next(w, a);
    match a
    case StartLoad(op, now) =>
      LoadEffect(w.v, now);
      OtherKeepsOpens(w, x, op, Some(Load(w.v, now).1));
    case StartOpen(op, now) => StartOpenKeepsOpens(w, x, op, now);
    case Settle(op, o, now) => SettleKeepsOpens(w, op, o, now);
    case Happens(e) =>
      EventEffect(w.v, e);
      if S.Apply(w.v.session, S.StepOf(e, HasData(w.v))).1 {
        WipedKeepsOpens(w, x, 0);
      } else {
        SameOpens(w, x);
      }
    case Type(_) => SameOpens(w, x);
  }

  lemma SameOpens(w: World, x: World)
    requires OpensAgree(w) && Tickets(x) && x == w.(v := x.v) && x.v.session.generation == w.v.session.generation
    requires x.v.busy == w.v.busy && x.v.metadata == w.v.metadata
    ensures OpensAgree(x)
  {
    assert CurrentOpens(x) == CurrentOpens(w);
  }

  lemma TicketsAgree(w: World)
    requires Inv(w)
    ensures Tickets(w) && S.Inv(w.v.session)
    ensures forall op :: op in w.frames ==> w.frames[op].t.signal == w.frames[op].t.generation <= w.v.session.generation
  {
  }

  /** Every step keeps the invariant. */
  lemma StepKeepsInv(w: World, a: Step)
    requires Inv(w) && Enabled(w, a)
    ensures Inv(Next(w, a))
  {
    StepKeepsOpens(w, a);
    StepKeepsLoads(w, a);
  }

  lemma LoadsMove(w: World, op: nat, next: Option<Frame>)
    requires next.Some? && !IsOpen(next.value) ==> op in LoadFrames(w.frames)
    ensures |LoadFrames(Suspend(w.frames, op, next))|
         <= |LoadFrames(w.frames)| - if op in LoadFrames(w.frames) && (next.None? || IsOpen(next.value)) then 1 else 0
  {
    var after := LoadFrames(Suspend(w.frames, op, next));
    if op in LoadFrames(w.frames) && (next.None? || IsOpen(next.value)) {
      assert after == LoadFrames(w.frames) - {op};
    } else {
      assert after == LoadFrames(w.frames);
    }
  }

  lemma StepKeepsLoads(w: World, a: Step)
    requires Tickets(w) && LoadsAgree(w) && Enabled(w, a)
    ensures LoadsAgree(Next(w, a))
  {
    match a
    case StartLoad(op, now) =>
      assert LoadFrames(Next(w, a).frames) == LoadFrames(w.frames) + {op};
    case StartOpen(op, now) =>
      OpenEffect(w.v, now);
      LoadsMove(w, op, Open(w.v, now).1);
      hide Open, LoadFrames;
    case Settle(op, o, now) =>
      ResumeEffect(w.v, w.frames[op], o, now);
      LoadsMove(w, op, Resume(w.v, w.frames[op], o, now).1);
      hide Resume, S.Inv;
    case _ =>
  }

  // ---- Whole runs -----------------------------------------------------------------------------------

  ghost predicate IsRun(w: World, steps: seq<Step>)
    requires Inv(w)
    decreases |steps|
  {
    steps == [] || (Enabled(w, steps[0]) && (StepKeepsInv(w, steps[0]); IsRun(Next(w, steps[0]), steps[1..])))
  }

  ghost function Exec(w: World, steps: seq<Step>): (x: World)
    requires Inv(w) && IsRun(w, steps)
    ensures Inv(x)
    decreases |steps|
  {
    if steps == [] then w
    else
      StepKeepsInv(w, steps[0]);
      Exec(Next(w, steps[0]), steps[1..])
  }

  /** In every interleaving the page is busy exactly while one open of its current generation is in
      flight, and it has sent at most one consuming request for every load it accepted, so at most one
      for every load it started. */
  lemma BusyMeansOneOpen(steps: seq<Step>)
    ensures Inv(START)
    ensures IsRun(START, steps) ==>
              var w := Exec(START, steps);
              && (w.v.busy <==> |CurrentOpens(w)| == 1) && |CurrentOpens(w)| <= 1
              && |w.called| <= |w.accepted| <= w.started
  {
    S.StartIsInv();
    assert CurrentOpens(START) == {} && LoadFrames(START.frames) == {};
  }

  /** Content appears only when the open in flight decrypts it before the deadline: never from a
      continuation that a clear or another generation has overtaken. */
  lemma ContentComesFromTheOpen(w: World, a: Step)
    requires Inv(w) && Enabled(w, a)
    ensures var x := Next(w, a);
            x.v.content.Some? && x.v.content != w.v.content ==>
              && a.Settle? && CurrentOpens(w) == {a.op} && w.frames[a.op].OpenDecrypt?
              && a.o == Decrypted(x.v.content.value) && !S.IsExpired(w.v.session, a.now)
  {
    match a
    case StartLoad(op, now) => LoadEffect(w.v, now);
    case StartOpen(op, now) => OpenEffect(w.v, now);
    case Settle(op, o, now) =>
      ResumeEffect(w.v, w.frames[op], o, now);
      if op in CurrentOpens(w) {
        Single(CurrentOpens(w), op);
      }
      hide Resume;
    case Happens(e) => EventEffect(w.v, e);
    case Type(_) =>
  }

  // Nothing sensitive is left, and every operation in flight was overtaken.
  ghost predicate Quiescent(w: World) {
    && w.v.id == "" && w.v.passphrase == "" && w.v.content.None? && w.v.metadata.None? && !w.v.busy && w.v.phase == Blank
    && forall op :: op in w.frames ==> !IsCurrent(w, op)
  }

  // Only a load or the keyboard brings new data.
  predicate UserActs(a: Step) {
    a.StartLoad? || a.Type?
  }

  // A manual clear, a hidden tab, or an expiry that a check, a timer, a ticket, a continuation or a
  // call of the user finds.
  ghost predicate Clears(w: World, a: Step)
    requires Tickets(w) && Enabled(w, a)
  {
    Next(w, a).v.session.generation > w.v.session.generation
  }

  lemma ClearIsQuiescent(w: World, a: Step)
    requires Tickets(w) && Enabled(w, a) && Clears(w, a)
    ensures Quiescent(Next(w, a))
  {
    match a
    case StartLoad(op, now) => LoadEffect(w.v, now);
    case StartOpen(op, now) => OpenEffect(w.v, now);
    case Settle(op, o, now) =>
      ResumeEffect(w.v, w.frames[op], o, now);
      hide Resume;
    case Happens(e) => EventEffect(w.v, e);
  }

  lemma QuiescentStep(w: World, a: Step)
    requires Tickets(w) && Quiescent(w) && Enabled(w, a) && !UserActs(a)
    ensures Quiescent(Next(w, a))
  {
    match a
    case StartOpen(op, now) => OpenEffect(w.v, now);
    case Settle(op, o, now) =>
      ResumeEffect(w.v, w.frames[op], o, now);
      hide Resume;
    case Happens(e) => EventEffect(w.v, e);
  }

  lemma {:induction false} StaysQuiescent(w: World, steps: seq<Step>)
    requires Inv(w) && Quiescent(w) && IsRun(w, steps) && forall a :: a in steps ==> !UserActs(a)
    ensures Quiescent(Exec(w, steps))
    decreases |steps|
  {
    if steps != [] {
      StepKeepsInv(w, steps[0]);
      QuiescentStep(w, steps[0]);
      StaysQuiescent(Next(w, steps[0]), steps[1..]);
    }
  }

  /** From any step on that clears, however the clear came about, nothing comes back until the user
      loads a link or types: whatever is still in flight, however it settles, and whatever is opened. */
  lemma NothingComesBack(w: World, steps: seq<Step>)
    requires Inv(w) && steps != [] && IsRun(w, steps) && Clears(w, steps[0])
    requires forall a :: a in steps[1..] ==> !UserActs(a)
    ensures Quiescent(Exec(w, steps))
  {
    StepKeepsInv(w, steps[0]);
    ClearIsQuiescent(w, steps[0]);
    StaysQuiescent(Next(w, steps[0]), steps[1..]);
  }
}
