/** The page that creates and revokes a note, as a state machine whose operations stop at every await.
    Module Composers has the object. */
module ComposerSteps {
  import opened Wrappers
  import S = Session
  import Utf8
  import Content

  datatype Stage = Compose | Encrypt | Proof | Upload | Share | Revoke | Revoked

  datatype Limits = Limits(maxContent: int, maxText: int, maxFiles: int, maxViews: int, maxTtl: int)

  // What the user types and selects; of a file only its size matters here.
  datatype Form = Form(text: seq<Utf8.unit>, files: seq<nat>, fileMode: bool, passphrase: seq<Utf8.unit>, ttl: int, views: int)

  datatype Sealed = Sealed(id: string, secret: string, revokeToken: string)

  datatype Receipt = Receipt(id: string, token: string)

  datatype Link = Link(id: string, secret: string)

  datatype View = View(session: S.View, form: Form, stage: Stage, busy: bool, configured: bool, config: Option<Limits>,
                       error: bool, link: Option<Link>, expiresAt: int, copied: bool, canRevoke: bool, createdViews: int,
                       receipt: Option<Receipt>, disposals: nat)

  datatype Frame =
    | Connecting(t: S.Ticket)
    | Sealing(t: S.Ticket)
    | Challenging(t: S.Ticket, sealed: Sealed)
    | Proving(t: S.Ticket, sealed: Sealed)
    | Uploading(t: S.Ticket, sealed: Sealed)
    | Revoking(t: S.Ticket, receipt: Receipt)

  datatype Outcome =
    | Rejected
    | Configured(limits: Limits)
    | SealedAs(sealed: Sealed)
    | Challenged
    | Proven
    | Received(id: string, expires: int)
    | RevokedThere

  predicate Answers(o: Outcome, f: Frame) {
    o.Rejected? ||
    match f
    case Connecting(_) => o.Configured? && o.limits.maxTtl >= 60
    case Sealing(_) => o.SealedAs?
    case Challenging(_, _) => o.Challenged?
    case Proving(_, _) => o.Proven?
    case Uploading(_, _) => o.Received?
    case Revoking(_, _) => o.RevokedThere?
  }

  // The operations that set busy.
  predicate IsWork(f: Frame) {
    !f.Connecting?
  }

  predicate HasData(v: View) {
    v.form.text != [] || v.form.files != [] || v.form.passphrase != [] || v.link.Some? || v.busy
  }

  // ---- The checks of a submission -----------------------------------------------------------------

  // White space and line terminators of a regular expression.
  predicate IsSpace(u: Utf8.unit) {
    || 9 <= u as int <= 13 || u as int == 32 || u as int == 160 || u as int == 0x1680 || 0x2000 <= u as int <= 0x200A
    || u as int == 0x2028 || u as int == 0x2029 || u as int == 0x202F || u as int == 0x205F || u as int == 0x3000
    || u as int == 0xFEFF
  }

  function Sum(sizes: seq<nat>): nat {
    if sizes == [] then 0 else sizes[0] + Sum(sizes[1..])
  }

  predicate Acceptable(form: Form, limits: Limits) {
    var files := if form.fileMode then form.files else [];
    var textBytes := |Utf8.Encode(form.text)|;
    && ((exists i :: 0 <= i < |form.text| && !IsSpace(form.text[i])) || files != [])
    && |files| <= limits.maxFiles && textBytes <= limits.maxText && textBytes + Sum(files) <= limits.maxContent
    && 1 <= form.views <= limits.maxViews && 60 <= form.ttl <= limits.maxTtl && |form.passphrase| <= 256
  }

  // ---- The synchronous pieces -----------------------------------------------------------------------

  function Reset(v: View): View {
    v.(stage := Compose, form := v.form.(text := [], files := [], passphrase := []), link := None, expiresAt := 0,
       copied := false, error := false, busy := false, canRevoke := false, createdViews := 0, receipt := None,
       disposals := v.disposals + 1)
  }

  function After(v: View, session: S.View, cleared: bool): View {
    if cleared then Reset(v.(session := session)) else v.(session := session)
  }

  function Touched(v: View, now: int): (w: View)
    requires S.WellFormed(v.session)
    ensures S.WellFormed(w.session)
  {
    var (s, cleared) := S.TouchAt(v.session, now, now, HasData(v));
    After(v, s, cleared)
  }

  function Init(v: View, now: int): (View, Frame)
    requires S.WellFormed(v.session)
  {
    var (s, cleared) := S.Expire(v.session, now);
    (After(v, s, cleared).(error := false), Connecting(S.TicketOf(s)))
  }

  function Submit(v: View, now: int): (View, Option<Frame>)
    requires S.WellFormed(v.session)
  {
    if v.busy || !v.configured || v.config.None? then (v, None)
    else
      var (s, cleared) := S.Expire(v.session, now);
      if cleared then (After(v, s, true), None)
      else if !Acceptable(v.form, v.config.value) then (v.(error := true), None)
      else
        var (w, f) := StartSealing(v, now);
        (w, Some(f))
  }

  function StartSealing(v: View, now: int): (View, Frame)
    requires S.WellFormed(v.session)
  {
    var x := Touched(v.(busy := true, stage := Encrypt, error := false, copied := false), now);
    var (u, late) := S.Expire(x.session, now);
    (After(x, u, late), Sealing(S.TicketOf(u)))
  }

  function StartRevoke(v: View, now: int): (View, Option<Frame>)
    requires S.WellFormed(v.session)
  {
    var (s, cleared) := S.Expire(v.session, now);
    if cleared then (After(v, s, true), None)
    else if v.receipt.None? || v.busy then (v, None)
    else (v.(busy := true, stage := Revoke), Some(Revoking(S.TicketOf(s), v.receipt.value)))
  }

  function WithFiles(v: View, all: seq<nat>, now: int): View
    requires S.WellFormed(v.session)
  {
    Touched(v.(form := v.form.(files := all), stage := Compose, error := false), now)
  }

  function AddFiles(v: View, sizes: seq<nat>, now: int): View
    requires S.WellFormed(v.session)
  {
    if v.busy then v
    else
      var (s, cleared) := S.Expire(v.session, now);
      if cleared then After(v, s, true)
      else
        var all := v.form.files + sizes;
        var limits := if v.config.Some? then v.config.value else LIMITS;
        if |all| > limits.maxFiles || Sum(all) + |Utf8.Encode(v.form.text)| > limits.maxContent then v.(error := true)
        else
          WithFiles(v, all, now)
  }

  function Resume(v: View, f: Frame, o: Outcome, now: int): (View, Option<Frame>)
    requires S.WellFormed(v.session) && f.t.signal < |v.session.signals| && Answers(o, f)
  {
    var (s, valid, cleared) := S.Validate(v.session, f.t, now);
    if valid then Continue(v, f, o) else (After(v, s, cleared), None)
  }

  function Continue(v: View, f: Frame, o: Outcome): (View, Option<Frame>)
    requires Answers(o, f)
  {
    match f
    case Connecting(_) => (if o.Rejected? then v.(error := true, configured := false) else Connected(v, o.limits), None)
    case Sealing(t) => if o.Rejected? then (Failed(v), None) else (v.(stage := Proof), Some(Challenging(t, o.sealed)))
    case Challenging(t, sealed) => if o.Rejected? then (Failed(v), None) else (v, Some(Proving(t, sealed)))
    case Proving(t, sealed) => if o.Rejected? then (Failed(v), None) else (v.(stage := Upload), Some(Uploading(t, sealed)))
    case Uploading(t, sealed) => (if o.Rejected? || o.id != sealed.id then Failed(v) else Created(v, sealed, o.expires), None)
    case Revoking(_, _) => (if o.Rejected? then v.(stage := Share, error := true, busy := false) else Withdrawn(v), None)
  }

  const LIFETIMES: seq<int> := [604800, 86400, 3600, 600, 60]

  // The first of the offered lifetimes that is not above the limit.
  function Lifetime(offered: seq<int>, maxTtl: int): int
    requires offered != [] && offered[|offered| - 1] <= maxTtl
  {
    if offered[0] <= maxTtl then offered[0] else Lifetime(offered[1..], maxTtl)
  }

  function Connected(v: View, limits: Limits): View
    requires limits.maxTtl >= 60
  {
    v.(config := Some(limits), configured := true,
       form := v.form.(ttl := if v.form.ttl > limits.maxTtl then Lifetime(LIFETIMES, limits.maxTtl) else v.form.ttl,
                       views := S.Least(v.form.views, limits.maxViews)))
  }

  // The draft stays.
  function Failed(v: View): View {
    v.(stage := if v.link.Some? then Share else Compose, error := true, disposals := v.disposals + 1, busy := false)
  }

  function Created(v: View, sealed: Sealed, expires: int): View {
    v.(receipt := Some(Receipt(sealed.id, sealed.revokeToken)), link := Some(Link(sealed.id, sealed.secret)),
       expiresAt := expires, canRevoke := true, createdViews := v.form.views,
       form := v.form.(text := [], files := [], passphrase := []), stage := Share, disposals := v.disposals + 1, busy := false)
  }

  function Withdrawn(v: View): View {
    v.(receipt := None, stage := Revoked, link := None, canRevoke := false, copied := false, busy := false)
  }

  const LIMITS: Limits := Limits(Content.MAX_CONTENT_BYTES, Content.MAX_TEXT_BYTES, Content.MAX_FILES, 100, 604800)

  // ---- Every interleaving ---------------------------------------------------------------------------

  datatype World = World(v: View, frames: map<nat, Frame>)

  datatype Step =
    | StartInit(op: nat, now: int)
    | StartSubmit(op: nat, now: int)
    | BeginRevoke(op: nat, now: int)
    | Add(sizes: seq<nat>, now: int)
    | Settle(op: nat, o: Outcome, now: int)
    | Happens(e: S.Event)
    | Fill(form: Form)
    | Edit

  const START: World :=
    World(View(S.START, Form([], [], false, [], 3600, 1), Compose, false, false, None, false, None, 0, false, false, 0, None, 0),
          map[])

  predicate Enabled(w: World, a: Step) {
    match a
    case StartInit(op, _) => op !in w.frames
    case StartSubmit(op, _) => op !in w.frames
    case BeginRevoke(op, _) => op !in w.frames
    case Settle(op, o, _) => op in w.frames && Answers(o, w.frames[op])
    case Happens(e) => S.Enabled(w.v.session, S.StepOf(e, HasData(w.v)))
    case _ => true
  }

  function Suspend(frames: map<nat, Frame>, op: nat, next: Option<Frame>): map<nat, Frame> {
    if next.Some? then frames[op := next.value] else frames - {op}
  }

  ghost function Next(w: World, a: Step): World
    requires Tickets(w) && Enabled(w, a)
  {
    match a
    case StartInit(op, now) => var (v, f) := Init(w.v, now); World(v, w.frames[op := f])
    case StartSubmit(op, now) => var (v, next) := Submit(w.v, now); World(v, Suspend(w.frames, op, next))
    case BeginRevoke(op, now) => var (v, next) := StartRevoke(w.v, now); World(v, Suspend(w.frames, op, next))
    case Add(sizes, now) => w.(v := AddFiles(w.v, sizes, now))
    case Settle(op, o, now) => var (v, next) := Resume(w.v, w.frames[op], o, now); World(v, Suspend(w.frames, op, next))
    case Happens(e) =>
      var (s, cleared) := S.Apply(w.v.session, S.StepOf(e, HasData(w.v)));
      w.(v := After(w.v, s, cleared))
    case Fill(form) => w.(v := w.v.(form := form))
    case Edit => if w.v.busy then w else w.(v := w.v.(stage := Compose))
  }

  ghost predicate Tickets(w: World) {
    && S.Inv(w.v.session)
    && forall op :: op in w.frames ==> w.frames[op].t.signal == w.frames[op].t.generation <= w.v.session.generation
  }

  predicate IsCurrent(w: World, op: nat) {
    op in w.frames && w.frames[op].t.generation == w.v.session.generation
  }

  function CurrentWork(w: World): set<nat> {
    set op | op in w.frames && IsCurrent(w, op) && IsWork(w.frames[op])
  }

  // The link shown, the receipt to revoke it and the offer to do so come and go together.
  predicate LinkAgrees(v: View) {
    && v.receipt.Some? == v.canRevoke == v.link.Some?
    && (v.link.Some? ==> v.link.value.id == v.receipt.value.id)
    && (v.configured ==> v.config.Some?)
  }

  // Busy means exactly one submission or revocation of the current generation in flight, and what a
  // revocation asks the service to revoke is still what the page shows.
  ghost predicate Inv(w: World) {
    && Tickets(w) && LinkAgrees(w.v)
    && |CurrentWork(w)| == (if w.v.busy then 1 else 0)
    && forall op :: op in CurrentWork(w) && w.frames[op].Revoking? ==> w.v.receipt == Some(w.frames[op].receipt)
  }

  // ---- What one piece does --------------------------------------------------------------------------

  // Everything sensitive is gone, and the generation with it.
  predicate Wiped(v: View, u: View) {
    && u.session.generation == v.session.generation + 1
    && u.form.text == [] && u.form.files == [] && u.form.passphrase == []
    && u.link.None? && u.receipt.None? && !u.canRevoke && !u.busy && u.configured == v.configured && u.config == v.config
    && u.form == v.form.(text := [], files := [], passphrase := []) && u.stage == Compose
    && !u.error && !u.copied && u.expiresAt == 0 && u.createdViews == 0 && u.disposals == v.disposals + 1
  }

  /** A continuation whose generation has been cleared changes nothing and disposes of nothing; one
      whose deadline has passed clears; any other goes on. */
  lemma ResumeEffect(v: View, f: Frame, o: Outcome, now: int)
    requires S.Inv(v.session) && Answers(o, f) && f.t.signal == f.t.generation <= v.session.generation
    ensures var r := Resume(v, f, o, now);
            && S.Inv(r.0.session)
            && (if f.t.generation != v.session.generation then r == (v, None)
                else if S.IsExpired(v.session, now) then Wiped(v, r.0) && r.1.None?
                else r == Continue(v, f, o) && r.0.session == v.session)
  {
    S.StepKeepsInv(v.session, S.DoValidate(f.t, now));
    ContinueKeepsSession(v, f, o);
    hide Continue;
  }

  lemma ContinueKeepsSession(v: View, f: Frame, o: Outcome)
    requires Answers(o, f)
    ensures Continue(v, f, o).0.session == v.session
    ensures Continue(v, f, o).1.Some? ==> Continue(v, f, o).1.value.t == f.t && IsWork(f) && IsWork(Continue(v, f, o).1.value)
  {
  }

  lemma InitEffect(v: View, now: int)
    requires S.Inv(v.session)
    ensures var (u, f) := Init(v, now);
            && S.Inv(u.session) && f == Connecting(S.TicketOf(u.session))
            && if S.IsExpired(v.session, now) then Wiped(v, u) else u == v.(error := false)
  {
    S.StepKeepsInv(v.session, S.DoExpire(now));
  }

  lemma SubmitEffect(v: View, now: int)
    requires S.Inv(v.session)
    ensures var (u, next) := Submit(v, now);
            && S.Inv(u.session)
            && (if next.Some? then
                  && next.value == Sealing(S.TicketOf(u.session)) && !v.busy && u.session.generation == v.session.generation
                  && u == v.(busy := true, stage := Encrypt, error := false, copied := false, session := u.session)
                else Wiped(v, u) || u == v.(error := u.error))
  {
    S.StepKeepsInv(v.session, S.DoExpire(now));
    S.StepKeepsInv(v.session, S.DoTouch(now, now, true));
    hide S.Inv, Acceptable;
  }

  lemma RevokeEffect(v: View, now: int)
    requires S.Inv(v.session)
    ensures var (u, next) := StartRevoke(v, now);
            && S.Inv(u.session)
            && (if S.IsExpired(v.session, now) then Wiped(v, u) && next.None?
                else if next.Some? then
                  && v.receipt.Some? && next.value == Revoking(S.TicketOf(v.session), v.receipt.value) && !v.busy
                  && u == v.(busy := true, stage := Revoke)
                else u == v)
  {
    S.StepKeepsInv(v.session, S.DoExpire(now));
  }

  lemma ResetWipes(w: View, v: View)
    ensures w.session.generation == v.session.generation + 1 && w.configured == v.configured && w.config == v.config
            && w.form.fileMode == v.form.fileMode && w.form.ttl == v.form.ttl && w.form.views == v.form.views
            && w.disposals == v.disposals ==>
              Wiped(v, Reset(w))
    ensures Reset(w).session == w.session
  {
  }

  lemma TouchedEffect(v: View, now: int)
    requires S.Inv(v.session)
    ensures var u := Touched(v, now);
            && S.Inv(u.session)
            && (Wiped(v, u) || (u == v.(session := u.session) && u.session.generation == v.session.generation))
  {
    S.StepKeepsInv(v.session, S.DoTouch(now, now, HasData(v)));
    ResetWipes(v.(session := S.TouchAt(v.session, now, now, HasData(v)).0), v);
    hide S.Inv, S.TouchAt, HasData, Reset, Wiped;
  }

  lemma AddEffect(v: View, sizes: seq<nat>, now: int)
    requires S.Inv(v.session)
    ensures var u := AddFiles(v, sizes, now);
            && S.Inv(u.session)
            && (Wiped(v, u) || (u == v.(session := u.session, form := u.form, stage := u.stage, error := u.error)
                                && u.session.generation == v.session.generation))
  {
    var w := v.(form := v.form.(files := v.form.files + sizes), stage := Compose, error := false);
    S.StepKeepsInv(v.session, S.DoExpire(now));
    TouchedEffect(w, now);
    ResetWipes(v.(session := S.Clear(v.session)), v);
    hide S.Inv, Sum, Touched, S.Clear, Utf8.Encode, Reset;
  }

  lemma EventEffect(v: View, e: S.Event)
    requires S.Inv(v.session) && S.Enabled(v.session, S.StepOf(e, HasData(v)))
    ensures var (s, cleared) := S.Apply(v.session, S.StepOf(e, HasData(v)));
            && S.Inv(s)
            && if cleared then Wiped(v, After(v, s, true)) else s.generation == v.session.generation
  {
    S.StepKeepsInv(v.session, S.StepOf(e, HasData(v)));
  }

  lemma TicketsKept(w: World, a: Step)
    requires Tickets(w) && Enabled(w, a)
    ensures Tickets(Next(w, a))
  {
    hide Submit, AddFiles;
    match a
    case StartInit(op, now) => InitEffect(w.v, now);
    case StartSubmit(op, now) => SubmitEffect(w.v, now);
    case BeginRevoke(op, now) => RevokeEffect(w.v, now);
    case Add(sizes, now) => AddEffect(w.v, sizes, now);
    case Settle(op, o, now) =>
      ResumeEffect(w.v, w.frames[op], o, now);
      ContinueKeepsSession(w.v, w.frames[op], o);
      hide Resume, Continue;
    case Happens(e) => EventEffect(w.v, e);
    case Fill(_) =>
    case Edit =>
  }

  ghost predicate Moved(w: World, x: World, op: nat, next: Option<Frame>) {
    && x.v.session.generation == w.v.session.generation
    && x.frames == Suspend(w.frames, op, next)
    && (next.Some? ==> next.value.t == S.TicketOf(x.v.session))
  }

  lemma MovedWork(w: World, x: World, op: nat, next: Option<Frame>)
    requires Moved(w, x, op, next) && S.Inv(x.v.session)
    ensures CurrentWork(x) == CurrentWork(w) - {op} + (if next.Some? && IsWork(next.value) then {op} else {})
    ensures forall q :: q in CurrentWork(w) && q != op ==> q in CurrentWork(x) && x.frames[q] == w.frames[q]
  {
  }

  lemma WipedKeepsInv(w: World, x: World, op: nat)
    requires Inv(w) && Tickets(x) && Wiped(w.v, x.v) && (x.frames == w.frames || x.frames == w.frames - {op})
    ensures Inv(x)
  {
    assert CurrentWork(x) == {};
    hide Tickets, CurrentWork;
  }

  // One operation moved, and it is not and was not work of this generation.
  lemma OtherKeepsInv(w: World, x: World, op: nat, next: Option<Frame>)
    requires Inv(w) && Tickets(x) && Moved(w, x, op, next) && LinkAgrees(x.v)
    requires op in w.frames ==> !(IsCurrent(w, op) && IsWork(w.frames[op]))
    requires next.Some? ==> !IsWork(next.value)
    requires x.v.busy == w.v.busy && x.v.receipt == w.v.receipt
    ensures Inv(x)
  {
    MovedWork(w, x, op, next);
    assert op !in CurrentWork(w);
    assert CurrentWork(x) == CurrentWork(w);
    hide Tickets, CurrentWork, Moved, LinkAgrees;
  }

  lemma WorkStarts(w: World, x: World, op: nat, f: Frame)
    requires Inv(w) && Tickets(x) && Moved(w, x, op, Some(f)) && IsWork(f) && !w.v.busy && x.v.busy && LinkAgrees(x.v)
    requires f.Revoking? ==> x.v.receipt == Some(f.receipt)
    ensures Inv(x)
  {
    MovedWork(w, x, op, Some(f));
    assert CurrentWork(w) == {};
    assert CurrentWork(x) == {op};
    hide Tickets, CurrentWork, LinkAgrees;
  }

  // The only current work goes on, or ends.
  lemma WorkGoesOn(w: World, x: World, op: nat, next: Option<Frame>)
    requires Inv(w) && Tickets(x) && Moved(w, x, op, next) && IsCurrent(w, op) && IsWork(w.frames[op]) && LinkAgrees(x.v)
    requires next.Some? ==> IsWork(next.value) && x.v.busy && !next.value.Revoking?
    requires next.None? ==> !x.v.busy
    ensures Inv(x)
  {
    MovedWork(w, x, op, next);
    assert op in CurrentWork(w);
    assert CurrentWork(w) == {op} by { Single(CurrentWork(w), op); }
    if next.Some? {
      assert CurrentWork(x) == {op};
    } else {
      assert CurrentWork(x) == {};
    }
    hide Tickets, CurrentWork, LinkAgrees;
  }

  lemma Single(s: set<nat>, x: nat)
    requires x in s && |s| <= 1
    ensures s == {x}
  {
    assert |s - {x}| == |s| - 1;
    assert s - {x} == {};
  }

  lemma SettleKeepsInv(w: World, op: nat, o: Outcome, now: int)
    requires Inv(w) && Enabled(w, Settle(op, o, now)) && Tickets(Next(w, Settle(op, o, now)))
    ensures Inv(Next(w, Settle(op, o, now)))
  {
    var x := Next(w, Settle(op, o, now));
    var f := w.frames[op];
    ResumeEffect(w.v, f, o, now);
    ContinueKeepsSession(w.v, f, o);
    var next := Resume(w.v, f, o, now).1;
    if f.t.generation == w.v.session.generation && !S.IsExpired(w.v.session, now) {
      assert IsWork(f) ==> op in CurrentWork(w);
      ContinueKeepsLink(w.v, f, o, f.Revoking?);
    }
    hide Resume, Tickets, Inv, Continue;
    if f.t.generation != w.v.session.generation {
      OtherKeepsInv(w, x, op, None);
    } else if S.IsExpired(w.v.session, now) {
      WipedKeepsInv(w, x, op);
    } else if IsWork(f) {
      WorkGoesOn(w, x, op, next);
    } else {
      OtherKeepsInv(w, x, op, next);
    }
  }

  lemma ContinueKeepsLink(v: View, f: Frame, o: Outcome, revoking: bool)
    requires Answers(o, f) && LinkAgrees(v) && (f.Revoking? ==> v.receipt == Some(f.receipt))
    ensures var (u, next) := Continue(v, f, o);
            && LinkAgrees(u)
            && (next.Some? ==> u.busy == v.busy && !next.value.Revoking?)
            && (if IsWork(f) then next.None? ==> !u.busy else u.busy == v.busy && u.receipt == v.receipt)
  {
  }

  lemma TicketsAgree(w: World)
    requires Inv(w)
    ensures Tickets(w) && S.Inv(w.v.session)
    ensures forall op :: op in w.frames ==> w.frames[op].t.signal == w.frames[op].t.generation <= w.v.session.generation
  {
  }

  lemma StepKeepsInv(w: World, a: Step)
    requires Inv(w) && Enabled(w, a)
    ensures Inv(Next(w, a))
  {
    TicketsKept(w, a);
    var x := Next(w, a);
    hide Submit, StartRevoke, AddFiles, Resume, Tickets, CurrentWork;
    match a
    case StartInit(op, now) =>
      InitEffect(w.v, now);
      hide Inv, Init;
      if S.IsExpired(w.v.session, now) {
        LateInitKeepsInv(w, x, op, now);
      } else {
        OtherKeepsInv(w, x, op, Some(Init(w.v, now).1));
      }
    case StartSubmit(op, now) =>
      SubmitEffect(w.v, now);
      StartKeepsInv(w, x, op, Submit(w.v, now).1);
    case BeginRevoke(op, now) =>
      RevokeEffect(w.v, now);
      StartKeepsInv(w, x, op, StartRevoke(w.v, now).1);
    case Settle(op, o, now) => SettleKeepsInv(w, op, o, now);
    case _ => InPlaceKeepsInv(w, a);
  }

  // The steps that start and resume nothing.
  lemma InPlaceKeepsInv(w: World, a: Step)
    requires Inv(w) && Enabled(w, a) && Tickets(Next(w, a)) && (a.Add? || a.Happens? || a.Fill? || a.Edit?)
    ensures Inv(Next(w, a))
  {
    var x := Next(w, a);
    hide AddFiles, Tickets, Inv, CurrentWork;
    match a
    case Add(sizes, now) =>
      AddEffect(w.v, sizes, now);
      if Wiped(w.v, x.v) {
        WipedKeepsInv(w, x, 0);
      } else {
        SameWork(w, x);
      }
    case Happens(e) =>
      EventEffect(w.v, e);
      if S.Apply(w.v.session, S.StepOf(e, HasData(w.v))).1 {
        WipedKeepsInv(w, x, 0);
      } else {
        SameWork(w, x);
      }
    case Fill(_) => SameWork(w, x);
    case Edit => SameWork(w, x);
  }

  lemma StartKeepsInv(w: World, x: World, op: nat, next: Option<Frame>)
    requires Inv(w) && Tickets(x) && op !in w.frames && x.frames == Suspend(w.frames, op, next)
    requires if next.Some? then
               && IsWork(next.value) && next.value.t == S.TicketOf(x.v.session) && !w.v.busy && x.v.busy
               && x.v.session.generation == w.v.session.generation && LinkAgrees(x.v)
               && (next.value.Revoking? ==> x.v.receipt == Some(next.value.receipt))
             else Wiped(w.v, x.v) || x.v == w.v.(error := x.v.error)
    ensures Inv(x)
  {
    hide Tickets, CurrentWork;
    assert w.frames - {op} == w.frames;
    if next.Some? {
      WorkStarts(w, x, op, next.value);
    } else if Wiped(w.v, x.v) {
      WipedKeepsInv(w, x, op);
    } else {
      OtherKeepsInv(w, x, op, None);
    }
  }

  // A connection may start by clearing a session whose deadline has passed.
  lemma LateInitKeepsInv(w: World, x: World, op: nat, now: int)
    requires Inv(w) && Tickets(x) && Wiped(w.v, x.v) && op !in w.frames
    requires x.frames == w.frames[op := Connecting(S.TicketOf(x.v.session))]
    ensures Inv(x)
  {
    assert CurrentWork(x) == {};
    hide Tickets, CurrentWork;
  }

  lemma SameWork(w: World, x: World)
    requires Inv(w) && Tickets(x) && x == w.(v := x.v) && x.v.session.generation == w.v.session.generation
    requires x.v == w.v.(session := x.v.session, form := x.v.form, stage := x.v.stage, error := x.v.error)
    ensures Inv(x)
  {
    assert CurrentWork(x) == CurrentWork(w);
    hide CurrentWork, Tickets;
  }

  // ---- Whole runs -------------------------------------------------------------------------------------

  ghost predicate IsRun(w: World, steps: seq<Step>)
    requires Inv(w)
    decreases |steps|
  {
    steps == [] || (Enabled(w, steps[0]) && (StepKeepsInv(w, steps[0]); IsRun(Next(w, steps[0]), steps[1..])))
  }

  ghost function Exec(w: World, steps: seq<Step>): (x: World)
    requires Inv(w) && IsRun(w, steps)
    ensures Inv(x)
    decreases |steps|
  {
    if steps == [] then w
    else
      StepKeepsInv(w, steps[0]);
      Exec(Next(w, steps[0]), steps[1..])
  }

  /** In every interleaving the page is busy exactly while one submission or revocation of its current
      generation is in flight, and what is offered for revocation is the note whose link is shown. */
  lemma BusyMeansOneOperation(steps: seq<Step>)
    ensures Inv(START)
    ensures IsRun(START, steps) ==>
              var w := Exec(START, steps);
              && (w.v.busy <==> |CurrentWork(w)| == 1) && |CurrentWork(w)| <= 1
              && (w.v.canRevoke <==> w.v.link.Some?)
              && (w.v.link.Some? ==> w.v.receipt.Some? && w.v.receipt.value.id == w.v.link.value.id)
  {
    S.StartIsInv();
    assert CurrentWork(START) == {};
  }

  /** A link appears only for the note that the submission in flight sealed and the service stored
      under that identifier, before the deadline. */
  lemma LinkComesFromTheSubmission(w: World, a: Step)
    requires Inv(w) && Enabled(w, a)
    ensures var x := Next(w, a);
            x.v.link.Some? && x.v.link != w.v.link ==>
              && a.Settle? && CurrentWork(w) == {a.op} && w.frames[a.op].Uploading? && a.o.Received?
              && var sealed := w.frames[a.op].sealed;
                 && a.o.id == sealed.id && x.v.link.value == Link(sealed.id, sealed.secret)
                 && x.v.receipt == Some(Receipt(sealed.id, sealed.revokeToken)) && !S.IsExpired(w.v.session, a.now)
  {
    hide Submit, StartRevoke, AddFiles, Init;
    match a
    case StartInit(op, now) => InitEffect(w.v, now);
    case StartSubmit(op, now) => SubmitEffect(w.v, now);
    case BeginRevoke(op, now) => RevokeEffect(w.v, now);
    case Add(sizes, now) => AddEffect(w.v, sizes, now);
    case Settle(op, o, now) =>
      ResumeEffect(w.v, w.frames[op], o, now);
      if op in CurrentWork(w) {
        Single(CurrentWork(w), op);
      }
      hide Resume;
    case Happens(e) => EventEffect(w.v, e);
    case Fill(_) =>
    case Edit =>
  }

  /** The draft survives every failure: a settled operation removes it only when it shows the link. */
  lemma FailureKeepsTheDraft(w: World, op: nat, o: Outcome, now: int)
    requires Inv(w) && Enabled(w, Settle(op, o, now))
    ensures var x := Next(w, Settle(op, o, now));
            x.v.form.text != w.v.form.text || x.v.form.files != w.v.form.files || x.v.form.passphrase != w.v.form.passphrase ==>
              || Wiped(w.v, x.v)
              || (w.frames[op].Uploading? && x.v.link == Some(Link(w.frames[op].sealed.id, w.frames[op].sealed.secret)))
  {
    ResumeEffect(w.v, w.frames[op], o, now);
    hide Resume, Inv;
  }

  // Nothing sensitive is left, and every submission and revocation in flight was overtaken.
  ghost predicate Quiescent(w: World) {
    && w.v.form.text == [] && w.v.form.files == [] && w.v.form.passphrase == []
    && w.v.link.None? && w.v.receipt.None? && !w.v.busy
    && forall op :: op in w.frames && IsWork(w.frames[op]) ==> !IsCurrent(w, op)
  }

  // Only files and the keyboard bring new data.
  predicate UserActs(a: Step) {
    a.Add? || a.Fill?
  }

  // A manual clear, a hidden tab, or an expiry that a check, a timer, a ticket, a continuation or a
  // call of the user finds.
  ghost predicate Clears(w: World, a: Step)
    requires Tickets(w) && Enabled(w, a)
  {
    Next(w, a).v.session.generation > w.v.session.generation
  }

  lemma ClearIsQuiescent(w: World, a: Step)
    requires Tickets(w) && Enabled(w, a) && Clears(w, a)
    ensures Quiescent(Next(w, a))
  {
    hide Submit, AddFiles, StartRevoke;
    match a
    case StartInit(op, now) => InitEffect(w.v, now);
    case StartSubmit(op, now) => SubmitEffect(w.v, now);
    case BeginRevoke(op, now) => RevokeEffect(w.v, now);
    case Add(sizes, now) => AddEffect(w.v, sizes, now);
    case Settle(op, o, now) =>
      ResumeEffect(w.v, w.frames[op], o, now);
      hide Resume, Continue;
    case Happens(e) => EventEffect(w.v, e);
    case _ =>
  }

  lemma QuiescentStep(w: World, a: Step)
    requires Tickets(w) && Quiescent(w) && Enabled(w, a) && !UserActs(a)
    ensures Quiescent(Next(w, a))
  {
    match a
    case StartInit(op, now) => InitEffect(w.v, now);
    case StartSubmit(op, now) =>
      SubmitEffect(w.v, now);
      BlankIsRefused(w.v, now);
      hide Submit;
    case BeginRevoke(op, now) =>
      RevokeEffect(w.v, now);
      hide StartRevoke;
    case Settle(op, o, now) =>
      ResumeEffect(w.v, w.frames[op], o, now);
      if w.frames[op].Connecting? {
        ConnectingKeepsBlank(w.v, w.frames[op], o);
      }
      hide Resume, Continue;
    case Happens(e) => EventEffect(w.v, e);
    case Edit =>
  }

  lemma BlankIsRefused(v: View, now: int)
    requires S.WellFormed(v.session) && v.form.text == [] && v.form.files == []
    ensures Submit(v, now).1.None?
  {
    hide Utf8.Encode, StartSealing;
  }

  lemma ConnectingKeepsBlank(v: View, f: Frame, o: Outcome)
    requires Answers(o, f) && f.Connecting?
    ensures var (u, next) := Continue(v, f, o);
            && next.None? && u.session == v.session && u.busy == v.busy && u.link == v.link && u.receipt == v.receipt
            && u.form.text == v.form.text && u.form.files == v.form.files && u.form.passphrase == v.form.passphrase
  {
  }

  lemma {:induction false} StaysQuiescent(w: World, steps: seq<Step>)
    requires Inv(w) && Quiescent(w) && IsRun(w, steps) && forall a :: a in steps ==> !UserActs(a)
    ensures Quiescent(Exec(w, steps))
    decreases |steps|
  {
    if steps != [] {
      StepKeepsInv(w, steps[0]);
      QuiescentStep(w, steps[0]);
      StaysQuiescent(Next(w, steps[0]), steps[1..]);
    }
  }

  /** From any step on that clears, however the clear came about, nothing comes back until the user adds
      a file or types: whatever is still in flight, however it settles, and whatever is submitted. */
  lemma NothingComesBack(w: World, steps: seq<Step>)
    requires Inv(w) && steps != [] && IsRun(w, steps) && Clears(w, steps[0])
    requires forall a :: a in steps[1..] ==> !UserActs(a)
    ensures Quiescent(Exec(w, steps))
  {
    StepKeepsInv(w, steps[0]);
    ClearIsQuiescent(w, steps[0]);
    StaysQuiescent(Next(w, steps[0]), steps[1..]);
  }
}
