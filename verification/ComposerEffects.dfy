/** What the composer page does with a draft, step by step: which drafts are sealed and sent, what a
    creation and a revocation leave behind, and how long anything stays. */
module ComposerEffects {
  import opened Wrappers
  import S = Session
  import Utf8
  import opened ComposerSteps

  predicate IsOnTime(v: View, now: int) {
    v.session.deadline == 0 || now < v.session.deadline
  }

  // The continuation belongs to the current generation, before its deadline.
  predicate IsInTime(w: World, op: nat, now: int) {
    IsCurrent(w, op) && IsOnTime(w.v, now)
  }

  lemma SettleIs(w: World, op: nat, o: Outcome, now: int)
    requires Tickets(w) && Enabled(w, Settle(op, o, now)) && IsInTime(w, op, now)
    ensures var (v, next) := Continue(w.v, w.frames[op], o);
            Next(w, Settle(op, o, now)) == World(v, if next.Some? then w.frames[op := next.value] else w.frames - {op})
  {
    ResumeEffect(w.v, w.frames[op], o, now);
    hide Resume, Continue, S.Inv;
  }

  // ---- Submitting ---------------------------------------------------------------------------------

  // The code points that \s matches (section 22.2.2.9 of ECMA-262).
  const WHITE: set<int> := {9, 10, 11, 12, 13, 32, 160, 5760, 8192, 8193, 8194, 8195, 8196, 8197, 8198, 8199, 8200, 8201, 8202,
                            8232, 8233, 8239, 8287, 12288, 65279}

  // The sum of the sizes, from the last one.
  function Total(sizes: seq<nat>): nat {
    if sizes == [] then 0 else Total(sizes[..|sizes| - 1]) + sizes[|sizes| - 1]
  }

  lemma {:induction false} TotalPrepends(n: nat, sizes: seq<nat>)
    ensures Total([n] + sizes) == n + Total(sizes)
  {
    if sizes != [] {
      var k := |sizes| - 1;
      assert ([n] + sizes)[..k + 1] == [n] + sizes[..k];
      TotalPrepends(n, sizes[..k]);
    } else {
      assert ([n] + sizes)[..0] == [];
    }
  }

  lemma {:induction false} TotalIsSum(sizes: seq<nat>)
    ensures Total(sizes) == Sum(sizes)
  {
    if sizes != [] {
      TotalIsSum(sizes[1..]);
      TotalPrepends(sizes[0], sizes[1..]);
      assert sizes == [sizes[0]] + sizes[1..];
    }
  }

  // There is something to send, and it keeps within what the service allows.
  ghost predicate MayBeSent(form: Form, limits: Limits) {
    var files := if form.fileMode then form.files else [];
    && (files == [] ==> exists i :: 0 <= i < |form.text| && form.text[i] !in WHITE)
    && |files| <= limits.maxFiles
    && |Utf8.Encode(form.text)| <= limits.maxText
    && |Utf8.Encode(form.text)| + Total(files) <= limits.maxContent
    && 1 <= form.views && form.views <= limits.maxViews
    && 60 <= form.ttl && form.ttl <= limits.maxTtl
    && |form.passphrase| <= 256
  }

  lemma MayBeSentIs(form: Form, limits: Limits)
    ensures MayBeSent(form, limits) <==> Acceptable(form, limits)
  {
    TotalIsSum(if form.fileMode then form.files else []);
    assert forall u: Utf8.unit :: u in WHITE <==> IsSpace(u);
    hide Total, Sum, Utf8.Encode, IsSpace;
  }

  lemma TouchIs(v: View, now: int)
    requires S.Inv(v.session) && v.busy
    ensures var u := Touched(v, now);
            && S.Inv(u.session) && u == v.(session := u.session) && u.session.deadline == now + 300000
            && u.session.generation == v.session.generation && !S.IsExpired(u.session, now)
  {
    S.StepAnswers(v.session, S.DoTouch(now, now, true));
    S.StepKeepsInv(v.session, S.DoTouch(now, now, true));
    hide S.Inv, S.TouchAt, Reset;
  }

  lemma SealingStarts(v: View, now: int)
    requires S.Inv(v.session)
    ensures var (u, f) := StartSealing(v, now);
            && u == v.(busy := true, stage := Encrypt, error := false, copied := false, session := u.session)
            && u.session.deadline == now + 300000 && u.session.generation == v.session.generation
            && f == Sealing(S.TicketOf(u.session))
  {
    TouchIs(v.(busy := true, stage := Encrypt, error := false, copied := false), now);
    hide S.Inv, Touched, Reset;
  }

  /** A draft is sealed exactly if the page is connected and idle and the draft may be sent; the page is then
      busy, and has 300 seconds. A draft that may not be sent is reported, and otherwise nothing happens. */
  lemma SubmitStarts(w: World, op: nat, now: int)
    requires Tickets(w) && Enabled(w, StartSubmit(op, now)) && IsOnTime(w.v, now)
    ensures var v, x := w.v, Next(w, StartSubmit(op, now));
            var could := !v.busy && v.configured && v.config.Some?;
            if could && MayBeSent(v.form, v.config.value) then
              && x.v == v.(busy := true, stage := Encrypt, error := false, copied := false, session := x.v.session)
              && x.v.session.deadline == now + 300000 && x.v.session.generation == v.session.generation
              && x.frames == w.frames[op := Sealing(S.TicketOf(x.v.session))]
            else x.v == v.(error := v.error || could) && x.frames == w.frames
  {
    hide StartSealing, MayBeSent, Acceptable, S.Inv;
    SealingStarts(w.v, now);
    if w.v.config.Some? {
      MayBeSentIs(w.v.form, w.v.config.value);
    }
    assert w.frames - {op} == w.frames;
  }

  /** Sealing, the challenge and the proof follow each other; a failure of any ends the submission with the
      draft as it was. */
  lemma WorkProceeds(w: World, op: nat, o: Outcome, now: int)
    requires Tickets(w) && Enabled(w, Settle(op, o, now)) && IsInTime(w, op, now)
    requires w.frames[op].Sealing? || w.frames[op].Challenging? || w.frames[op].Proving?
    ensures var v, x, f := w.v, Next(w, Settle(op, o, now)), w.frames[op];
            match o
            case SealedAs(sealed) => x == World(v.(stage := Proof), w.frames[op := Challenging(f.t, sealed)])
            case Challenged => x == World(v, w.frames[op := Proving(f.t, f.sealed)])
            case Proven => x == World(v.(stage := Upload), w.frames[op := Uploading(f.t, f.sealed)])
            case _ => IsGivenUp(v, x.v) && x.frames == w.frames - {op}
  {
    SettleIs(w, op, o, now);
  }

  // The draft, and a link that was shown before, are as they were.
  predicate IsGivenUp(v: View, u: View) {
    && u == v.(stage := u.stage, error := true, busy := false, disposals := u.disposals)
    && u.disposals == v.disposals + 1
    && u.stage == if v.link == None then Compose else Share
  }

  /** An upload that the service confirms under the sealed identifier shows the link, keeps the receipt and
      the views granted, and removes the draft; any other answer gives up. */
  lemma UploadEnds(w: World, op: nat, o: Outcome, now: int)
    requires Tickets(w) && Enabled(w, Settle(op, o, now)) && IsInTime(w, op, now) && w.frames[op].Uploading?
    ensures var v, x, sealed := w.v, Next(w, Settle(op, o, now)), w.frames[op].sealed;
            && x.frames == w.frames - {op}
            && if o.Received? && o.id == sealed.id then
                 && x.v.link == Some(Link(sealed.id, sealed.secret)) && x.v.receipt == Some(Receipt(sealed.id, sealed.revokeToken))
                 && x.v.expiresAt == o.expires && x.v.createdViews == v.form.views && x.v.canRevoke
                 && x.v.form == Form([], [], v.form.fileMode, [], v.form.ttl, v.form.views)
                 && x.v.stage == Share && !x.v.busy && x.v.disposals == v.disposals + 1 && x.v.error == v.error
                 && x.v.session == v.session && x.v.copied == v.copied && x.v.config == v.config && x.v.configured == v.configured
               else IsGivenUp(v, x.v)
  {
    SettleIs(w, op, o, now);
  }

  // ---- Revoking -----------------------------------------------------------------------------------

  /** A revocation starts exactly if there is a receipt and the page is idle, and asks for that receipt. */
  lemma RevokeStarts(w: World, op: nat, now: int)
    requires Tickets(w) && Enabled(w, BeginRevoke(op, now)) && IsOnTime(w.v, now)
    ensures var v, x := w.v, Next(w, BeginRevoke(op, now));
            if v.receipt.Some? && !v.busy then
              && x.v == v.(busy := true, stage := Stage.Revoke)
              && x.frames == w.frames[op := Revoking(S.TicketOf(v.session), v.receipt.value)]
            else x == w
  {
    RevokeEffect(w.v, now);
    assert w.frames - {op} == w.frames;
    hide S.Inv;
  }

  /** Once the service has revoked the note the page forgets receipt and link; after a failure it still
      offers both. */
  lemma RevokeEnds(w: World, op: nat, o: Outcome, now: int)
    requires Tickets(w) && Enabled(w, Settle(op, o, now)) && IsInTime(w, op, now) && w.frames[op].Revoking?
    ensures var v, x := w.v, Next(w, Settle(op, o, now));
            && x.frames == w.frames - {op} && !x.v.busy && x.v.form == v.form && x.v.disposals == v.disposals
            && if o == RevokedThere then
                 x.v.receipt == None && x.v.link == None && !x.v.canRevoke && !x.v.copied && x.v.stage == Revoked && x.v.error == v.error
               else
                 x.v.receipt == v.receipt && x.v.link == v.link && x.v.canRevoke == v.canRevoke && x.v.stage == Share && x.v.error
  {
    SettleIs(w, op, o, now);
  }

  // ---- Files and the service ----------------------------------------------------------------------

  /** Files are added to an idle page if all of them, with the text, keep within the limits of the service,
      or before it is known within 8 files and 64 MiB; otherwise the selection stays and an error is shown. */
  lemma FilesAdded(w: World, sizes: seq<nat>, now: int)
    requires Tickets(w) && IsOnTime(w.v, now)
    ensures var v, x, all := w.v, Next(w, Add(sizes, now)), w.v.form.files + sizes;
            var files, bytes := if v.config == None then 8 else v.config.value.maxFiles,
                                if v.config == None then 67108864 else v.config.value.maxContent;
            && x.frames == w.frames
            && if v.busy then x.v == v
               else if |all| <= files && Total(all) + |Utf8.Encode(v.form.text)| <= bytes then
                 && x.v == v.(form := v.form.(files := all), stage := Compose, error := false, session := x.v.session)
                 && x.v.session.generation == v.session.generation
                 && (all != [] ==> x.v.session.deadline == now + 300000)
               else x.v == v.(error := true)
  {
    var all := w.v.form.files + sizes;
    TotalIsSum(all);
    AddedIs(w.v, all, now);
    hide S.Inv, Sum, Total, Utf8.Encode, WithFiles, Reset;
  }

  lemma AddedIs(v: View, all: seq<nat>, now: int)
    requires S.Inv(v.session) && IsOnTime(v, now)
    ensures var u := WithFiles(v, all, now);
            && u == v.(form := v.form.(files := all), stage := Compose, error := false, session := u.session)
            && u.session.generation == v.session.generation && (all != [] ==> u.session.deadline == now + 300000)
  {
    var w := v.(form := v.form.(files := all), stage := Compose, error := false);
    S.StepAnswers(v.session, S.DoTouch(now, now, HasData(w)));
    S.StepKeepsInv(v.session, S.DoTouch(now, now, HasData(w)));
    hide S.Inv, S.TouchAt, Reset;
  }

  // A week, a day, an hour, ten minutes or one.
  function LongestWithin(maxTtl: int): int {
    if maxTtl >= 604800 then 604800
    else if maxTtl >= 86400 then 86400
    else if maxTtl >= 3600 then 3600
    else if maxTtl >= 600 then 600
    else 60
  }

  /** Connecting takes the limits of the service over: a longer lifetime becomes the longest offered one
      within the limit, and more views become as many as allowed. */
  lemma ConnectionEnds(w: World, op: nat, o: Outcome, now: int)
    requires Tickets(w) && Enabled(w, Settle(op, o, now)) && IsInTime(w, op, now) && w.frames[op].Connecting?
    ensures var v, x := w.v, Next(w, Settle(op, o, now));
            && x.frames == w.frames - {op}
            && match o
               case Configured(limits) =>
                 && x.v == v.(config := Some(limits), configured := true, form := x.v.form)
                 && x.v.form == v.form.(ttl := x.v.form.ttl, views := x.v.form.views)
                 && x.v.form.views == (if v.form.views <= limits.maxViews then v.form.views else limits.maxViews)
                 && x.v.form.ttl == (if v.form.ttl <= limits.maxTtl then v.form.ttl else LongestWithin(limits.maxTtl))
               case _ => x.v == v.(error := true, configured := false)
  {
    SettleIs(w, op, o, now);
    if o.Configured? {
      LongestLifetime(o.limits.maxTtl);
    }
  }

  lemma LongestLifetime(maxTtl: int)
    requires maxTtl >= 60
    ensures Lifetime(LIFETIMES, maxTtl) == LongestWithin(maxTtl)
  {
    assert LIFETIMES[1..] == [86400, 3600, 600, 60] && LIFETIMES[1..][1..] == [3600, 600, 60];
    assert [3600, 600, 60][1..] == [600, 60] && [600, 60][1..] == [60];
    assert Lifetime([60], maxTtl) == 60;
    assert Lifetime([600, 60], maxTtl) == if 600 <= maxTtl then 600 else 60;
    assert Lifetime([3600, 600, 60], maxTtl) == if 3600 <= maxTtl then 3600 else Lifetime([600, 60], maxTtl);
  }

  // ---- Staying ----------------------------------------------------------------------------------

  // Something that must not stay on an unattended page.
  predicate IsSensitive(v: View) {
    v.busy || v.link != None || |v.form.passphrase| > 0 || |v.form.text| > 0 || |v.form.files| > 0
  }

  /** The deadline stays while anything sensitive is on the page, and is dropped once nothing is; activity
      moves it to 300 seconds from now. */
  lemma DeadlineStays(w: World, e: S.Event)
    requires Tickets(w) && Enabled(w, Happens(e)) && (e.Checked? || e.Fired? || e.Acted?) && IsOnTime(w.v, e.now)
    ensures var x := Next(w, Happens(e)).v;
            && x == w.v.(session := x.session) && x.session.generation == w.v.session.generation
            && x.session.deadline == if !IsSensitive(w.v) then 0 else if e.Acted? then e.now + 300000 else w.v.session.deadline
  {
    S.StepAnswers(w.v.session, S.StepOf(e, HasData(w.v)));
    EventEffect(w.v, e);
    hide S.Apply;
  }

  /** At the deadline the first look of any kind empties the page; the choices of lifetime and views stay. */
  lemma DeadlineClears(w: World, e: S.Event)
    requires Tickets(w) && Enabled(w, Happens(e)) && (e.Checked? || e.Fired? || e.Acted? || e.Asked?)
    requires !IsOnTime(w.v, e.now)
    ensures Wiped(w.v, Next(w, Happens(e)).v)
  {
    S.StepAnswers(w.v.session, S.StepOf(e, HasData(w.v)));
    EventEffect(w.v, e);
    hide S.Apply;
  }
}
