/** What the reader page shows and asks for, step by step and over whole runs: when a note is ready, when
    it may be opened, what an open leaves behind, and how long anything stays. */
module ReaderEffects {
  import opened Wrappers
  import S = Session
  import opened ReaderSteps

  // The continuation belongs to the current generation, before its deadline.
  predicate IsInTime(w: World, op: nat, now: int) {
    IsCurrent(w, op) && (w.v.session.deadline == 0 || now < w.v.session.deadline)
  }

  lemma SettleIs(w: World, op: nat, o: Outcome, now: int)
    requires Tickets(w) && Enabled(w, Settle(op, o, now)) && IsInTime(w, op, now)
    ensures var (v, next) := Continue(w.v, w.frames[op], o);
            var x := Next(w, Settle(op, o, now));
            && x.v == v && x.frames == (if next.Some? then w.frames[op := next.value] else w.frames - {op})
            && x.called == w.called + (if next.Some? && next.value.OpenFetch? then [v.id] else [])
  {
    ResumeEffect(w.v, w.frames[op], o, now);
    hide Resume, Continue, Accepted, S.Inv;
  }

  // ---- Loading ----------------------------------------------------------------------------------

  // Nothing of a note that was shown or could be opened changed.
  predicate SameNote(v: View, u: View) {
    && u.content == v.content && u.passphrase == v.passphrase && u.busy == v.busy && u.session == v.session
  }

  /** A load starts at once, shows that it is under way, and gives the page 300 seconds. */
  lemma LoadStarts(w: World, op: nat, now: int)
    requires Tickets(w) && Enabled(w, StartLoad(op, now))
    ensures var v, x := w.v, Next(w, StartLoad(op, now));
            && x.v == v.(phase := Loading, error := false, session := x.v.session)
            && x.v.session.generation == v.session.generation && x.v.session.deadline == now + 300000
            && x.frames == w.frames[op := LoadLink(S.TicketOf(x.v.session))] && x.called == w.called
  {
    S.StepAnswers(w.v.session, S.DoTouch(now, now, true));
    LoadEffect(w.v, now);
    hide S.Inv, S.TouchAt, Reset;
  }

  /** A load ends with a note that is ready exactly if the header names the identifier of the link and grants
      at least the views that are left; expiry, views and the need of a passphrase are then as answered. Any
      other end disposes of the worker and forgets the link. */
  lemma LoadEnds(w: World, op: nat, o: Outcome, now: int)
    requires Tickets(w) && Enabled(w, Settle(op, o, now)) && IsInTime(w, op, now) && w.frames[op].LoadInspect?
    ensures var v, x, m := w.v, Next(w, Settle(op, o, now)), w.frames[op].metadata;
            && op !in x.frames && SameNote(v, x.v) && x.called == w.called
            && if o.Inspected? && o.id == v.id && m.remaining <= o.views then
                 && x.v.phase == Ready && x.v.id == v.id && x.v.metadata == Some(m)
                 && x.v.expiresAt == m.expires && x.v.remaining == m.remaining && x.v.required == o.argon2id
                 && x.v.disposals == v.disposals && x.v.error == v.error
               else
                 && x.v.phase == Broken && x.v.id == "" && x.v.error && x.v.disposals == v.disposals + 1
                 && x.v.metadata == v.metadata
  {
    SettleIs(w, op, o, now);
  }

  /** Before that, the link gives the identifier and the service the metadata; a failure of either ends it. */
  lemma LoadProceeds(w: World, op: nat, o: Outcome, now: int)
    requires Tickets(w) && Enabled(w, Settle(op, o, now)) && IsInTime(w, op, now)
    requires w.frames[op].LoadLink? || w.frames[op].LoadMeta?
    ensures var v, x, t := w.v, Next(w, Settle(op, o, now)), w.frames[op].t;
            && SameNote(v, x.v) && x.v.metadata == v.metadata && x.called == w.called
            && match o
               case Link(id) => x.v.id == id && x.v.phase == v.phase && x.frames == w.frames[op := LoadMeta(t)]
               case Meta(m) => x.v == v && x.frames == w.frames[op := LoadInspect(t, m)]
               case _ => x.v.id == "" && x.v.phase == Broken && x.v.error && x.v.disposals == v.disposals + 1 && op !in x.frames
  {
    SettleIs(w, op, o, now);
  }

  // What is shown of a note that is ready is its metadata.
  ghost predicate ShowsMetadata(v: View) {
    v.phase == Ready ==> v.metadata == Some(Metadata(v.expiresAt, v.remaining))
  }

  lemma ShowsMetadataStep(w: World, a: Step)
    requires Tickets(w) && Enabled(w, a) && ShowsMetadata(w.v)
    ensures ShowsMetadata(Next(w, a).v)
  {
    match a
    case StartLoad(op, now) => LoadEffect(w.v, now);
    case StartOpen(op, now) => OpenEffect(w.v, now);
    case Settle(op, o, now) =>
      ResumeEffect(w.v, w.frames[op], o, now);
      hide Resume;
    case Happens(e) => EventEffect(w.v, e);
    case Type(_) =>
  }

  /** In every run, while a note is ready the page shows the expiry and the views of its accepted metadata. */
  lemma {:induction false} ReadyShowsMetadata(w: World, steps: seq<Step>)
    requires Inv(w) && IsRun(w, steps) && ShowsMetadata(w.v)
    ensures ShowsMetadata(Exec(w, steps).v)
    decreases |steps|
  {
    hide Next, ShowsMetadata, Inv, Enabled;
    if steps != [] {
      InvHasTickets(w);
      StepKeepsInv(w, steps[0]);
      ShowsMetadataStep(w, steps[0]);
      ReadyShowsMetadata(Next(w, steps[0]), steps[1..]);
    }
  }

  lemma InvHasTickets(w: World)
    requires Inv(w)
    ensures Tickets(w)
  {
  }

  // ---- Opening ----------------------------------------------------------------------------------

  /** An open starts exactly on a ready note that is not being opened, in time, and with a passphrase where
      one is needed; a missing passphrase is reported, and otherwise nothing happens. */
  lemma OpenStarts(w: World, op: nat, now: int)
    requires Tickets(w) && Enabled(w, StartOpen(op, now)) && (w.v.session.deadline == 0 || now < w.v.session.deadline)
    ensures var v, x := w.v, Next(w, StartOpen(op, now));
            var could := !v.busy && v.phase == Ready && v.id != "" && v.metadata.Some?;
            if could && (v.required ==> v.passphrase != "") then
              && x.v == v.(busy := true, error := false)
              && x.frames == w.frames[op := OpenPrepare(S.Ticket(v.session.generation, v.session.controller))]
            else x.v == v.(error := v.error || could) && x.frames == w.frames
  {
    OpenEffect(w.v, now);
    assert w.frames - {op} == w.frames;
    hide S.Inv;
  }

  /** An open sends its one request only after the passphrase has been checked and forgotten. */
  lemma PreparedRequests(w: World, op: nat, o: Outcome, now: int)
    requires Tickets(w) && Enabled(w, Settle(op, o, now)) && IsInTime(w, op, now) && w.frames[op].OpenPrepare?
    ensures var v, x, t := w.v, Next(w, Settle(op, o, now)), w.frames[op].t;
            && x.v.passphrase == "" && x.v.id == v.id && x.v.metadata == v.metadata && x.v.phase == v.phase
            && x.v.content == v.content && x.v.disposals == v.disposals && x.v.remaining == v.remaining
            && if o == Access then
                 x.v.busy == v.busy && x.v.error == v.error && x.frames == w.frames[op := OpenFetch(t)] && x.called == w.called + [v.id]
               else !x.v.busy && x.v.error && op !in x.frames && x.called == w.called
  {
    SettleIs(w, op, o, now);
  }

  /** Once it is sent, an open ends by showing the content with one view less, or with an error; either way
      the note is forgotten and the worker disposed of. */
  lemma RequestEnds(w: World, op: nat, o: Outcome, now: int)
    requires Tickets(w) && Enabled(w, Settle(op, o, now)) && IsInTime(w, op, now)
    requires w.frames[op].OpenFetch? || w.frames[op].OpenDecrypt?
    ensures var v, x, t := w.v, Next(w, Settle(op, o, now)), w.frames[op].t;
            && x.called == w.called
            && if o == Packet then x.v == v && x.frames == w.frames[op := OpenDecrypt(t)]
               else
                 && x.v.id == "" && x.v.metadata == None && !x.v.busy && x.v.disposals == v.disposals + 1 && op !in x.frames
                 && match o
                    case Decrypted(content) =>
                      && x.v.content == Some(content) && x.v.phase == Showing && x.v.remaining == v.remaining - 1
                      && x.v.error == v.error && x.v.passphrase == v.passphrase
                    case _ =>
                      && x.v.content == v.content && x.v.phase == Broken && x.v.remaining == v.remaining
                      && x.v.error && x.v.passphrase == ""
  {
    SettleIs(w, op, o, now);
  }

  // ---- Staying ----------------------------------------------------------------------------------

  // Something that must not stay on an unattended page.
  predicate IsSensitive(v: View) {
    v.busy || v.phase == Loading || v.content != None || |v.id| > 0 || |v.passphrase| > 0
  }

  /** The deadline stays while anything sensitive is on the page, and is dropped once nothing is; activity
      moves it to 300 seconds from now. */
  lemma DeadlineStays(w: World, e: S.Event)
    requires Tickets(w) && Enabled(w, Happens(e)) && (e.Checked? || e.Fired? || e.Acted?)
    requires w.v.session.deadline == 0 || e.now < w.v.session.deadline
    ensures var x := Next(w, Happens(e)).v;
            && x == w.v.(session := x.session) && x.session.generation == w.v.session.generation
            && x.session.deadline == if !IsSensitive(w.v) then 0 else if e.Acted? then e.now + 300000 else w.v.session.deadline
  {
    S.StepAnswers(w.v.session, S.StepOf(e, HasData(w.v)));
    EventEffect(w.v, e);
    hide S.Apply;
  }

  /** At the deadline the first look of any kind empties the page. */
  lemma DeadlineClears(w: World, e: S.Event)
    requires Tickets(w) && Enabled(w, Happens(e)) && (e.Checked? || e.Fired? || e.Acted? || e.Asked?)
    requires w.v.session.deadline != 0 && e.now >= w.v.session.deadline
    ensures Wiped(w.v, Next(w, Happens(e)).v)
  {
    S.StepAnswers(w.v.session, S.StepOf(e, HasData(w.v)));
    EventEffect(w.v, e);
    hide S.Apply;
  }
}
