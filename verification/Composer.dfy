/** The composer page as the object it is. The public methods run the synchronous code up to the next
    await; each is proved to be one transition of module ComposerSteps and to keep its invariant, so that
    in every order of calls busy means exactly one operation in flight, and what can be revoked is the
    note whose link is shown. */
module Composers {
  import opened Wrappers
  import S = Session
  import opened SensitiveSessions
  import C = ComposerSteps
  import Utf8

  // The operations suspended at an await, which the browser keeps.
  class Runtime {
    var frames: map<nat, C.Frame>

    constructor ()
      ensures frames == map[]
    {
      frames := map[];
    }
  }

  class Composer {
    const session: SensitiveSession
    const runtime: Runtime
    var form: C.Form
    var stage: C.Stage
    var busy: bool
    var configured: bool
    var config: Option<C.Limits>
    var error: bool
    var link: Option<C.Link>
    var expiresAt: int
    var copied: bool
    var canRevoke: bool
    var createdViews: int
    var receipt: Option<C.Receipt>
    // How often the worker was terminated.
    ghost var disposals: nat

    ghost function View(): C.View
      reads this, session
    {
      C.View(session.Now(), form, stage, busy, configured, config, error, link, expiresAt, copied, canRevoke, createdViews,
             receipt, disposals)
    }

    ghost function World(): C.World
      reads this, session, runtime
    {
      C.World(View(), runtime.frames)
    }

    ghost predicate Valid()
      reads this, session, runtime
    {
      C.Inv(World())
    }

    constructor ()
      ensures fresh(session) && fresh(runtime) && Valid() && World() == C.START
    {
      session := new SensitiveSession();
      runtime := new Runtime();
      form, stage := C.Form([], [], false, [], 3600, 1), C.Compose;
      busy, configured, config, error, link, expiresAt := false, false, None, false, None, 0;
      copied, canRevoke, createdViews, receipt, disposals := false, false, 0, None, 0;
      new;
      C.BusyMeansOneOperation([]);
    }

    // ---- The methods of the page

    method Init(op: nat, now: int)
      requires Valid() && op !in runtime.frames
      modifies this, session, runtime
      ensures Valid() && World() == C.Next(old(World()), C.StartInit(op, now))
    {
      hide C.Inv, C.Tickets, C.Init, S.Inv;
      C.TicketsAgree(World());
      C.StepKeepsInv(World(), C.StartInit(op, now));
      var f := BeginInit(now);
      runtime.frames := runtime.frames[op := f];
    }

    method Submit(op: nat, now: int)
      requires Valid() && op !in runtime.frames
      modifies this, session, runtime
      ensures Valid() && World() == C.Next(old(World()), C.StartSubmit(op, now))
    {
      hide C.Inv, C.Tickets, C.Submit, S.Inv;
      C.TicketsAgree(World());
      C.StepKeepsInv(World(), C.StartSubmit(op, now));
      var next := BeginSubmit(now);
      runtime.frames := C.Suspend(runtime.frames, op, next);
    }

    method Revoke(op: nat, now: int)
      requires Valid() && op !in runtime.frames
      modifies this, session, runtime
      ensures Valid() && World() == C.Next(old(World()), C.BeginRevoke(op, now))
    {
      hide C.Inv, C.Tickets, C.StartRevoke, S.Inv;
      C.TicketsAgree(World());
      C.StepKeepsInv(World(), C.BeginRevoke(op, now));
      var next := BeginRevoke(now);
      runtime.frames := C.Suspend(runtime.frames, op, next);
    }

    // The promise an operation awaits has settled.
    method Resume(op: nat, o: C.Outcome, now: int)
      requires Valid() && op in runtime.frames && C.Answers(o, runtime.frames[op])
      modifies this, session, runtime
      ensures Valid() && World() == C.Next(old(World()), C.Settle(op, o, now))
    {
      hide C.Inv, C.Tickets, C.Resume, C.IsWork, C.Answers, S.Inv;
      C.TicketsAgree(World());
      C.StepKeepsInv(World(), C.Settle(op, o, now));
      var next := ResumePiece(runtime.frames[op], o, now);
      runtime.frames := C.Suspend(runtime.frames, op, next);
    }

    method AddFiles(sizes: seq<nat>, now: int)
      requires Valid()
      modifies this, session, runtime
      ensures Valid() && World() == C.Next(old(World()), C.Add(sizes, now))
    {
      hide C.Inv, C.Tickets, C.AddFiles, S.Inv;
      C.TicketsAgree(World());
      C.StepKeepsInv(World(), C.Add(sizes, now));
      TakeFiles(sizes, now);
    }

    method Clear()
      requires Valid()
      modifies this, session, runtime
      ensures Valid() && World() == C.Next(old(World()), C.Happens(S.Cleared))
    {
      hide C.Inv, C.Tickets, C.Reset, S.Clear, S.Inv, S.Core, S.Cancelled;
      C.TicketsAgree(World());
      C.StepKeepsInv(World(), C.Happens(S.Cleared));
      S.NothingPending(session.Now());
      session.Clear();
      Reset();
    }

    method TimerFires(timer: S.TimerId, now: int)
      requires Valid() && timer in session.pending && session.pending[timer] <= now
      modifies this, session, runtime
      ensures Valid() && World() == C.Next(old(World()), C.Happens(S.Fired(timer, now)))
    {
      hide C.Inv, C.Tickets, C.Reset, S.Fire, S.Inv;
      C.TicketsAgree(World());
      C.StepKeepsInv(World(), C.Happens(S.Fired(timer, now)));
      var cleared := session.Fire(timer, now, HasData());
      if cleared {
        Reset();
      }
    }

    // ---- The pieces between two awaits

    predicate HasData()
      reads this
    {
      form.text != [] || form.files != [] || form.passphrase != [] || link.Some? || busy
    }

    method Reset()
      modifies this
      ensures View() == C.Reset(old(View()))
    {
      assert session.Now() == old(session.Now());
      receipt, disposals := None, disposals + 1;
      stage, form := C.Compose, form.(text := [], files := [], passphrase := []);
      link, expiresAt, copied, error, busy := None, 0, false, false, false;
      canRevoke, createdViews := false, 0;
    }

    method Touch(now: int)
      requires session.Valid()
      modifies this, session
      ensures session.Valid() && View() == C.Touched(old(View()), now)
    {
      hide S.TouchAt, S.Inv, C.Reset;
      var cleared := session.TouchAt(now, now, HasData());
      if cleared {
        Reset();
      }
    }

    method BeginInit(now: int) returns (next: C.Frame)
      requires session.Valid()
      modifies this, session
      ensures (View(), next) == C.Init(old(View()), now)
    {
      var t, cleared := session.TakeTicket(now);
      if cleared {
        Reset();
      }
      error := false;
      next := C.Connecting(t);
    }

    method ResumeInit(f: C.Frame, o: C.Outcome, now: int)
      requires session.Valid() && f.t.signal == f.t.generation <= session.generation && C.Answers(o, f) && f.Connecting?
      modifies this, session
      ensures (View(), None) == C.Resume(old(View()), f, o, now)
    {
      hide S.Validate, C.Reset;
      S.ValidateTwice(session.Now(), f.t, now);
      var valid, cleared := session.IsValid(f.t, now);
      if cleared {
        Reset();
      }
      if !valid {
        return;
      }
      if o.Rejected? {
        error, configured := true, false;
        return;
      }
      config, configured := Some(o.limits), true;
      if form.ttl > o.limits.maxTtl {
        var ttl := FirstLifetime(C.LIFETIMES, o.limits.maxTtl);
        form := form.(ttl := ttl);
      }
      form := form.(views := if form.views < o.limits.maxViews then form.views else o.limits.maxViews);
    }

    method FirstLifetime(offered: seq<int>, maxTtl: int) returns (ttl: int)
      requires offered != [] && offered[|offered| - 1] <= maxTtl
      ensures ttl == C.Lifetime(offered, maxTtl)
      ensures exists k :: 0 <= k < |offered| && ttl == offered[k] <= maxTtl && forall j :: 0 <= j < k ==> offered[j] > maxTtl
    {
      var i := 0;
      while offered[i] > maxTtl
        invariant 0 <= i < |offered| && forall j :: 0 <= j < i ==> offered[j] > maxTtl
        invariant C.Lifetime(offered[i..], maxTtl) == C.Lifetime(offered, maxTtl)
        decreases |offered| - i
      {
        i := i + 1;
      }
      ttl := offered[i];
    }

    method TakeFiles(sizes: seq<nat>, now: int)
      requires session.Valid()
      modifies this, session
      ensures View() == C.AddFiles(old(View()), sizes, now)
    {
      S.NothingPending(session.Now());
      hide S.Expire, S.Core, S.Inv, C.Reset, C.WithFiles, C.Sum, Utf8.Encode;
      if busy {
        return;
      }
      var cleared := session.Expire(now);
      if cleared {
        Reset();
        return;
      }
      var all := form.files + sizes;
      var limits := if config.Some? then config.value else C.LIMITS;
      if |all| > limits.maxFiles || C.Sum(all) + |Utf8.Encode(form.text)| > limits.maxContent {
        error := true;
        return;
      }
      KeepFiles(all, now);
    }

    method KeepFiles(all: seq<nat>, now: int)
      requires session.Valid()
      modifies this, session
      ensures View() == C.WithFiles(old(View()), all, now)
    {
      hide S.Inv, C.Touched;
      form, stage, error := form.(files := all), C.Compose, false;
      Touch(now);
    }

    method BeginSubmit(now: int) returns (next: Option<C.Frame>)
      requires session.Valid()
      modifies this, session
      ensures (View(), next) == C.Submit(old(View()), now)
    {
      S.NothingPending(session.Now());
      hide S.Expire, S.Core, S.Inv, C.Reset, C.Acceptable, C.StartSealing;
      next := None;
      if busy || !configured || config.None? {
        return;
      }
      var cleared := session.Expire(now);
      if cleared {
        Reset();
        return;
      }
      if !C.Acceptable(form, config.value) {
        error := true;
        return;
      }
      var f := StartSealing(now);
      next := Some(f);
    }

    method StartSealing(now: int) returns (next: C.Frame)
      requires session.Valid()
      modifies this, session
      ensures (View(), next) == C.StartSealing(old(View()), now)
    {
      hide S.Expire, S.Inv, C.Reset, C.Touched;
      busy, stage, error, copied := true, C.Encrypt, false, false;
      Touch(now);
      var t, late := session.TakeTicket(now);
      if late {
        Reset();
      }
      next := C.Sealing(t);
    }

    method BeginRevoke(now: int) returns (next: Option<C.Frame>)
      requires session.Valid()
      modifies this, session
      ensures (View(), next) == C.StartRevoke(old(View()), now)
    {
      S.NothingPending(session.Now());
      next := None;
      var cleared := session.Expire(now);
      if cleared {
        Reset();
        return;
      }
      if receipt.None? || busy {
        return;
      }
      var t, late := session.TakeTicket(now);
      next := Some(C.Revoking(t, receipt.value));
      busy, stage := true, C.Revoke;
    }

    method ResumePiece(f: C.Frame, o: C.Outcome, now: int) returns (next: Option<C.Frame>)
      requires session.Valid() && f.t.signal == f.t.generation <= session.generation && C.Answers(o, f)
      modifies this, session
      ensures (View(), next) == C.Resume(old(View()), f, o, now)
    {
      if C.IsWork(f) {
        next := ResumeWork(f, o, now);
      } else {
        next := None;
        ResumeInit(f, o, now);
      }
    }

    // submit and revoke after an await.
    method ResumeWork(f: C.Frame, o: C.Outcome, now: int) returns (next: Option<C.Frame>)
      requires session.Valid() && f.t.signal == f.t.generation <= session.generation && C.Answers(o, f) && C.IsWork(f)
      modifies this, session
      ensures (View(), next) == C.Resume(old(View()), f, o, now)
    {
      hide S.Validate, C.Reset, C.Continue;
      S.ValidateTwice(session.Now(), f.t, now);
      next := None;
      var valid, cleared := session.IsValid(f.t, now);
      if cleared {
        Reset();
      }
      if valid {
        next := ContinueWork(f, o);
        if next.Some? {
          return;
        }
      }
      // finally
      var still, late := session.IsValid(f.t, now);
      if still {
        busy := false;
      }
    }

    // The body of the try block or of its catch block, with a valid ticket.
    method ContinueWork(f: C.Frame, o: C.Outcome) returns (next: Option<C.Frame>)
      requires C.Answers(o, f) && C.IsWork(f)
      modifies this
      ensures busy == old(busy) && session.Now() == old(session.Now())
      ensures (if next.Some? then View() else View().(busy := false), next) == C.Continue(old(View()), f, o)
    {
      assert session.Now() == old(session.Now());
      hide C.Created, C.Withdrawn, C.Failed;
      next := None;
      if f.Revoking? {
        ContinueRevoke(o.Rejected?);
        return;
      }
      if o.SealedAs? {
        stage := C.Proof;
        return Some(C.Challenging(f.t, o.sealed));
      }
      if o.Challenged? {
        return Some(C.Proving(f.t, f.sealed));
      }
      if o.Proven? {
        stage := C.Upload;
        return Some(C.Uploading(f.t, f.sealed));
      }
      if o.Received? && o.id == f.sealed.id {
        Created(f.sealed, o.expires);
        return;
      }
      Fail();
    }

    method Fail()
      modifies this
      ensures session.Now() == old(session.Now())
      ensures View() == C.Failed(old(View())).(busy := old(busy))
    {
      assert session.Now() == old(session.Now());
      stage, error, disposals := if link.Some? then C.Share else C.Compose, true, disposals + 1;
    }

    method ContinueRevoke(rejected: bool)
      modifies this
      ensures session.Now() == old(session.Now())
      ensures View() == if rejected then old(View()).(stage := C.Share, error := true)
                        else C.Withdrawn(old(View())).(busy := old(busy))
    {
      assert session.Now() == old(session.Now());
      if rejected {
        stage, error := C.Share, true;
      } else {
        receipt, stage, link, canRevoke, copied := None, C.Revoked, None, false, false;
      }
    }

    method Created(sealed: C.Sealed, expires: int)
      modifies this
      ensures session.Now() == old(session.Now())
      ensures View() == C.Created(old(View()), sealed, expires).(busy := old(busy))
    {
      ShowLink(sealed, expires);
      assert session.Now() == old(session.Now());
      form := form.(text := [], files := [], passphrase := []);
      stage, disposals := C.Share, disposals + 1;
    }

    method ShowLink(sealed: C.Sealed, expires: int)
      modifies this
      ensures session.Now() == old(session.Now())
      ensures View() == old(View()).(receipt := Some(C.Receipt(sealed.id, sealed.revokeToken)),
                                     link := Some(C.Link(sealed.id, sealed.secret)), expiresAt := expires,
                                     canRevoke := true, createdViews := old(form).views)
    {
      assert session.Now() == old(session.Now());
      receipt := Some(C.Receipt(sealed.id, sealed.revokeToken));
      link := Some(C.Link(sealed.id, sealed.secret));
      expiresAt, canRevoke, createdViews := expires, true, form.views;
    }
  }
}
