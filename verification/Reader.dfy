/** The reader page as the object it is. The public methods run the synchronous code up to the next
    await; each is proved to be one transition of module ReaderSteps and to keep its invariant, so that
    in every order of calls busy means exactly one open in flight. */
module Readers {
  import opened Wrappers
  import S = Session
  import opened SensitiveSessions
  import R = ReaderSteps

  // The operations suspended at an await, which the browser keeps, and what happened so far.
  class Runtime {
    var frames: map<nat, R.Frame>
    ghost var started: nat
    ghost var accepted: seq<string>
    ghost var called: seq<string>

    constructor ()
      ensures frames == map[] && started == 0 && accepted == [] && called == []
    {
      frames, started, accepted, called := map[], 0, [], [];
    }
  }

  class Reader {
    const session: SensitiveSession
    const runtime: Runtime
    var phase: R.Phase
    var passphrase: string
    var required: bool
    var busy: bool
    var error: bool
    var expiresAt: int
    var remaining: int
    var content: Option<R.Content>
    var id: string
    var metadata: Option<R.Metadata>
    // How often the worker was terminated.
    ghost var disposals: nat

    ghost function View(): R.View
      reads this, session
    {
      R.View(session.Now(), phase, passphrase, required, busy, error, expiresAt, remaining, content, id, metadata, disposals)
    }

    ghost function World(): R.World
      reads this, session, runtime
    {
      R.World(View(), runtime.frames, runtime.started, runtime.accepted, runtime.called)
    }

    ghost predicate Valid()
      reads this, session, runtime
    {
      R.Inv(World())
    }

    constructor ()
      ensures fresh(session) && fresh(runtime) && Valid() && World() == R.START
    {
      session := new SensitiveSession();
      runtime := new Runtime();
      phase, passphrase, required, busy, error := R.Loading, "", false, false, false;
      expiresAt, remaining, content, id, metadata, disposals := 0, 0, None, "", None, 0;
      new;
      R.BusyMeansOneOpen([]);
    }

    // ---- The methods of the page

    method Load(op: nat, now: int)
      requires Valid() && op !in runtime.frames
      modifies this, session, runtime
      ensures Valid() && World() == R.Next(old(World()), R.StartLoad(op, now))
    {
      hide R.Inv, R.Tickets, R.Load, S.Inv;
      R.TicketsAgree(World());
      R.StepKeepsInv(World(), R.StartLoad(op, now));
      var f := BeginLoad(now);
      runtime.frames, runtime.started := runtime.frames[op := f], runtime.started + 1;
    }

    method Open(op: nat, now: int)
      requires Valid() && op !in runtime.frames
      modifies this, session, runtime
      ensures Valid() && World() == R.Next(old(World()), R.StartOpen(op, now))
    {
      hide R.Inv, R.Tickets, R.Open, S.Inv;
      R.TicketsAgree(World());
      R.StepKeepsInv(World(), R.StartOpen(op, now));
      var next := BeginOpen(now);
      runtime.frames := R.Suspend(runtime.frames, op, next);
    }

    // The promise an operation awaits has settled.
    method Resume(op: nat, o: R.Outcome, now: int)
      requires Valid() && op in runtime.frames && R.Answers(o, runtime.frames[op])
      modifies this, session, runtime
      ensures Valid() && World() == R.Next(old(World()), R.Settle(op, o, now))
    {
      hide R.Inv, R.Tickets, R.Resume, R.IsOpen, R.Accepted, R.Answers, S.Validate, S.Inv;
      R.TicketsAgree(World());
      R.StepKeepsInv(World(), R.Settle(op, o, now));
      var f := runtime.frames[op];
      ghost var valid := S.Validate(session.Now(), f.t, now).1;
      runtime.accepted := runtime.accepted + if valid && R.Accepted(View(), f, o) then [id] else [];
      var next := ResumePiece(f, o, now);
      runtime.frames := R.Suspend(runtime.frames, op, next);
      runtime.called := runtime.called + if next.Some? && next.value.OpenFetch? then [id] else [];
    }

    method Clear()
      requires Valid()
      modifies this, session, runtime
      ensures Valid() && World() == R.Next(old(World()), R.Happens(S.Cleared))
    {
      hide R.Inv, R.Tickets, R.Reset, S.Clear, S.Inv, S.Core, S.Cancelled;
      R.TicketsAgree(World());
      R.StepKeepsInv(World(), R.Happens(S.Cleared));
      S.NothingPending(session.Now());
      session.Clear();
      Reset();
    }

    // A hidden tab clears what is shown or being opened; a visible one checks the deadline.
    method Visibility(hidden: bool, now: int)
      requires Valid()
      modifies this, session, runtime
      ensures Valid()
      ensures hidden && !(old(phase) == R.Showing || old(busy)) ==> World() == old(World())
      ensures hidden && (old(phase) == R.Showing || old(busy)) ==> World() == R.Next(old(World()), R.Happens(S.Cleared))
      ensures !hidden ==> World() == R.Next(old(World()), R.Happens(S.Checked(now)))
    {
      if hidden {
        if phase == R.Showing || busy {
          Clear();
        }
      } else {
        hide R.Inv, R.Tickets, R.Reset, S.Check, S.Inv, S.Core, S.Cancelled;
        R.TicketsAgree(World());
        R.StepKeepsInv(World(), R.Happens(S.Checked(now)));
        S.NothingPending(session.Now());
        var cleared := session.Check(now, HasData());
        if cleared {
          Reset();
        }
      }
    }

    method TimerFires(timer: S.TimerId, now: int)
      requires Valid() && timer in session.pending && session.pending[timer] <= now
      modifies this, session, runtime
      ensures Valid() && World() == R.Next(old(World()), R.Happens(S.Fired(timer, now)))
    {
      hide R.Inv, R.Tickets, R.Reset, S.Fire, S.Inv;
      R.TicketsAgree(World());
      R.StepKeepsInv(World(), R.Happens(S.Fired(timer, now)));
      var cleared := session.Fire(timer, now, HasData());
      if cleared {
        Reset();
      }
    }

    // ---- The pieces between two awaits

    predicate HasData()
      reads this
    {
      id != "" || passphrase != "" || content.Some? || busy || phase == R.Loading
    }

    method Reset()
      modifies this
      ensures View() == R.Reset(old(View()))
    {
      assert session.Now() == old(session.Now());
      disposals := disposals + 1;
      id, metadata := "", None;
      phase, passphrase, content, busy, error := R.Blank, "", None, false, false;
      expiresAt, remaining := 0, 0;
    }

    method BeginLoad(now: int) returns (next: R.Frame)
      requires session.Valid()
      modifies this, session
      ensures (View(), next) == R.Load(old(View()), now)
    {
      hide S.TouchAt, S.Expire, R.Reset;
      phase, error := R.Loading, false;
      var cleared := session.TouchAt(now, now, HasData());
      if cleared {
        Reset();
      }
      var t, late := session.TakeTicket(now);
      if late {
        Reset();
      }
      next := R.LoadLink(t);
    }

    method ResumePiece(f: R.Frame, o: R.Outcome, now: int) returns (next: Option<R.Frame>)
      requires session.Valid() && f.t.signal == f.t.generation <= session.generation && R.Answers(o, f)
      modifies this, session
      ensures (View(), next) == R.Resume(old(View()), f, o, now)
    {
      if R.IsOpen(f) {
        next := ResumeOpen(f, o, now);
      } else {
        next := ResumeLoad(f, o, now);
      }
    }

    method ResumeLoad(f: R.Frame, o: R.Outcome, now: int) returns (next: Option<R.Frame>)
      requires session.Valid() && f.t.signal == f.t.generation <= session.generation && R.Answers(o, f) && !R.IsOpen(f)
      modifies this, session
      ensures (View(), next) == R.Resume(old(View()), f, o, now)
    {
      hide S.Validate, R.Reset, R.Continue;
      S.ValidateTwice(session.Now(), f.t, now);
      var valid, cleared := session.IsValid(f.t, now);
      if cleared {
        Reset();
      }
      next := None;
      if valid {
        next := ContinueLoad(f, o);
      }
    }

    // After the check, in the try block or in its catch block.
    method ContinueLoad(f: R.Frame, o: R.Outcome) returns (next: Option<R.Frame>)
      requires R.Answers(o, f) && !R.IsOpen(f)
      modifies this
      ensures (View(), next) == R.Continue(old(View()), f, o)
    {
      assert session.Now() == old(session.Now());
      if o.Link? {
        id := o.id;
        return Some(R.LoadMeta(f.t));
      }
      if o.Meta? {
        return Some(R.LoadInspect(f.t, o.metadata));
      }
      next := None;
      if o.Inspected? && o.id == id && f.metadata.remaining <= o.views {
        metadata := Some(f.metadata);
        phase, required, expiresAt, remaining := R.Ready, o.argon2id, f.metadata.expires, f.metadata.remaining;
        return;
      }
      disposals := disposals + 1;
      id, phase, error := "", R.Broken, true;
    }

    method BeginOpen(now: int) returns (next: Option<R.Frame>)
      requires session.Valid()
      modifies this, session
      ensures (View(), next) == R.Open(old(View()), now)
    {
      S.NothingPending(session.Now());
      next := None;
      var cleared := session.Expire(now);
      if cleared {
        Reset();
        return;
      }
      if busy || phase != R.Ready || id == "" || metadata.None? {
        return;
      }
      if required && passphrase == "" {
        error := true;
        return;
      }
      busy, error := true, false;
      var t, late := session.TakeTicket(now);
      next := Some(R.OpenPrepare(t));
    }

    method ResumeOpen(f: R.Frame, o: R.Outcome, now: int) returns (next: Option<R.Frame>)
      requires session.Valid() && f.t.signal == f.t.generation <= session.generation && R.Answers(o, f) && R.IsOpen(f)
      modifies this, session
      ensures (View(), next) == R.Resume(old(View()), f, o, now)
    {
      hide S.Validate, R.Reset, R.Continue;
      S.ValidateTwice(session.Now(), f.t, now);
      next := None;
      var valid, cleared := session.IsValid(f.t, now);
      if cleared {
        Reset();
      }
      if valid {
        next := ContinueOpen(f, o);
        if next.Some? {
          return;
        }
      }
      // finally
      var still, late := session.IsValid(f.t, now);
      if still {
        busy := false;
      }
    }

    // The body of the try block or of its catch block, with a valid ticket.
    method ContinueOpen(f: R.Frame, o: R.Outcome) returns (next: Option<R.Frame>)
      requires R.Answers(o, f) && R.IsOpen(f)
      modifies this
      ensures busy == old(busy) && session.Now() == old(session.Now())
      ensures (if next.Some? then View() else View().(busy := false), next) == R.Continue(old(View()), f, o)
    {
      assert session.Now() == old(session.Now());
      hide R.OpenFailed, R.Shown;
      if o.Access? {
        passphrase := "";
        return Some(R.OpenFetch(f.t));
      }
      if o.Packet? {
        return Some(R.OpenDecrypt(f.t));
      }
      next := None;
      if o.Decrypted? {
        Show(o.content);
        return;
      }
      FailOpen(!f.OpenPrepare?);
    }

    method Show(shown: R.Content)
      modifies this
      ensures session.Now() == old(session.Now()) && busy == old(busy)
      ensures View().(busy := false) == R.Shown(old(View()), shown)
    {
      assert session.Now() == old(session.Now());
      content, remaining, phase := Some(shown), remaining - 1, R.Showing;
      id, metadata, disposals := "", None, disposals + 1;
    }

    method FailOpen(requested: bool)
      modifies this
      ensures session.Now() == old(session.Now()) && busy == old(busy)
      ensures View().(busy := false) == R.OpenFailed(old(View()), requested)
    {
      assert session.Now() == old(session.Now());
      passphrase, error := "", true;
      if requested {
        id, metadata, phase, disposals := "", None, R.Broken, disposals + 1;
      }
    }
  }
}
