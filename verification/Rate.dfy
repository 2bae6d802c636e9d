/** The token buckets that limit requests: a bucket that keeps two numbers and a deadline decides
    exactly like the list of all earlier grants. */
module Rate {
  import opened Wrappers

  // The hash of one bucket, and the native expiry that PEXPIRE sets.
  datatype Fill = Fill(tokens: real, at: int, deadline: int)

  function Lower(a: real, b: real): real {
    if a <= b then a else b
  }

  // What the rate gives in that many milliseconds.
  function Earned(rate: real, span: int): real {
    span as real * rate / 1000.0
  }

  function Tokens(rate: real, fill: Option<Fill>, now: int): real {
    if fill.None? then 2.0 * rate
    else
      var elapsed := if now > fill.value.at then now - fill.value.at else 0;
      Lower(2.0 * rate, fill.value.tokens + Earned(rate, elapsed))
  }

  function Take(rate: real, fill: Option<Fill>, now: int): (Option<Fill>, bool) {
    var tokens := Tokens(rate, fill, now);
    if tokens < 1.0 then (fill, false) else (Some(Fill(tokens - 1.0, now, now + 4000)), true)
  }

  class Bucket {
    const rate: real
    var fill: Option<Fill>

    constructor (rate: real)
      ensures this.rate == rate && fill == None
    {
      this.rate, fill := rate, None;
    }

    // A refused request writes nothing.
    method Request(now: int) returns (granted: bool)
      modifies this
      ensures (fill, granted) == Take(rate, old(fill), now)
      ensures granted ==> fill.Some? && fill.value.at == now && fill.value.deadline == now + 4000
      ensures !granted ==> fill == old(fill)
    {
      var burst := rate * 2.0;
      var tokens := if fill.Some? then fill.value.tokens else burst;
      var at := if fill.Some? then fill.value.at else now;
      var elapsed := if now - at > 0 then now - at else 0;
      assert elapsed as real * rate / 1000.0 == Earned(rate, elapsed);
      assert fill.None? ==> Earned(rate, elapsed) == 0.0;
      tokens := tokens + elapsed as real * rate / 1000.0;
      if tokens > burst {
        tokens := burst;
      }
      if tokens < 1.0 {
        return false;
      }
      fill := Some(Fill(tokens - 1.0, now, now + 4000));
      granted := true;
    }

    method Expire(now: int)
      requires fill.Some? && fill.value.deadline <= now
      modifies this
      ensures fill == None
    {
      fill := None;
    }
  }

  // ---- The reference: every grant is remembered -----------------------------------------------

  // From every earlier grant up to now, this grant included, there are no more than two seconds and the
  // time since then give at this rate.
  ghost predicate WindowsFit(rate: real, grants: seq<int>, now: int) {
    forall i :: 0 <= i < |grants| ==> WithinWindow(rate, |grants| - i + 1, now - grants[i])
  }

  // A single grant must fit the burst, too.
  ghost predicate Allowed(rate: real, grants: seq<int>, now: int) {
    1.0 <= 2.0 * rate && WindowsFit(rate, grants, now)
  }

  // A rate gives so many grants a second: multiplied by 1000, with the span in milliseconds.
  predicate WithinWindow(rate: real, count: int, span: int) {
    1000.0 * count as real <= 2000.0 * rate + rate * span as real
  }

  datatype Event = Ask(now: int) | Vanish(now: int)

  predicate Ordered(events: seq<Event>, from: int) {
    events == [] || (from <= events[0].now && Ordered(events[1..], events[0].now))
  }

  // The replies of the bucket to a schedule.
  function Replies(rate: real, fill: Option<Fill>, events: seq<Event>): seq<bool>
    decreases |events|
  {
    if events == [] then []
    else if events[0].Vanish? then Replies(rate, None, events[1..])
    else
      var (next, granted) := Take(rate, fill, events[0].now);
      [granted] + Replies(rate, next, events[1..])
  }

  // A bucket vanishes only once its expiry is reached.
  predicate Possible(rate: real, fill: Option<Fill>, events: seq<Event>)
    decreases |events|
  {
    if events == [] then true
    else if events[0].Vanish? then fill.Some? && fill.value.deadline <= events[0].now && Possible(rate, None, events[1..])
    else Possible(rate, Take(rate, fill, events[0].now).0, events[1..])
  }

  ghost function Decisions(rate: real, grants: seq<int>, events: seq<Event>): seq<bool>
    decreases |events|
  {
    if events == [] then []
    else if events[0].Vanish? then Decisions(rate, grants, events[1..])
    else
      var granted := Allowed(rate, grants, events[0].now);
      [granted] + Decisions(rate, if granted then grants + [events[0].now] else grants, events[1..])
  }

  // ---- The level is the least slack of all windows ----------------------------------------------

  function Level(rate: real, grants: seq<int>, now: int): real {
    if grants == [] then 2.0 * rate
    else
      var last := grants[|grants| - 1];
      Lower(2.0 * rate, Level(rate, grants[..|grants| - 1], last) - 1.0 + Earned(rate, now - last))
  }

  // x tokens more fit every window.
  ghost predicate Fits(rate: real, grants: seq<int>, now: int, x: real) {
    && x <= 2.0 * rate
    && forall i :: 0 <= i < |grants| ==> FitsSince(rate, grants, now, x, i)
  }

  ghost predicate FitsSince(rate: real, grants: seq<int>, now: int, x: real, i: int)
    requires 0 <= i < |grants|
  {
    x + (|grants| - i) as real <= 2.0 * rate + Earned(rate, now - grants[i])
  }

  lemma {:induction false} LevelIsLeastSlack(rate: real, grants: seq<int>, now: int, x: real)
    ensures x <= Level(rate, grants, now) <==> Fits(rate, grants, now, x)
  {
    hide Earned;
    if grants != [] {
      var n := |grants| - 1;
      var last, rest := grants[n], grants[..n];
      var y := x + 1.0 - Earned(rate, now - last);
      LevelIsLeastSlack(rate, rest, last, y);
      forall i | 0 <= i < n ensures FitsSince(rate, grants, now, x, i) <==> FitsSince(rate, rest, last, y, i) {
        SplitSpan(rate, grants[i], last, now);
      }
      assert FitsSince(rate, grants, now, x, n) <==> y <= 2.0 * rate;
      if Fits(rate, grants, now, x) {
        assert Fits(rate, rest, last, y);
      }
      if x <= 2.0 * rate && Fits(rate, rest, last, y) {
        assert Fits(rate, grants, now, x);
      }
    }
  }

  lemma SplitSpan(rate: real, a: int, b: int, c: int)
    ensures Earned(rate, c - a) == Earned(rate, b - a) + Earned(rate, c - b)
  {
    assert (c - a) as real == (b - a) as real + (c - b) as real;
  }

  // ---- The bucket holds that level --------------------------------------------------------------

  ghost predicate Agrees(rate: real, fill: Option<Fill>, grants: seq<int>, now: int) {
    if fill.None? then forall t :: t >= now ==> Level(rate, grants, t) == 2.0 * rate
    else
      && grants != [] && fill.value.at == grants[|grants| - 1] <= now
      && fill.value.deadline == fill.value.at + 4000
      && 0.0 <= fill.value.tokens == Level(rate, grants[..|grants| - 1], fill.value.at) - 1.0
  }

  lemma TokensAreLevel(rate: real, fill: Option<Fill>, grants: seq<int>, from: int, now: int)
    requires rate > 0.0 && from <= now && Agrees(rate, fill, grants, from)
    ensures Tokens(rate, fill, now) == Level(rate, grants, now)
  {
  }

  // Two seconds after a grant a bucket is full again, well before it may vanish.
  lemma FullAgain(rate: real, fill: Option<Fill>, grants: seq<int>, now: int, t: int)
    requires rate > 0.0 && fill.Some? && Agrees(rate, fill, grants, now) && t >= fill.value.at + 2000
    ensures Level(rate, grants, t) == 2.0 * rate
  {
    Grows(rate, 2000, t - fill.value.at);
  }

  lemma Grows(rate: real, a: int, b: int)
    requires rate > 0.0 && a <= b
    ensures Earned(rate, a) <= Earned(rate, b)
  {
    var d := (b - a) as real;
    assert b as real == a as real + d && d >= 0.0;
    NotNegative(d, rate);
    assert b as real * rate == a as real * rate + d * rate;
  }

  lemma NotNegative(x: real, y: real)
    requires x >= 0.0 && y >= 0.0
    ensures x * y >= 0.0
  {
  }

  lemma EarnedPerSecond(rate: real, span: int)
    ensures 1000.0 * Earned(rate, span) == rate * span as real
  {
  }

  // A clock that stands still or steps back earns nothing and takes nothing away.
  lemma ClockBackEarnsNothing(rate: real, fill: Fill, now: int)
    requires rate > 0.0 && now <= fill.at && fill.tokens <= 2.0 * rate
    ensures fill.tokens < 1.0 ==> Take(rate, Some(fill), now) == (Some(fill), false)
    ensures fill.tokens >= 1.0 ==> Take(rate, Some(fill), now) == (Some(Fill(fill.tokens - 1.0, now, now + 4000)), true)
  {
    assert Earned(rate, 0) == 0.0;
  }

  lemma TakeAgrees(rate: real, fill: Option<Fill>, grants: seq<int>, from: int, now: int)
    requires rate > 0.0 && from <= now && Agrees(rate, fill, grants, from)
    ensures var (next, granted) := Take(rate, fill, now);
            && granted == Allowed(rate, grants, now)
            && Agrees(rate, next, if granted then grants + [now] else grants, now)
  {
    TokensAreLevel(rate, fill, grants, from, now);
    LevelIsLeastSlack(rate, grants, now, 1.0);
    forall i | 0 <= i < |grants|
      ensures FitsSince(rate, grants, now, 1.0, i) <==> WithinWindow(rate, |grants| - i + 1, now - grants[i])
    {
      EarnedPerSecond(rate, now - grants[i]);
    }
    assert (grants + [now])[..|grants|] == grants;
  }

  /** On every ordered schedule, with expiry at any possible moment, the bucket grants exactly the
      requests that keep every window within a burst and the rate. */
  lemma {:induction false} BucketIsExact(rate: real, fill: Option<Fill>, grants: seq<int>, events: seq<Event>, from: int)
    requires rate > 0.0 && Ordered(events, from) && Possible(rate, fill, events) && Agrees(rate, fill, grants, from)
    ensures Replies(rate, fill, events) == Decisions(rate, grants, events)
    decreases |events|
  {
    if events != [] {
      var now := events[0].now;
      if events[0].Vanish? {
        forall t | t >= now ensures Level(rate, grants, t) == 2.0 * rate {
          FullAgain(rate, fill, grants, from, t);
        }
        BucketIsExact(rate, None, grants, events[1..], now);
      } else {
        TakeAgrees(rate, fill, grants, from, now);
        var (next, granted) := Take(rate, fill, now);
        BucketIsExact(rate, next, if granted then grants + [now] else grants, events[1..], now);
      }
    }
  }

  // The replies of the window rule alone.
  ghost function WindowReplies(rate: real, grants: seq<int>, events: seq<Event>): seq<bool>
    decreases |events|
  {
    if events == [] then []
    else if events[0].Vanish? then WindowReplies(rate, grants, events[1..])
    else
      var granted := WindowsFit(rate, grants, events[0].now);
      [granted] + WindowReplies(rate, if granted then grants + [events[0].now] else grants, events[1..])
  }

  lemma {:induction false} BurstOfOneSuffices(rate: real, grants: seq<int>, events: seq<Event>)
    requires 2.0 * rate >= 1.0
    ensures Decisions(rate, grants, events) == WindowReplies(rate, grants, events)
    decreases |events|
  {
    if events != [] {
      var granted := WindowsFit(rate, grants, events[0].now);
      var next := if events[0].Ask? && granted then grants + [events[0].now] else grants;
      BurstOfOneSuffices(rate, next, events[1..]);
      hide WindowsFit;
    }
  }

  /** The bucket follows the window rule alone if and only if its burst, twice its rate, is at least one
      grant; below that it refuses the first request, which the rule would grant. */
  lemma BucketIsWindowRule(rate: real, events: seq<Event>, from: int)
    requires rate > 0.0 && events != [] && Ordered(events, from) && Possible(rate, None, events)
    ensures Replies(rate, None, events) == WindowReplies(rate, [], events) <==> 2.0 * rate >= 1.0
  {
    if 2.0 * rate >= 1.0 {
      BucketIsExact(rate, None, [], events, from);
      BurstOfOneSuffices(rate, [], events);
    } else {
      assert events[0].Ask? && !Take(rate, None, events[0].now).1;
      assert !Replies(rate, None, events)[0] && WindowReplies(rate, [], events)[0];
    }
  }

  function Asks(events: seq<Event>): seq<Event> {
    if events == [] then [] else (if events[0].Ask? then [events[0]] else []) + Asks(events[1..])
  }

  lemma {:induction false} AsksAreEnough(rate: real, fill: Option<Fill>, grants: seq<int>, events: seq<Event>, from: int)
    requires Ordered(events, from)
    ensures Ordered(Asks(events), from) && Possible(rate, fill, Asks(events))
    ensures Decisions(rate, grants, Asks(events)) == Decisions(rate, grants, events)
    decreases |events|
  {
    if events != [] {
      var now := events[0].now;
      if events[0].Vanish? {
        AsksAreEnough(rate, fill, grants, events[1..], now);
        Earlier(Asks(events[1..]), from, now);
        assert Asks(events) == Asks(events[1..]);
      } else {
        var granted := Allowed(rate, grants, now);
        AsksAreEnough(rate, Take(rate, fill, now).0, if granted then grants + [now] else grants, events[1..], now);
        assert Asks(events)[1..] == Asks(events[1..]) && Asks(events)[0] == events[0];
      }
    }
  }

  lemma Earlier(events: seq<Event>, from: int, later: int)
    requires from <= later && Ordered(events, later)
    ensures Ordered(events, from)
  {
  }

  /** Expiry is unobservable: on every schedule the replies are those of a bucket that never expires. */
  lemma ExpiryIsUnobservable(rate: real, events: seq<Event>, from: int)
    requires rate > 0.0 && Ordered(events, from) && Possible(rate, None, events)
    ensures Replies(rate, None, events) == Replies(rate, None, Asks(events))
  {
    BucketIsExact(rate, None, [], events, from);
    AsksAreEnough(rate, None, [], events, from);
    BucketIsExact(rate, None, [], Asks(events), from);
  }

  // The times at which a schedule is granted.
  function Granted(rate: real, fill: Option<Fill>, events: seq<Event>): seq<int>
    decreases |events|
  {
    if events == [] then []
    else if events[0].Vanish? then Granted(rate, None, events[1..])
    else
      var (next, granted) := Take(rate, fill, events[0].now);
      (if granted then [events[0].now] else []) + Granted(rate, next, events[1..])
  }

  // No window holds more than a burst and what the rate gives.
  ghost predicate WindowsBounded(rate: real, grants: seq<int>) {
    forall i, j :: 0 <= i <= j < |grants| ==> WithinWindow(rate, j - i + 1, grants[j] - grants[i])
  }

  lemma WindowsExtend(rate: real, grants: seq<int>, now: int)
    requires WindowsBounded(rate, grants) && Allowed(rate, grants, now)
    ensures WindowsBounded(rate, grants + [now])
  {
    assert WithinWindow(rate, 1, 0);
    hide WithinWindow;
  }

  /** Whatever the schedule, between any two grants there are no more grants than a burst and what the
      rate gives in the time between them. */
  lemma {:induction false} GrantsAreBounded(rate: real, fill: Option<Fill>, grants: seq<int>, events: seq<Event>, from: int)
    requires rate > 0.0 && Ordered(events, from) && Possible(rate, fill, events) && Agrees(rate, fill, grants, from)
    requires WindowsBounded(rate, grants)
    ensures WindowsBounded(rate, grants + Granted(rate, fill, events))
    decreases |events|
  {
    hide Take, WindowsBounded, Allowed;
    if events == [] {
      assert grants + [] == grants;
    } else {
      var now, rest := events[0].now, events[1..];
      if events[0].Vanish? {
        forall t | t >= now ensures Level(rate, grants, t) == 2.0 * rate {
          FullAgain(rate, fill, grants, from, t);
        }
        GrantsAreBounded(rate, None, grants, rest, now);
      } else {
        TakeAgrees(rate, fill, grants, from, now);
        var (next, granted) := Take(rate, fill, now);
        if granted {
          WindowsExtend(rate, grants, now);
          GrantsAreBounded(rate, next, grants + [now], rest, now);
          assert grants + ([now] + Granted(rate, next, rest)) == grants + [now] + Granted(rate, next, rest);
        } else {
          GrantsAreBounded(rate, next, grants, rest, now);
          assert [] + Granted(rate, next, rest) == Granted(rate, next, rest);
        }
      }
    }
  }
}
