/**
 The synchronous `listen_many` iterator: raw items from several listeners, function triggers
 called for each notification, and a policy that decides what a failure does.
 */
module ListenMany {
  import opened Wrappers
  import opened Functions

  datatype Kind = ListenerKind | TriggerKind

  datatype Error =
    | ListenerError(code: nat)
    | TriggerError(item: nat)
    | EveryListenerFailed(failures: seq<Failure>)
    | AwaitableReturned
    | Interrupt
    | FromOnError(item: nat)

  datatype Failure = Failure(listener: string, kind: Kind, error: Error)

  /** What the raw source hands out before it ends. */
  datatype RawItem =
    | Notified(name: string)
    | ListenerFailed(name: string, code: nat)
    | RawInterrupt

  datatype OnError = Raise | Continue | Ask

  /** What an `on_error` function does with a failure. */
  datatype Answer = Accepts | AnswersAwaitable | Raises

  datatype Outcome =
    | Yielded(name: string, item: nat)
    | Stopped
    | Threw(error: Error)

  /** Everything around the iterator: the listeners' items, their triggers, and how the
      caller's functions behave for each item, calling `close` on the iterator included. */
  datatype World = World(
    items: seq<RawItem>,
    functions: map<string, seq<Trigger>>,
    replies: nat -> Replies,
    answers: nat -> Answer,
    functionCloses: nat -> bool,
    onErrorCloses: nat -> bool,
    onError: OnError,
    names: set<string>)

  predicate Named(w: World) {
    forall i :: 0 <= i < |w.items| && !w.items[i].RawInterrupt? ==> w.items[i].name in w.names
  }

  function FunctionsOf(w: World, name: string): seq<Trigger> {
    if name in w.functions then w.functions[name] else []
  }

  // ---------- What becomes of each item ----------

  datatype Fate =
    | Delivered
    | Recorded(failure: Failure)
    | Escapes(error: Error)

  ghost function FateOf(w: World, i: nat): Fate
    requires i < |w.items|
  {
    match w.items[i]
    case RawInterrupt => Escapes(Interrupt)
    case ListenerFailed(name, code) => Recorded(Failure(name, ListenerKind, ListenerError(code)))
    case Notified(name) =>
      match VerdictFrom(FunctionsOf(w, name), w.replies(i), 0)
      case Passed => Delivered
      case Failed(_) => Recorded(Failure(name, TriggerKind, TriggerError(i)))
      case NotAwaited(_) => Escapes(AwaitableReturned)
      case Interrupted(_) => Escapes(Interrupt)
  }

  /** The error that item `i` ends the iteration with, if it does. */
  ghost function EndsWith(w: World, i: nat): Option<Error>
    requires i < |w.items|
  {
    match FateOf(w, i)
    case Delivered => None
    case Escapes(error) => Some(error)
    case Recorded(failure) =>
      match w.onError
      case Raise => Some(failure.error)
      case Continue => None
      case Ask =>
        match w.answers(i)
        case Accepts => None
        case AnswersAwaitable => Some(AwaitableReturned)
        case Raises => Some(FromOnError(i))
  }

  /** One of the caller's functions is called for item `i`, and closes the iterator. */
  ghost predicate ClosedBy(w: World, i: nat)
    requires i < |w.items|
  {
    || (w.items[i].Notified? && FunctionsOf(w, w.items[i].name) != [] && w.functionCloses(i))
    || (FateOf(w, i).Recorded? && w.onError.Ask? && w.onErrorCloses(i))
  }

  /** Of the first `n` items, only the last may have been one that closed the iterator. */
  ghost predicate OpenBefore(w: World, n: nat)
    requires n <= |w.items|
  {
    forall i :: 0 <= i < n - 1 ==> !ClosedBy(w, i)
  }

  ghost function DeliveredIn(w: World, n: nat): seq<nat>
    requires n <= |w.items|
  {
    if n == 0 then []
    else DeliveredIn(w, n - 1) + if FateOf(w, n - 1).Delivered? then [n - 1] else []
  }

  ghost function FailuresIn(w: World, n: nat): seq<Failure>
    requires n <= |w.items|
  {
    if n == 0 then []
    else FailuresIn(w, n - 1) + if FateOf(w, n - 1).Recorded? then [FateOf(w, n - 1).failure] else []
  }

  // ---------- The same on the items themselves ----------

  /** The triggers of the listener that item `i` is from, or none if it has none, come to this. */
  ghost predicate TriggersComeTo(w: World, i: nat, verdict: Verdict)
    requires i < |w.items|
  {
    && w.items[i].Notified?
    && var name := w.items[i].name;
       Comes(if name in w.functions then w.functions[name] else [], w.replies(i), verdict)
  }

  /** Item `i` is a failure: of a listener, or of a notification's triggers. */
  ghost predicate FailsWith(w: World, i: nat, failure: Failure)
    requires i < |w.items|
  {
    match w.items[i]
    case RawInterrupt => false
    case ListenerFailed(name, code) => failure == Failure(name, ListenerKind, ListenerError(code))
    case Notified(name) =>
      failure == Failure(name, TriggerKind, TriggerError(i)) && exists t :: TriggersComeTo(w, i, Failed(t))
  }

  /** Item `i` is no failure but an interrupt, or a function of the wrong kind. */
  ghost predicate EscapesWith(w: World, i: nat, error: Error)
    requires i < |w.items|
  {
    || (error == Interrupt && (w.items[i].RawInterrupt? || exists t :: TriggersComeTo(w, i, Interrupted(t))))
    || (error == AwaitableReturned && exists t :: TriggersComeTo(w, i, NotAwaited(t)))
  }

  lemma FateIs(w: World, i: nat, verdict: Verdict)
    requires i < |w.items| && TriggersComeTo(w, i, verdict)
    ensures VerdictFrom(FunctionsOf(w, w.items[i].name), w.replies(i), 0) == verdict
  {
    hide Comes, VerdictFrom;
    var functions, replies := FunctionsOf(w, w.items[i].name), w.replies(i);
    VerdictComes(functions, replies, 0);
    VerdictIsUnique(functions, replies, verdict, VerdictFrom(functions, replies, 0));
  }

  /** A failure is recorded under its listener and kind. What it does then is the policy's: raise
      it, go on, or do as the `on_error` function says. */
  lemma FailureUnderPolicy(w: World, i: nat, failure: Failure)
    requires i < |w.items| && FailsWith(w, i, failure)
    ensures FateOf(w, i) == Recorded(failure)
    ensures w.onError.Raise? ==> EndsWith(w, i) == Some(failure.error)
    ensures w.onError.Continue? ==> EndsWith(w, i) == None
    ensures w.onError.Ask? && w.answers(i).Accepts? ==> EndsWith(w, i) == None
    ensures w.onError.Ask? && w.answers(i).AnswersAwaitable? ==> EndsWith(w, i) == Some(AwaitableReturned)
    ensures w.onError.Ask? && w.answers(i).Raises? ==> EndsWith(w, i) == Some(FromOnError(i))
  {
    hide VerdictFrom, TriggersComeTo;
    if w.items[i].Notified? {
      var t :| TriggersComeTo(w, i, Failed(t));
      FateIs(w, i, Failed(t));
    }
  }

  /** What is no failure ends the loop with its own error, under every policy. */
  lemma EscapeUnderPolicy(w: World, i: nat, error: Error)
    requires i < |w.items| && EscapesWith(w, i, error)
    ensures EndsWith(w, i) == Some(error)
  {
    hide VerdictFrom, Comes;
    if !w.items[i].RawInterrupt? {
      var verdict: Verdict :| TriggersComeTo(w, i, verdict)
        && ((verdict.Interrupted? && error == Interrupt) || (verdict.NotAwaited? && error == AwaitableReturned));
      FateIs(w, i, verdict);
    }
  }

  /** A notification whose triggers pass is handed out, under every policy. */
  lemma PassedUnderPolicy(w: World, i: nat)
    requires i < |w.items| && TriggersComeTo(w, i, Passed)
    ensures FateOf(w, i) == Delivered && EndsWith(w, i) == None
  {
    FateIs(w, i, Passed);
  }

  /** Every item is one of these. */
  lemma ItemIsOneOf(w: World, i: nat)
    requires i < |w.items|
    ensures || TriggersComeTo(w, i, Passed)
            || (exists failure :: FailsWith(w, i, failure))
            || (exists error :: EscapesWith(w, i, error))
  {
    hide Comes, VerdictFrom;
    match w.items[i]
    case RawInterrupt => assert EscapesWith(w, i, Interrupt);
    case ListenerFailed(name, code) => assert FailsWith(w, i, Failure(name, ListenerKind, ListenerError(code)));
    case Notified(name) =>
      var verdict := VerdictFrom(FunctionsOf(w, name), w.replies(i), 0);
      VerdictComes(FunctionsOf(w, name), w.replies(i), 0);
      assert TriggersComeTo(w, i, verdict);
      match verdict
      case Passed =>
      case Failed(_) => assert FailsWith(w, i, Failure(name, TriggerKind, TriggerError(i)));
      case NotAwaited(_) => assert EscapesWith(w, i, AwaitableReturned);
      case Interrupted(_) => assert EscapesWith(w, i, Interrupt);
  }

  /** Item `i` is let pass by the loop: it does not escape, and if it fails, the policy says so. */
  ghost predicate Tolerated(w: World, i: nat)
    requires i < |w.items|
  {
    && (forall error :: !EscapesWith(w, i, error))
    && ((exists failure :: FailsWith(w, i, failure)) ==>
          w.onError.Continue? || (w.onError.Ask? && w.answers(i).Accepts?))
  }

  /** Exactly when the loop goes on. */
  lemma GoesOnMeans(w: World, n: nat)
    requires n <= |w.items|
    ensures GoesOn(w, n) <==> forall i :: 0 <= i < n ==> Tolerated(w, i)
  {
    hide EndsWith, FailsWith, EscapesWith, TriggersComeTo;
    forall i | 0 <= i < n ensures EndsWith(w, i).None? <==> Tolerated(w, i) {
      ItemIsOneOf(w, i);
      if failure :| FailsWith(w, i, failure) {
        FailureUnderPolicy(w, i, failure);
      }
      if error :| EscapesWith(w, i, error) {
        EscapeUnderPolicy(w, i, error);
      }
      if TriggersComeTo(w, i, Passed) {
        PassedUnderPolicy(w, i);
      }
    }
  }

  ghost predicate FailedListener(w: World, n: nat, name: string)
    requires n <= |w.items|
  {
    exists i :: 0 <= i < n && w.items[i].ListenerFailed? && w.items[i].name == name
  }

  ghost predicate GoesOn(w: World, n: nat)
    requires n <= |w.items|
  {
    forall i :: 0 <= i < n ==> EndsWith(w, i).None?
  }

  /** Nothing is lost: an item that does not end the iteration is delivered or recorded. */
  lemma {:induction false} EveryItemIsAccountedFor(w: World, n: nat)
    requires n <= |w.items| && GoesOn(w, n)
    ensures |DeliveredIn(w, n)| + |FailuresIn(w, n)| == n
    decreases n
  {
    if n > 0 {
      EveryItemIsAccountedFor(w, n - 1);
      assert EndsWith(w, n - 1).None?;
    }
  }

  /** Exactly the notifications whose triggers passed are delivered, in order. */
  lemma {:induction false} DeliveredAreThoseThatPassed(w: World, n: nat)
    requires n <= |w.items|
    ensures forall i :: i in DeliveredIn(w, n) <==>
              0 <= i < n && w.items[i].Notified?
              && VerdictFrom(FunctionsOf(w, w.items[i].name), w.replies(i), 0).Passed?
    ensures forall j, k :: 0 <= j < k < |DeliveredIn(w, n)| ==> DeliveredIn(w, n)[j] < DeliveredIn(w, n)[k]
    decreases n
  {
    hide VerdictFrom;
    if n > 0 {
      DeliveredAreThoseThatPassed(w, n - 1);
      var before := DeliveredIn(w, n - 1);
      assert forall k :: 0 <= k < |before| ==> before[k] in before;
      assert FateOf(w, n - 1).Delivered? <==>
             w.items[n - 1].Notified?
             && VerdictFrom(FunctionsOf(w, w.items[n - 1].name), w.replies(n - 1), 0).Passed?;
      hide FateOf;
    }
  }

  /** What the end of the source is turned into: an error when every listener has failed. */
  ghost function Ending(w: World, n: nat): Outcome
    requires n <= |w.items|
  {
    if !w.onError.Raise? && w.names != {} && forall name :: name in w.names ==> FailedListener(w, n, name)
    then Threw(EveryListenerFailed(FailuresIn(w, n)))
    else Stopped
  }

  lemma FullSubset(a: set<string>, b: set<string>)
    requires a <= b
    ensures |a| <= |b| && (|a| == |b| <==> a == b)
  {
    assert b == a + (b - a) && |b| == |a| + |b - a|;
  }

  // ---------- The raw source ----------

  class RawSource {
    const items: seq<RawItem>
    var read: nat
    var closes: nat

    constructor (items: seq<RawItem>)
      ensures this.items == items && read == 0 && closes == 0
    {
      this.items := items;
      read, closes := 0, 0;
    }

    /** The next item; none after the last, or once the source is closed. */
    method Next() returns (r: Option<RawItem>)
      requires read <= |items|
      modifies `read
      ensures if closes > 0 || old(read) == |items| then r == None && read == old(read)
              else r == Some(items[old(read)]) && read == old(read) + 1
    {
      if closes > 0 || read == |items| {
        return None;
      }
      r := Some(items[read]);
      read := read + 1;
    }

    method Close()
      modifies `closes
      ensures closes == old(closes) + 1
    {
      closes := closes + 1;
    }
  }

  // ---------- The policy ----------

  class Policy {
    const onError: OnError
    const count: nat
    var failures: seq<Failure>
    var failedListeners: set<string>

    constructor (onError: OnError, count: nat)
      ensures this.onError == onError && this.count == count && failures == [] && failedListeners == {}
    {
      this.onError, this.count := onError, count;
      failures, failedListeners := [], {};
    }

    /** Keeps the failure, a listener's under its name too; only "raise" wants it thrown at once. */
    method Record(failure: Failure) returns (raiseNow: bool)
      modifies this
      ensures failures == old(failures) + [failure]
      ensures failedListeners
              == if failure.kind.ListenerKind? then old(failedListeners) + {failure.listener} else old(failedListeners)
      ensures raiseNow == onError.Raise?
    {
      failures := failures + [failure];
      if failure.kind.ListenerKind? {
        failedListeners := failedListeners + {failure.listener};
      }
      return onError.Raise?;
    }

    /** What an `on_error` function makes of a failure; without one, nothing. */
    method Consult(item: nat, answer: Answer) returns (error: Option<Error>)
      ensures error == if !onError.Ask? || answer.Accepts? then None
                       else if answer.AnswersAwaitable? then Some(AwaitableReturned)
                       else Some(FromOnError(item))
    {
      if onError.Ask? {
        match answer {
          case Accepts => return None;
          case AnswersAwaitable => return Some(AwaitableReturned);
          case Raises => return Some(FromOnError(item));
        }
      }
      return None;
    }

    method CheckAllFailed() returns (error: Option<Error>)
      ensures error == if !onError.Raise? && count > 0 && |failedListeners| == count
                       then Some(EveryListenerFailed(failures)) else None
    {
      if onError.Raise? {
        return None;
      }
      if count > 0 && |failedListeners| == count {
        return Some(EveryListenerFailed(failures));
      }
      return None;
    }
  }

  // ---------- The iterator ----------

  class MultiNotificationIterator {
    const raw: RawSource
    const policy: Policy
    const world: World
    var closed: bool
    var stopped: bool
    ghost var yielded: seq<nat>

    /** The records kept are those of the first `n` items. */
    ghost predicate Tracks(n: nat)
      requires n <= |world.items|
      reads this, policy
    {
      && yielded == DeliveredIn(world, n)
      && policy.failures == FailuresIn(world, n)
      && (forall name :: name in policy.failedListeners <==> FailedListener(world, n, name))
    }

    ghost predicate Coherent()
      reads this, raw, policy
    {
      && Named(world) && raw.items == world.items && raw.read <= |world.items|
      && policy.onError == world.onError && policy.count == |world.names|
      && raw.closes == (if closed then 1 else 0)
    }

    ghost predicate Valid()
      reads this, raw, policy
    {
      && Coherent() && Tracks(raw.read) && OpenBefore(world, raw.read)
      && (raw.read > 0 && ClosedBy(world, raw.read - 1) ==> closed)
      && if stopped then closed else GoesOn(world, raw.read)
    }

    constructor (world: World)
      requires Named(world)
      ensures Valid() && !closed && !stopped && yielded == [] && this.world == world
      ensures fresh(raw) && fresh(policy) && raw.read == 0
    {
      raw := new RawSource(world.items);
      policy := new Policy(world.onError, |world.names|);
      this.world := world;
      closed, stopped, yielded := false, false, [];
    }

    /** Closes the raw source, once. */
    method Close()
      requires Coherent()
      modifies `closed, raw`closes
      ensures Coherent() && closed
    {
      if !closed {
        closed := true;
        raw.Close();
      }
    }

    /** One call of the iterator. Whatever is not a notification ends it: the source is closed,
        and no later call reads it. */
    method Next() returns (r: Outcome)
      requires Valid()
      modifies this, raw, policy
      ensures Valid() && raw.read >= old(raw.read) && (old(closed) ==> closed)
      ensures old(stopped) ==> r == Stopped && raw.read == old(raw.read) && stopped
      ensures r.Yielded? ==>
                && !stopped
                && raw.read == r.item + 1 && old(raw.read) <= r.item
                && world.items[r.item] == Notified(r.name) && yielded == old(yielded) + [r.item]
                && !old(closed) && (closed <==> ClosedBy(world, r.item))
      ensures !r.Yielded? ==> stopped && closed && raw.closes == 1 && yielded == old(yielded)
      ensures !r.Yielded? && !old(stopped) ==>
                if GoesOn(world, raw.read) then
                  && r == Ending(world, raw.read)
                  && (raw.read == |world.items| || old(closed)
                      || (raw.read > old(raw.read) && ClosedBy(world, raw.read - 1)))
                else
                  raw.read > 0 && GoesOn(world, raw.read - 1) && EndsWith(world, raw.read - 1).Some?
                  && r == Threw(EndsWith(world, raw.read - 1).value)
    {
      if stopped {
        return Stopped;
      }
      r := Read();
      if !r.Yielded? {
        stopped := true;
        Close();
      }
    }

    /** Reads raw items until one is a notification to hand out, or something ends the loop. */
    method Read() returns (r: Outcome)
      requires Valid() && !stopped
      modifies this, raw, policy
      ensures Coherent() && Tracks(raw.read) && OpenBefore(world, raw.read) && !stopped
      ensures raw.read >= old(raw.read) && (old(closed) ==> closed)
      ensures raw.read > 0 && ClosedBy(world, raw.read - 1) ==> closed
      ensures r.Yielded? ==>
                && GoesOn(world, raw.read)
                && raw.read == r.item + 1 && old(raw.read) <= r.item
                && world.items[r.item] == Notified(r.name) && yielded == old(yielded) + [r.item]
                && !old(closed) && (closed <==> ClosedBy(world, r.item))
      ensures !r.Yielded? ==>
                && yielded == old(yielded)
                && if GoesOn(world, raw.read) then
                     && r == Ending(world, raw.read)
                     && (raw.read == |world.items| || old(closed)
                         || (raw.read > old(raw.read) && ClosedBy(world, raw.read - 1)))
                   else
                     raw.read > 0 && GoesOn(world, raw.read - 1) && EndsWith(world, raw.read - 1).Some?
                     && r == Threw(EndsWith(world, raw.read - 1).value)
    {
      hide FateOf, EndsWith, ClosedBy, DeliveredIn, FailuresIn, FailedListener, Ending;
      while true
        invariant Valid() && !stopped
        invariant closed ==> old(closed) || (raw.read > old(raw.read) && ClosedBy(world, raw.read - 1))
        invariant old(closed) ==> closed && raw.read == old(raw.read)
        invariant raw.read >= old(raw.read) && yielded == old(yielded)
        decreases |world.items| - raw.read
      {
        var i := raw.read;
        var next := raw.Next();
        if next.None? {
          Close();
          var error := policy.CheckAllFailed();
          AllFailedIsEveryName();
          return if error.Some? then Threw(error.value) else Stopped;
        }
        var done := Handle(i);
        if done.Some? {
          return done.value;
        }
      }
    }

    lemma AllFailedIsEveryName()
      requires Coherent() && Tracks(raw.read)
      ensures Ending(world, raw.read)
              == if !policy.onError.Raise? && policy.count > 0 && |policy.failedListeners| == policy.count
                 then Threw(EveryListenerFailed(policy.failures)) else Stopped
    {
      assert policy.failedListeners <= world.names;
      FullSubset(policy.failedListeners, world.names);
    }

    /** Deals with item `i`, just read: delivers it, records a failure, or ends the loop. */
    method Handle(i: nat) returns (done: Option<Outcome>)
      requires Coherent() && !closed && !stopped && raw.read == i + 1 && Tracks(i) && GoesOn(world, i)
      modifies `yielded, `closed, raw`closes, policy
      ensures Coherent() && Tracks(i + 1) && (closed <==> ClosedBy(world, i))
      ensures done.None? ==> EndsWith(world, i).None? && yielded == old(yielded)
      ensures done.Some? && done.value.Yielded? ==>
                && EndsWith(world, i).None? && yielded == old(yielded) + [i]
                && done.value.item == i && world.items[i] == Notified(done.value.name)
      ensures done.Some? && !done.value.Yielded? ==>
                && EndsWith(world, i).Some? && done.value == Threw(EndsWith(world, i).value)
                && yielded == old(yielded)
    {
      hide GoesOn, DeliveredIn, FailuresIn, FailedListener;
      RecordsGrow(world, i);
      match world.items[i] {
        case RawInterrupt =>
          return Some(Threw(Interrupt));
        case ListenerFailed(name, code) =>
          var error := Fail(i, Failure(name, ListenerKind, ListenerError(code)));
          return if error.Some? then Some(Threw(error.value)) else None;
        case Notified(name) =>
          var verdict, calls := CallFunctions(FunctionsOf(world, name), world.replies(i));
          if FunctionsOf(world, name) != [] && world.functionCloses(i) {
            Close();
          }
          VerdictComes(FunctionsOf(world, name), world.replies(i), 0);
          VerdictIsUnique(FunctionsOf(world, name), world.replies(i), verdict,
                          VerdictFrom(FunctionsOf(world, name), world.replies(i), 0));
          match verdict {
            case Passed =>
              yielded := yielded + [i];
              return Some(Yielded(name, i));
            case Failed(_) =>
              var error := Fail(i, Failure(name, TriggerKind, TriggerError(i)));
              return if error.Some? then Some(Threw(error.value)) else None;
            case NotAwaited(_) =>
              return Some(Threw(AwaitableReturned));
            case Interrupted(_) =>
              return Some(Threw(Interrupt));
          }
      }
    }

    /** Records a failure, and raises it or asks what to do. */
    method Fail(i: nat, failure: Failure) returns (error: Option<Error>)
      requires Coherent() && i < |world.items| && FateOf(world, i) == Recorded(failure)
      modifies `closed, raw`closes, policy
      ensures Coherent() && (closed <==> old(closed) || (world.onError.Ask? && world.onErrorCloses(i)))
      ensures policy.failures == old(policy.failures) + [failure]
      ensures policy.failedListeners
              == if failure.kind.ListenerKind? then old(policy.failedListeners) + {failure.listener}
                 else old(policy.failedListeners)
      ensures error == EndsWith(world, i)
    {
      var raiseNow := policy.Record(failure);
      if raiseNow {
        return Some(failure.error);
      }
      error := policy.Consult(i, world.answers(i));
      if world.onError.Ask? && world.onErrorCloses(i) {
        Close();
      }
    }
  }

  lemma RecordsGrow(w: World, i: nat)
    requires i < |w.items|
    ensures DeliveredIn(w, i + 1)
            == if FateOf(w, i).Delivered? then DeliveredIn(w, i) + [i] else DeliveredIn(w, i)
    ensures FailuresIn(w, i + 1)
            == if FateOf(w, i).Recorded? then FailuresIn(w, i) + [FateOf(w, i).failure] else FailuresIn(w, i)
    ensures forall name :: FailedListener(w, i + 1, name) <==>
              FailedListener(w, i, name) || (w.items[i].ListenerFailed? && w.items[i].name == name)
  {
    hide FateOf;
    if w.items[i].ListenerFailed? {
      assert FailedListener(w, i + 1, w.items[i].name);
    }
    assert DeliveredIn(w, i) + [] == DeliveredIn(w, i) && FailuresIn(w, i) + [] == FailuresIn(w, i);
  }

  // ---------- A whole loop ----------

  /** Reading until something ends the loop, under any policy. The first `n` items were read:
      the notifications whose triggers passed came out in order, and the failures are recorded.
      The loop ends at the end of the source, after the first item for which one of the caller's
      functions closed the iterator, or at the first item that ends it. */
  method ReadAll(world: World) returns (items: seq<nat>, failures: seq<Failure>, n: nat, end: Outcome)
    requires Named(world)
    ensures n <= |world.items|
    ensures items == DeliveredIn(world, n) && failures == FailuresIn(world, n)
    ensures OpenBefore(world, n)
    ensures GoesOn(world, n) ==>
              && (n == |world.items| || (n > 0 && ClosedBy(world, n - 1)))
              && |items| + |failures| == n && end == Ending(world, n)
    ensures !GoesOn(world, n) ==>
              && n > 0 && GoesOn(world, n - 1) && EndsWith(world, n - 1).Some?
              && end == Threw(EndsWith(world, n - 1).value)
  {
    hide DeliveredIn, FailuresIn, FailedListener, Ending, EndsWith, FateOf, ClosedBy;
    var it := new MultiNotificationIterator(world);
    items := [];
    while true
      invariant it.Valid() && fresh(it) && fresh(it.raw) && fresh(it.policy)
      invariant it.world == world && !it.stopped && items == it.yielded
      invariant it.closed ==> it.raw.read > 0 && ClosedBy(world, it.raw.read - 1)
      decreases |world.items| - it.raw.read
    {
      end := it.Next();
      if !end.Yielded? {
        n := it.raw.read;
        if GoesOn(world, n) {
          EveryItemIsAccountedFor(world, n);
        }
        return items, it.policy.failures, n, end;
      }
      items := items + [end.item];
    }
  }

  /** Under "continue" nothing ends the loop early but an interrupt or a programming error. */
  lemma ContinueGoesOn(w: World, n: nat)
    requires w.onError.Continue? && n <= |w.items|
    ensures GoesOn(w, n) <==> forall i :: 0 <= i < n ==> !FateOf(w, i).Escapes?
  {
    forall i | 0 <= i < n ensures EndsWith(w, i).None? <==> !FateOf(w, i).Escapes? {
    }
  }
}
