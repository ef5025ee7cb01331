/**
 Calling function triggers: each in order, each retried, required ones able to fail the
 notification. `replies(i, a)` is what trigger `i` does on attempt `a`; nothing is assumed of it.
 */
module Functions {

  /** `Escaped` is an exception no handler here takes, such as an interrupt. */
  datatype Reply = Returned | ReturnedAwaitable | Raised | Escaped

  datatype Trigger = Trigger(retries: nat, required: bool)

  datatype Verdict =
    | Passed
    | Failed(trigger: nat)
    | NotAwaited(trigger: nat)
    | Interrupted(trigger: nat)

  type Replies = (nat, nat) -> Reply

  /** Attempt `a` is the one that settles trigger `i`: all before it raised. */
  ghost predicate SettledAt(functions: seq<Trigger>, replies: Replies, i: nat, a: nat)
    requires i < |functions|
  {
    a <= functions[i].retries && !replies(i, a).Raised? && forall b :: 0 <= b < a ==> replies(i, b).Raised?
  }

  ghost predicate AlwaysRaises(functions: seq<Trigger>, replies: Replies, i: nat)
    requires i < |functions|
  {
    forall a :: 0 <= a <= functions[i].retries ==> replies(i, a).Raised?
  }

  /** Trigger `i` lets the next one be called: it returned in the end, or it is optional. */
  ghost predicate LetsPass(functions: seq<Trigger>, replies: Replies, i: nat)
    requires i < |functions|
  {
    || (exists a :: SettledAt(functions, replies, i, a) && replies(i, a).Returned?)
    || (!functions[i].required && AlwaysRaises(functions, replies, i))
  }

  /** What the notification's triggers come to. */
  ghost predicate Comes(functions: seq<Trigger>, replies: Replies, verdict: Verdict) {
    match verdict
    case Passed => forall i :: 0 <= i < |functions| ==> LetsPass(functions, replies, i)
    case Failed(i) =>
      && i < |functions| && (forall j :: 0 <= j < i ==> LetsPass(functions, replies, j))
      && functions[i].required && AlwaysRaises(functions, replies, i)
    case NotAwaited(i) =>
      && i < |functions| && (forall j :: 0 <= j < i ==> LetsPass(functions, replies, j))
      && exists a :: SettledAt(functions, replies, i, a) && replies(i, a).ReturnedAwaitable?
    case Interrupted(i) =>
      && i < |functions| && (forall j :: 0 <= j < i ==> LetsPass(functions, replies, j))
      && exists a :: SettledAt(functions, replies, i, a) && replies(i, a).Escaped?
  }

  lemma SettledOnce(functions: seq<Trigger>, replies: Replies, i: nat, a: nat, b: nat)
    requires i < |functions| && SettledAt(functions, replies, i, a) && SettledAt(functions, replies, i, b)
    ensures a == b
  {
  }

  /** Whoever decides a notification alone does not let it pass. */
  lemma DeciderBlocks(functions: seq<Trigger>, replies: Replies, verdict: Verdict)
    requires Comes(functions, replies, verdict) && !verdict.Passed?
    ensures !LetsPass(functions, replies, verdict.trigger)
  {
    var i := verdict.trigger;
    forall a, b | SettledAt(functions, replies, i, a) && SettledAt(functions, replies, i, b) ensures a == b {
      SettledOnce(functions, replies, i, a, b);
    }
  }

  /** A notification's triggers come to one thing only. */
  lemma VerdictIsUnique(functions: seq<Trigger>, replies: Replies, v: Verdict, w: Verdict)
    requires Comes(functions, replies, v) && Comes(functions, replies, w)
    ensures v == w
  {
    if !v.Passed? {
      DeciderBlocks(functions, replies, v);
    }
    if !w.Passed? {
      DeciderBlocks(functions, replies, w);
    }
    if !v.Passed? && !w.Passed? {
      var i := v.trigger;
      forall a, b | SettledAt(functions, replies, i, a) && SettledAt(functions, replies, i, b) ensures a == b {
        SettledOnce(functions, replies, i, a, b);
      }
    }
  }

  /** The verdict, as a function: the first trigger that does not let pass decides. */
  ghost function VerdictFrom(functions: seq<Trigger>, replies: Replies, i: nat): Verdict
    requires i <= |functions|
    decreases |functions| - i
  {
    if i == |functions| then Passed
    else if LetsPass(functions, replies, i) then VerdictFrom(functions, replies, i + 1)
    else if AlwaysRaises(functions, replies, i) then Failed(i)
    else if exists a :: SettledAt(functions, replies, i, a) && replies(i, a).ReturnedAwaitable? then NotAwaited(i)
    else Interrupted(i)
  }

  lemma {:induction false} VerdictComes(functions: seq<Trigger>, replies: Replies, i: nat)
    requires i <= |functions| && forall j :: 0 <= j < i ==> LetsPass(functions, replies, j)
    ensures Comes(functions, replies, VerdictFrom(functions, replies, i))
    decreases |functions| - i
  {
    if i < |functions| {
      if LetsPass(functions, replies, i) {
        VerdictComes(functions, replies, i + 1);
      } else if !AlwaysRaises(functions, replies, i) {
        var a :| 0 <= a <= functions[i].retries && !replies(i, a).Raised?;
        var first := FirstSettled(functions, replies, i, a);
        assert SettledAt(functions, replies, i, first);
      }
    }
  }

  lemma FirstSettled(functions: seq<Trigger>, replies: Replies, i: nat, a: nat) returns (first: nat)
    requires i < |functions| && a <= functions[i].retries && !replies(i, a).Raised?
    ensures SettledAt(functions, replies, i, first)
    decreases a
  {
    if b :| 0 <= b < a && !replies(i, b).Raised? {
      first := FirstSettled(functions, replies, i, b);
    } else {
      first := a;
    }
  }

  /** What one trigger makes of a notification: the first attempt that does not raise decides; if
      all of them raise, a required one fails the notification and an optional one does not. */
  lemma OneTrigger(retries: nat, required: bool, replies: Replies, a: nat)
    requires a <= retries && forall b :: 0 <= b < a ==> replies(0, b).Raised?
    ensures var verdict := VerdictFrom([Trigger(retries, required)], replies, 0);
            && (replies(0, a).Returned? ==> verdict == Passed)
            && (replies(0, a).ReturnedAwaitable? ==> verdict == NotAwaited(0))
            && (replies(0, a).Escaped? ==> verdict == Interrupted(0))
            && (replies(0, a).Raised? && a == retries ==> verdict == if required then Failed(0) else Passed)
  {
    var functions := [Trigger(retries, required)];
    var verdict: Verdict := match replies(0, a) {
      case Returned => Passed
      case ReturnedAwaitable => NotAwaited(0)
      case Escaped => Interrupted(0)
      case Raised => if required then Failed(0) else Passed
    };
    VerdictComes(functions, replies, 0);
    if !replies(0, a).Raised? || a == retries {
      assert replies(0, a).Raised? || SettledAt(functions, replies, 0, a);
      assert Comes(functions, replies, verdict);
      VerdictIsUnique(functions, replies, verdict, VerdictFrom(functions, replies, 0));
    }
  }

  /** The triggers after one are asked exactly if that one lets them. */
  lemma OneAfterAnother(first: Trigger, rest: seq<Trigger>, replies: Replies)
    ensures var functions := [first] + rest;
            var alone := VerdictFrom([first], replies, 0);
            VerdictFrom(functions, replies, 0)
            == if alone.Passed? then VerdictFrom(functions, replies, 1) else alone
  {
    var functions := [first] + rest;
    assert forall a :: SettledAt(functions, replies, 0, a) == SettledAt([first], replies, 0, a);
    assert AlwaysRaises(functions, replies, 0) == AlwaysRaises([first], replies, 0);
    assert LetsPass(functions, replies, 0) == LetsPass([first], replies, 0);
  }

  /** Call `k` comes in order: an attempt only after the one before it raised, a trigger only
      after every one before it was let pass, and no call in between. */
  ghost predicate Placed(functions: seq<Trigger>, replies: Replies, calls: seq<(nat, nat)>, k: nat)
    requires k < |calls|
  {
    var i, a := calls[k].0, calls[k].1;
    && i < |functions| && a <= functions[i].retries
    && (forall b :: 0 <= b < a ==> replies(i, b).Raised?)
    && (forall j :: 0 <= j < i ==> LetsPass(functions, replies, j))
    && (if k == 0 then i == 0 && a == 0
        else if a > 0 then calls[k - 1] == (i, a - 1)
        else calls[k - 1].0 == i - 1)
  }

  ghost predicate InOrder(functions: seq<Trigger>, replies: Replies, calls: seq<(nat, nat)>) {
    forall k :: 0 <= k < |calls| ==> Placed(functions, replies, calls, k)
  }

  /** Trigger `i` was called until it was settled or its retries were used up. */
  ghost predicate Tried(functions: seq<Trigger>, replies: Replies, calls: seq<(nat, nat)>, i: nat)
    requires i < |functions|
  {
    exists a :: (i, a) in calls &&
      (SettledAt(functions, replies, i, a) || (AlwaysRaises(functions, replies, i) && a == functions[i].retries))
  }

  /** With `InOrder`: the calls of triggers `0..n`, all of them and no other. */
  ghost predicate AllTried(functions: seq<Trigger>, replies: Replies, calls: seq<(nat, nat)>, n: nat)
    requires n <= |functions|
  {
    && (forall i :: 0 <= i < n ==> Tried(functions, replies, calls, i))
    && forall k :: 0 <= k < |calls| ==> calls[k].0 < n
  }

  lemma AllTriedGrows(functions: seq<Trigger>, replies: Replies, calls: seq<(nat, nat)>, i: nat, n: nat)
    requires i < |functions| && n > 0 && AllTried(functions, replies, calls, i)
    requires SettledAt(functions, replies, i, n - 1)
             || (AlwaysRaises(functions, replies, i) && n - 1 == functions[i].retries)
    ensures AllTried(functions, replies, calls + Attempts(i, n), i + 1)
  {
    hide SettledAt, AlwaysRaises;
    var grown := calls + Attempts(i, n);
    forall j | 0 <= j < i ensures Tried(functions, replies, grown, j) {
      assert Tried(functions, replies, calls, j);
    }
    assert grown[|calls| + n - 1] == (i, n - 1);
    assert (i, n - 1) in grown;
  }

  function Attempts(i: nat, n: nat): seq<(nat, nat)> {
    seq(n, a requires 0 <= a < n => (i, a))
  }

  lemma InOrderGrows(functions: seq<Trigger>, replies: Replies, calls: seq<(nat, nat)>, i: nat, n: nat)
    requires InOrder(functions, replies, calls) && i < |functions| && 1 <= n <= functions[i].retries + 1
    requires forall b :: 0 <= b < n - 1 ==> replies(i, b).Raised?
    requires forall j :: 0 <= j < i ==> LetsPass(functions, replies, j)
    requires if i == 0 then calls == [] else calls != [] && calls[|calls| - 1].0 == i - 1
    ensures InOrder(functions, replies, calls + Attempts(i, n))
  {
    hide LetsPass;
    var grown := calls + Attempts(i, n);
    forall k | 0 <= k < |grown| ensures Placed(functions, replies, grown, k) {
      if k < |calls| {
        assert Placed(functions, replies, calls, k);
      } else {
        assert grown[k] == (i, k - |calls|);
        assert k > |calls| ==> grown[k - 1] == (i, k - 1 - |calls|);
      }
    }
  }

  method CallFunctions(functions: seq<Trigger>, replies: Replies)
    returns (verdict: Verdict, calls: seq<(nat, nat)>)
    ensures Comes(functions, replies, verdict)
    ensures InOrder(functions, replies, calls)
    ensures AllTried(functions, replies, calls, if verdict.Passed? then |functions| else verdict.trigger + 1)
  {
    hide InOrder, LetsPass, Tried;
    calls := [];
    NothingCalled(functions, replies);
    for i := 0 to |functions|
      invariant forall j :: 0 <= j < i ==> LetsPass(functions, replies, j)
      invariant InOrder(functions, replies, calls) && AllTried(functions, replies, calls, i)
      invariant if i == 0 then calls == [] else calls != [] && calls[|calls| - 1].0 == i - 1
    {
      var reply, n := TryFunction(functions, replies, i);
      InOrderGrows(functions, replies, calls, i, n);
      AllTriedGrows(functions, replies, calls, i, n);
      assert (calls + Attempts(i, n))[|calls| + n - 1] == (i, n - 1);
      calls := calls + Attempts(i, n);
      if reply.Escaped? {
        return Interrupted(i), calls;
      }
      if reply.ReturnedAwaitable? {
        return NotAwaited(i), calls;
      }
      if reply.Raised? && functions[i].required {
        return Failed(i), calls;
      }
      LetPass(functions, replies, i, n - 1);
    }
    return Passed, calls;
  }

  lemma NothingCalled(functions: seq<Trigger>, replies: Replies)
    ensures InOrder(functions, replies, [])
  {
  }

  lemma LetPass(functions: seq<Trigger>, replies: Replies, i: nat, a: nat)
    requires i < |functions|
    requires (SettledAt(functions, replies, i, a) && replies(i, a).Returned?)
             || (!functions[i].required && AlwaysRaises(functions, replies, i))
    ensures LetsPass(functions, replies, i)
  {
  }

  /** Calls one function until it does not raise, `retries + 1` times at most. */
  method TryFunction(functions: seq<Trigger>, replies: Replies, i: nat) returns (reply: Reply, n: nat)
    requires i < |functions|
    ensures 1 <= n <= functions[i].retries + 1 && reply == replies(i, n - 1)
    ensures reply.Raised? ==> n == functions[i].retries + 1
    ensures forall b :: 0 <= b < n - 1 ==> replies(i, b).Raised?
    ensures if reply.Raised? then AlwaysRaises(functions, replies, i) else SettledAt(functions, replies, i, n - 1)
  {
    n := 0;
    reply := Raised;
    while n <= functions[i].retries
      invariant 0 <= n <= functions[i].retries + 1 && reply.Raised? && (n > 0 ==> reply == replies(i, n - 1))
      invariant forall b :: 0 <= b < n ==> replies(i, b).Raised?
    {
      reply := replies(i, n);
      n := n + 1;
      if !reply.Raised? {
        return;
      }
    }
  }
}
