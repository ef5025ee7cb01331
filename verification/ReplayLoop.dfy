/**
 Reading a whole history in batches: ask for everything after the last sequence seen, until a batch
 ends cleanly. The server is an oracle: how much of what is left it sends, and how the watch ends.
 */
module ReplayLoop {
  import opened Wrappers

  datatype Failure = HistoryGap | OtherFailure

  datatype Batch = Batch(taken: nat, failure: Option<Failure>)

  /** What the server does in a given round, asked for what comes after a sequence. */
  type Server = (nat, Option<nat>) -> Batch

  ghost predicate Increasing(history: seq<nat>) {
    forall i, j :: 0 <= i < j < |history| ==> history[i] < history[j]
  }

  /** The part of the history after `resumeAfter`; all of it when nothing was seen. */
  function After(history: seq<nat>, resumeAfter: Option<nat>): seq<nat> {
    if history == [] || resumeAfter.None? || resumeAfter.value < history[0] then history
    else After(history[1..], resumeAfter)
  }

  function Last(seen: seq<nat>): Option<nat> {
    if seen == [] then None else Some(seen[|seen| - 1])
  }

  /** The server may stop early, but does not call that a clean end. */
  ghost predicate Honest(server: Server, history: seq<nat>) {
    forall round, resumeAfter ::
      var batch := server(round, resumeAfter);
      var left := |After(history, resumeAfter)|;
      batch.taken <= left && (batch.failure.None? ==> batch.taken == left)
  }

  /** Asking after the last one seen gives exactly what was not seen. */
  lemma {:induction false} ResumesWhereItStopped(history: seq<nat>, seen: nat)
    requires Increasing(history) && seen <= |history|
    ensures After(history, Last(history[..seen])) == history[seen..]
  {
    if 0 < seen {
      assert history[..seen][|history[..seen]| - 1] == history[seen - 1];
      if 1 < seen {
        ResumesWhereItStopped(history[1..], seen - 1);
        assert history[1..][..seen - 1][seen - 2] == history[seen - 1];
      } else if |history| > 1 {
        assert history[0] < history[1];
      }
    }
  }

  /** Sends at most `cap` notifications, and calls it a gap when more are left. */
  function Capped(history: seq<nat>, cap: nat): Server {
    (round, resumeAfter) =>
      var left := |After(history, resumeAfter)|;
      if left <= cap then Batch(left, None) else Batch(cap, Some(HistoryGap))
  }

  class Counter {
    var count: nat
    var last: Option<nat>
    var failure: Option<Failure>

    constructor ()
      ensures count == 0 && last == None && failure == None
    {
      count, last, failure := 0, None, None;
    }

    method OnNotification(sequence: nat)
      modifies this
      ensures count == old(count) + 1 && last == Some(sequence) && failure == old(failure)
    {
      last := Some(sequence);
      count := count + 1;
    }

    method OnEnd(error: Option<Failure>)
      modifies this
      ensures failure == error && count == old(count) && last == old(last)
    {
      failure := error;
    }
  }

  predicate StoppedShort(counter: Counter)
    reads counter
  {
    counter.failure == Some(HistoryGap) && counter.last.Some?
  }

  /** Runs one watch to its end, the handler seeing each notification and then how it ended. */
  method Watch(counter: Counter, left: seq<nat>, batch: Batch) returns (delivered: seq<nat>)
    requires batch.taken <= |left| && counter.count == 0 && counter.last == None
    modifies counter
    ensures delivered == left[..batch.taken]
    ensures counter.count == |delivered| && counter.last == Last(delivered) && counter.failure == batch.failure
  {
    delivered := [];
    for i := 0 to batch.taken
      invariant delivered == left[..i] && counter.count == i && counter.last == Last(delivered)
    {
      counter.OnNotification(left[i]);
      delivered := delivered + [left[i]];
    }
    counter.OnEnd(batch.failure);
  }

  /** How the run stood at its last request: `seen` had come, and `delivered` came in all. */
  ghost predicate EndsAt(
    history: seq<nat>, server: Server, delivered: seq<nat>, rounds: nat, resumeAfter: Option<nat>, seen: nat)
  {
    && 1 <= rounds && rounds - 1 <= seen <= |history| && (rounds == 1 <==> seen == 0)
    && resumeAfter == Last(history[..seen])
    && seen + server(rounds - 1, resumeAfter).taken <= |history|
    && delivered == history[..seen + server(rounds - 1, resumeAfter).taken]
  }

  lemma BatchIsHonest(server: Server, history: seq<nat>, rounds: nat, seen: nat)
    requires Increasing(history) && Honest(server, history) && seen <= |history|
    ensures var batch, left := server(rounds, Last(history[..seen])), |history| - seen;
            && After(history, Last(history[..seen])) == history[seen..]
            && batch.taken <= left && (batch.failure.None? ==> batch.taken == left)
  {
    ResumesWhereItStopped(history, seen);
  }

  lemma TakesMore(history: seq<nat>, seen: nat, taken: nat)
    requires seen + taken <= |history|
    ensures var more := history[seen..][..taken];
            && history[..seen] + more == history[..seen + taken]
            && (Last(more).Some? <==> taken > 0)
            && (taken > 0 ==> Last(more) == Last(history[..seen + taken]))
  {
  }

  lemma NothingSeen()
    ensures Last([]) == None
  {
  }

  /**
   The loop ends, whatever the server does, after one round more than there are notifications at
   most. Code 0 means the whole history was delivered once and in order; code 1 means the last batch
   failed otherwise than at a gap, or at a gap with nothing delivered, and then what was delivered is
   the history up to some point.
   */
  method Replay(history: seq<nat>, server: Server)
    returns (code: nat, total: nat, delivered: seq<nat>, rounds: nat, resumeAfter: Option<nat>)
    requires Increasing(history) && Honest(server, history)
    ensures 1 <= rounds <= |history| + 1 && total == |delivered| <= |history|
    ensures exists seen :: EndsAt(history, server, delivered, rounds, resumeAfter, seen)
    ensures code == 0 || code == 1
    ensures code == 0 <==> server(rounds - 1, resumeAfter).failure.None?
    ensures code == 1 <==>
              var last := server(rounds - 1, resumeAfter);
              last.failure == Some(OtherFailure) || (last.failure == Some(HistoryGap) && last.taken == 0)
    ensures rounds == 1 <==> server(0, None).failure != Some(HistoryGap) || server(0, None).taken == 0
    ensures code == 0 ==> delivered == history
    ensures delivered <= history
  {
    hide After, Increasing, Honest, Last;
    NothingSeen();
    code, total, delivered, rounds, resumeAfter := 0, 0, [], 0, None;
    while true
      invariant delivered <= history && resumeAfter == Last(delivered) && total == |delivered|
      invariant rounds <= |delivered|
      invariant rounds == 0 <==> delivered == []
      invariant rounds > 0 ==> server(0, None).failure == Some(HistoryGap) && server(0, None).taken > 0
      decreases |history| - |delivered|
    {
      ghost var seen := |delivered|;
      assert delivered == history[..seen];
      BatchIsHonest(server, history, rounds, seen);
      var batch := server(rounds, resumeAfter);
      var counter := new Counter();
      var more := Watch(counter, After(history, resumeAfter), batch);
      TakesMore(history, seen, batch.taken);
      delivered, total, rounds := delivered + more, total + counter.count, rounds + 1;
      assert EndsAt(history, server, delivered, rounds, resumeAfter, seen);
      if StoppedShort(counter) {
        resumeAfter := counter.last;
        continue;
      }
      if counter.failure.Some? {
        assert counter.failure.value.HistoryGap? || counter.failure.value.OtherFailure?;
        return 1, total, delivered, rounds, resumeAfter;
      }
      return;
    }
  }

  /** Behind a cap of at least one, the loop reads everything; behind a cap of none, only an empty
      history. */
  method ReplayCapped(history: seq<nat>, cap: nat) returns (code: nat, total: nat, delivered: seq<nat>)
    requires Increasing(history)
    ensures code == 0 <==> cap > 0 || history == []
    ensures code == 0 ==> delivered == history && total == |history|
    ensures code != 0 ==> delivered == [] && total == 0
  {
    var server := Capped(history, cap);
    var rounds, resumeAfter;
    code, total, delivered, rounds, resumeAfter := Replay(history, server);
    ghost var seen :| EndsAt(history, server, delivered, rounds, resumeAfter, seen);
    ResumesWhereItStopped(history, seen);
  }
}
