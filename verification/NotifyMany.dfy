/**
 Publishing many notifications with a bounded number in flight, in whatever order the server
 answers, and giving the outcomes back in the order of the requests.
 */
module NotifyMany {
  const DEFAULT_NOTIFY_CONCURRENCY: nat := 16

  /** What a run does on the wire, in order. */
  datatype Event<Answer> = Sent(index: nat) | Answered(index: nat, answer: Answer)

  ghost function InFlight<Answer>(events: seq<Event<Answer>>): set<nat> {
    if events == [] then {}
    else
      var before, last := InFlight(events[..|events| - 1]), events[|events| - 1];
      if last.Sent? then before + {last.index} else before - {last.index}
  }

  ghost function SentSoFar<Answer>(events: seq<Event<Answer>>): nat {
    if events == [] then 0
    else SentSoFar(events[..|events| - 1]) + if events[|events| - 1].Sent? then 1 else 0
  }

  /** The answers with their indices, in the order they came. */
  ghost function Finished<Answer>(events: seq<Event<Answer>>): seq<(nat, Answer)> {
    if events == [] then []
    else
      var before, last := Finished(events[..|events| - 1]), events[|events| - 1];
      if last.Answered? then before + [(last.index, last.answer)] else before
  }

  /** Requests go out in order and only below the limit; an answer is to a request in flight, and is
      waited for only when nothing more may be sent. */
  ghost predicate Allowed<Answer>(before: seq<Event<Answer>>, event: Event<Answer>, n: nat, limit: nat) {
    match event
    case Sent(index) => index == SentSoFar(before) < n && |InFlight(before)| < limit
    case Answered(index, _) =>
      index in InFlight(before) && (|InFlight(before)| == limit || SentSoFar(before) == n)
  }

  ghost predicate Scheduled<Answer(!new)>(events: seq<Event<Answer>>, n: nat, limit: nat) {
    forall k :: 0 <= k < |events| ==> Allowed(events[..k], events[k], n, limit)
  }

  /** The whole batch is out and answered. */
  ghost predicate Complete<Answer(!new)>(events: seq<Event<Answer>>, n: nat, limit: nat) {
    Scheduled(events, n, limit) && SentSoFar(events) == n && InFlight(events) == {}
  }

  ghost predicate IsAnswered<Answer>(events: seq<Event<Answer>>, i: nat) {
    exists k :: 0 <= k < |events| && events[k].Answered? && events[k].index == i
  }

  /** Every answer is the server's to the request with that index, at that moment. */
  ghost predicate Truthful<Request, Answer(!new)>(
    events: seq<Event<Answer>>, requests: seq<Request>, answer: (nat, Request) -> Answer)
  {
    forall k :: 0 <= k < |events| && events[k].Answered? ==>
      events[k].index < |requests| && events[k].answer == answer(k, requests[events[k].index])
  }

  lemma ScheduledPrefix<Answer(!new)>(events: seq<Event<Answer>>, k: nat, n: nat, limit: nat)
    requires Scheduled(events, n, limit) && k <= |events|
    ensures Scheduled(events[..k], n, limit)
  {
    forall j | 0 <= j < k ensures Allowed(events[..k][..j], events[..k][j], n, limit) {
      assert events[..k][..j] == events[..j];
    }
  }

  lemma EventGrows<Answer>(events: seq<Event<Answer>>, event: Event<Answer>)
    ensures InFlight(events + [event])
            == if event.Sent? then InFlight(events) + {event.index} else InFlight(events) - {event.index}
    ensures SentSoFar(events + [event]) == SentSoFar(events) + if event.Sent? then 1 else 0
    ensures Finished(events + [event])
            == if event.Sent? then Finished(events) else Finished(events) + [(event.index, event.answer)]
  {
    assert (events + [event])[..|events|] == events;
  }

  lemma ScheduledGrows<Answer(!new)>(events: seq<Event<Answer>>, event: Event<Answer>, n: nat, limit: nat)
    requires Scheduled(events, n, limit) && Allowed(events, event, n, limit)
    ensures Scheduled(events + [event], n, limit)
  {
    hide Allowed;
    var grown := events + [event];
    assert grown[..|events|] == events;
    forall k | 0 <= k < |grown| ensures Allowed(grown[..k], grown[k], n, limit) {
      assert k < |events| ==> grown[..k] == events[..k];
    }
  }

  /** Index `i` is among the finished ones. */
  ghost predicate Holds<Answer>(finished: seq<(nat, Answer)>, i: nat) {
    exists p :: 0 <= p < |finished| && finished[p].0 == i
  }

  /** Never more than `limit` in flight; every request sent is in flight or answered, none both. */
  ghost predicate Accounted<Answer>(
    inFlight: set<nat>, finished: seq<(nat, Answer)>, sent: nat, n: nat, limit: nat)
  {
    && |inFlight| <= limit && sent <= n
    && |finished| + |inFlight| == sent
    && (forall i :: i in inFlight ==> i < sent && !Holds(finished, i))
    && (forall p :: 0 <= p < |finished| ==> finished[p].0 < sent)
    && (forall i :: 0 <= i < sent && i !in inFlight ==> Holds(finished, i))
  }

  lemma AccountedSend<Answer>(inFlight: set<nat>, finished: seq<(nat, Answer)>, sent: nat, n: nat, limit: nat)
    requires Accounted(inFlight, finished, sent, n, limit) && sent < n && |inFlight| < limit
    ensures Accounted(inFlight + {sent}, finished, sent + 1, n, limit)
  {
  }

  lemma AccountedAnswer<Answer>(
    inFlight: set<nat>, finished: seq<(nat, Answer)>, sent: nat, n: nat, limit: nat, index: nat, answer: Answer)
    requires Accounted(inFlight, finished, sent, n, limit) && index in inFlight
    ensures Accounted(inFlight - {index}, finished + [(index, answer)], sent, n, limit)
  {
    var more := finished + [(index, answer)];
    forall i ensures Holds(more, i) <==> Holds(finished, i) || i == index {
      if Holds(finished, i) {
        var p :| 0 <= p < |finished| && finished[p].0 == i;
        assert more[p].0 == i;
      }
      assert more[|finished|].0 == index;
    }
  }

  lemma AccountedStep<Answer(!new)>(before: seq<Event<Answer>>, event: Event<Answer>, n: nat, limit: nat)
    requires Allowed(before, event, n, limit)
    requires Accounted(InFlight(before), Finished(before), SentSoFar(before), n, limit)
    ensures var events := before + [event];
            Accounted(InFlight(events), Finished(events), SentSoFar(events), n, limit)
  {
    hide Accounted, InFlight, Finished, SentSoFar;
    EventGrows(before, event);
    if event.Sent? {
      AccountedSend(InFlight(before), Finished(before), SentSoFar(before), n, limit);
    } else {
      AccountedAnswer(InFlight(before), Finished(before), SentSoFar(before), n, limit, event.index, event.answer);
    }
  }

  lemma AccountedNothing<Answer(!new)>(n: nat, limit: nat)
    ensures Accounted(InFlight<Answer>([]), Finished<Answer>([]), SentSoFar<Answer>([]), n, limit)
  {
  }

  /** What every prefix of a run keeps. */
  lemma {:induction false} ScheduleKeeps<Answer(!new)>(events: seq<Event<Answer>>, n: nat, limit: nat)
    requires Scheduled(events, n, limit)
    ensures Accounted(InFlight(events), Finished(events), SentSoFar(events), n, limit)
    decreases |events|
  {
    hide Accounted, InFlight, Finished, SentSoFar, Allowed;
    if events == [] {
      AccountedNothing<Answer>(n, limit);
    } else {
      var before, last := events[..|events| - 1], events[|events| - 1];
      ScheduledPrefix(events, |events| - 1, n, limit);
      assert Allowed(before, last, n, limit);
      ScheduleKeeps(before, n, limit);
      AccountedStep(before, last, n, limit);
      assert events == before + [last];
    }
  }

  /** At no moment of a run are more than `limit` in flight. */
  lemma NeverOverLimit<Answer(!new)>(events: seq<Event<Answer>>, k: nat, n: nat, limit: nat)
    requires Scheduled(events, n, limit) && k <= |events|
    ensures |InFlight(events[..k])| <= limit
  {
    ScheduledPrefix(events, k, n, limit);
    ScheduleKeeps(events[..k], n, limit);
  }

  /** Every request is sent at one moment only, and in order. */
  lemma SentOnceInOrder<Answer(!new)>(events: seq<Event<Answer>>, j: nat, k: nat, n: nat, limit: nat)
    requires Scheduled(events, n, limit) && j < k < |events| && events[j].Sent? && events[k].Sent?
    ensures events[j].index < events[k].index
  {
    assert Allowed(events[..j], events[j], n, limit) && Allowed(events[..k], events[k], n, limit);
    SentBefore(events, j, k);
  }

  lemma {:induction false} SentBefore<Answer>(events: seq<Event<Answer>>, j: nat, k: nat)
    requires j < k <= |events| && events[j].Sent?
    ensures SentSoFar(events[..j]) < SentSoFar(events[..k])
    decreases k
  {
    assert events[..k][..k - 1] == events[..k - 1];
    if j < k - 1 {
      SentBefore(events, j, k - 1);
    }
  }

  /** Every request is answered once: an index answered is never in flight again. */
  lemma AnsweredOnce<Answer(!new)>(events: seq<Event<Answer>>, j: nat, k: nat, n: nat, limit: nat)
    requires Scheduled(events, n, limit) && j < k < |events| && events[j].Answered? && events[k].Answered?
    ensures events[j].index != events[k].index
  {
    assert Allowed(events[..k], events[k], n, limit);
    StaysAnswered(events, j, k, n, limit);
  }

  lemma {:induction false} StaysAnswered<Answer(!new)>(events: seq<Event<Answer>>, j: nat, k: nat, n: nat, limit: nat)
    requires Scheduled(events, n, limit) && j < k <= |events| && events[j].Answered?
    ensures events[j].index < SentSoFar(events[..k]) && events[j].index !in InFlight(events[..k])
    decreases k
  {
    hide InFlight, SentSoFar;
    assert Allowed(events[..k - 1], events[k - 1], n, limit);
    assert events[..k] == events[..k - 1] + [events[k - 1]];
    EventGrows(events[..k - 1], events[k - 1]);
    if j < k - 1 {
      StaysAnswered(events, j, k - 1, n, limit);
    } else {
      ScheduledPrefix(events, j, n, limit);
      ScheduleKeeps(events[..j], n, limit);
    }
  }

  ghost predicate SortedByIndex<Answer>(s: seq<(nat, Answer)>) {
    forall p, q :: 0 <= p < q < |s| ==> s[p].0 <= s[q].0
  }

  ghost predicate Covers<Answer>(s: seq<(nat, Answer)>) {
    forall i :: 0 <= i < |s| ==> Holds(s, i)
  }

  /** Sorted indices that miss none of `0..|s|` are exactly those, each in its own place. */
  lemma EachInItsPlace<Answer>(s: seq<(nat, Answer)>, p: nat)
    requires SortedByIndex(s) && Covers(s) && p < |s|
    ensures s[p].0 == p
  {
    assert Holds(s, p);
    var q :| 0 <= q < |s| && s[q].0 == p;
    NotBefore(s, p, q);
    NotAfter(s, p, q);
  }

  lemma {:induction false} NotBefore<Answer>(s: seq<(nat, Answer)>, i: nat, p: nat)
    requires SortedByIndex(s) && Covers(s) && i < |s| && p < |s| && s[p].0 == i
    ensures i <= p
    decreases i
  {
    if i > 0 {
      assert Holds(s, i - 1);
      var q :| 0 <= q < |s| && s[q].0 == i - 1;
      NotBefore(s, i - 1, q);
    }
  }

  lemma {:induction false} NotAfter<Answer>(s: seq<(nat, Answer)>, i: nat, p: nat)
    requires SortedByIndex(s) && Covers(s) && i < |s| && p < |s| && s[p].0 == i
    ensures p <= i
    decreases |s| - i
  {
    if i < |s| - 1 {
      assert Holds(s, i + 1);
      var q :| 0 <= q < |s| && s[q].0 == i + 1;
      NotAfter(s, i + 1, q);
    }
  }

  /** Sorts in place by index. */
  method SortByIndex<Answer>(a: array<(nat, Answer)>)
    modifies a
    ensures SortedByIndex(a[..]) && multiset(a[..]) == multiset(old(a[..]))
  {
    for i := 0 to a.Length
      invariant SortedByIndex(a[..i]) && multiset(a[..]) == multiset(old(a[..]))
    {
      SiftDown(a, i);
    }
    assert a[..a.Length] == a[..];
  }

  /** Moves the element at `i` down to its place among the sorted ones before it. */
  method SiftDown<Answer>(a: array<(nat, Answer)>, i: nat)
    requires i < a.Length && SortedByIndex(a[..i])
    modifies a
    ensures SortedByIndex(a[..i + 1]) && multiset(a[..]) == multiset(old(a[..]))
  {
    hide SortedByIndex, SortedButOne;
    var j := i;
    assert a[..i + 1][..i] == a[..i];
    OneMoreUnsorted(a[..i + 1]);
    while j > 0 && a[j - 1].0 > a[j].0
      invariant 0 <= j <= i && multiset(a[..]) == multiset(old(a[..]))
      invariant SortedButOne(a[..i + 1], j)
    {
      SwapKeepsOrder(a[..i + 1], j);
      SwapDown(a, j, i + 1);
      j := j - 1;
    }
    SiftedIsSorted(a[..i + 1], j);
  }

  method SwapDown<Answer>(a: array<(nat, Answer)>, j: nat, n: nat)
    requires 0 < j < n <= a.Length
    modifies a
    ensures a[..n] == old(a[..n])[j - 1 := old(a[j])][j := old(a[j - 1])]
    ensures multiset(a[..]) == multiset(old(a[..]))
  {
    a[j - 1], a[j] := a[j], a[j - 1];
  }

  /** Sorted, but for the element at `j`, which is no greater than any after it. */
  ghost predicate SortedButOne<Answer>(s: seq<(nat, Answer)>, j: nat) {
    forall p, q :: 0 <= p < q < |s| && q != j ==> s[p].0 <= s[q].0
  }

  lemma OneMoreUnsorted<Answer>(s: seq<(nat, Answer)>)
    requires s != [] && SortedByIndex(s[..|s| - 1])
    ensures SortedButOne(s, |s| - 1)
  {
    var before := s[..|s| - 1];
    assert forall p :: 0 <= p < |before| ==> before[p] == s[p];
  }

  lemma SiftedIsSorted<Answer>(s: seq<(nat, Answer)>, j: nat)
    requires j < |s| && SortedButOne(s, j) && (j == 0 || s[j - 1].0 <= s[j].0)
    ensures SortedByIndex(s)
  {
  }

  lemma SwapKeepsOrder<Answer>(s: seq<(nat, Answer)>, j: nat)
    requires 0 < j < |s| && SortedButOne(s, j) && s[j - 1].0 > s[j].0
    ensures SortedButOne(s[j - 1 := s[j]][j := s[j - 1]], j - 1)
  {
  }

  lemma SameIndicesHeld<Answer>(s: seq<(nat, Answer)>, t: seq<(nat, Answer)>, i: nat)
    requires multiset(s) == multiset(t) && Holds(s, i)
    ensures Holds(t, i)
  {
    var p :| 0 <= p < |s| && s[p].0 == i;
    assert s[p] in multiset(s) && s[p] in multiset(t);
    var q :| 0 <= q < |t| && t[q] == s[p];
  }

  /** Whatever the order of the answers, sorting them puts each at its request's index. */
  lemma SortingRestoresOrder<Answer(!new)>(
    events: seq<Event<Answer>>, sorted: seq<(nat, Answer)>, n: nat, limit: nat)
    requires Complete(events, n, limit)
    requires SortedByIndex(sorted) && multiset(sorted) == multiset(Finished(events))
    ensures |sorted| == n
    ensures forall i :: 0 <= i < n ==> sorted[i].0 == i
    ensures forall k :: 0 <= k < |events| && events[k].Answered? ==>
      events[k].index < n && sorted[events[k].index].1 == events[k].answer
  {
    var finished := Finished(events);
    ScheduleKeeps(events, n, limit);
    hide InFlight, SentSoFar, Finished, Scheduled, Holds;
    assert |sorted| == |multiset(sorted)| == |multiset(finished)| == |finished|;
    forall i | 0 <= i < n ensures Holds(sorted, i) {
      SameIndicesHeld(finished, sorted, i);
    }
    forall i | 0 <= i < n ensures sorted[i].0 == i {
      EachInItsPlace(sorted, i);
    }
    forall k | 0 <= k < |events| && events[k].Answered?
      ensures events[k].index < n && sorted[events[k].index].1 == events[k].answer
    {
      AnswerIsFinished(events, k, |events|);
      assert events[..|events|] == events;
      var pair := (events[k].index, events[k].answer);
      assert pair in multiset(finished) && pair in multiset(sorted);
      var q :| 0 <= q < |sorted| && sorted[q] == pair;
    }
  }

  lemma {:induction false} AnswerIsFinished<Answer>(events: seq<Event<Answer>>, k: nat, m: nat)
    requires k < m <= |events| && events[k].Answered?
    ensures (events[k].index, events[k].answer) in Finished(events[..m])
    decreases m
  {
    assert events[..m][..m - 1] == events[..m - 1];
    if k < m - 1 {
      AnswerIsFinished(events, k, m - 1);
    }
  }

  /** `answer(k, request)` is what the server answers at step `k`; which request in flight it answers
      next is left open. */
  method NotifyMany<Request, Answer(!new)>(
    requests: seq<Request>, concurrency: nat, answer: (nat, Request) -> Answer)
    returns (results: seq<Answer>, events: seq<Event<Answer>>)
    ensures Complete(events, |requests|, if concurrency == 0 then 16 else concurrency)
    ensures Truthful(events, requests, answer)
    ensures |results| == |requests|
    ensures forall k :: 0 <= k < |events| && events[k].Answered? ==>
      events[k].index < |results| && results[events[k].index] == events[k].answer
    ensures forall i :: 0 <= i < |results| ==> IsAnswered(events, i)
  {
    var limit := if concurrency == 0 then DEFAULT_NOTIFY_CONCURRENCY else concurrency;
    var indexed: seq<(nat, Answer)>;
    indexed, events := BufferUnordered(requests, limit, answer);
    var sorting := new (nat, Answer)[|indexed|](i requires 0 <= i < |indexed| => indexed[i]);
    assert sorting[..] == indexed;
    SortByIndex(sorting);
    var sorted := sorting[..];
    SortingRestoresOrder(events, sorted, |requests|, limit);
    results := seq(|sorted|, i requires 0 <= i < |sorted| => sorted[i].1);
    forall i | 0 <= i < |results| ensures IsAnswered(events, i) {
      EachIsAnswered(events, |requests|, limit, i);
    }
  }

  lemma EachIsAnswered<Answer(!new)>(events: seq<Event<Answer>>, n: nat, limit: nat, i: nat)
    requires Complete(events, n, limit) && i < n
    ensures IsAnswered(events, i)
  {
    ScheduleKeeps(events, n, limit);
    assert Holds(Finished(events), i);
    var p :| 0 <= p < |Finished(events)| && Finished(events)[p].0 == i;
    var k := WhenFinished(events, p);
  }

  lemma {:induction false} WhenFinished<Answer>(events: seq<Event<Answer>>, p: nat) returns (k: nat)
    requires p < |Finished(events)|
    ensures k < |events| && events[k].Answered? && events[k].index == Finished(events)[p].0
    decreases |events|
  {
    var before := events[..|events| - 1];
    if p < |Finished(before)| {
      k := WhenFinished(before, p);
    } else {
      k := |events| - 1;
    }
  }

  /** Keeps sending while there is room, then takes one answer, until there is nothing left. */
  method BufferUnordered<Request, Answer(!new)>(
    requests: seq<Request>, limit: nat, answer: (nat, Request) -> Answer)
    returns (indexed: seq<(nat, Answer)>, events: seq<Event<Answer>>)
    requires limit > 0
    ensures Complete(events, |requests|, limit) && Truthful(events, requests, answer)
    ensures indexed == Finished(events)
  {
    hide InFlight, SentSoFar, Finished, Scheduled;
    var n := |requests|;
    var next, inFlight: set<nat> := 0, {};
    indexed, events := [], [];
    NothingSent<Answer>(n, limit);
    while next < n || inFlight != {}
      invariant Scheduled(events, n, limit) && Truthful(events, requests, answer)
      invariant next == SentSoFar(events) && inFlight == InFlight(events) && indexed == Finished(events)
      invariant next <= n
      decreases n - |indexed|
    {
      while |inFlight| < limit && next < n
        invariant Scheduled(events, n, limit) && Truthful(events, requests, answer)
        invariant next == SentSoFar(events) && inFlight == InFlight(events) && indexed == Finished(events)
        invariant next <= n && (next < n || inFlight != {})
        decreases n - next
      {
        ScheduledGrows(events, Sent(next), n, limit);
        EventGrows(events, Sent(next));
        events, inFlight, next := events + [Sent(next)], inFlight + {next}, next + 1;
      }
      ScheduleKeeps(events, n, limit);
      var index :| index in inFlight;
      var answered := Answered(index, answer(|events|, requests[index]));
      ScheduledGrows(events, answered, n, limit);
      EventGrows(events, answered);
      events, inFlight, indexed := events + [answered], inFlight - {index}, indexed + [(index, answered.answer)];
    }
  }

  lemma NothingSent<Answer(!new)>(n: nat, limit: nat)
    ensures Scheduled<Answer>([], n, limit)
    ensures SentSoFar<Answer>([]) == 0 && InFlight<Answer>([]) == {} && Finished<Answer>([]) == []
  {
  }
}
