/** Whole runs of the write queue: it cannot be told apart from one that expires writes eagerly,
    and it neither loses, duplicates nor reorders writes. */
module QueueRuns {
  import opened WriteQueue

  /** Clock events only let time pass. */
  datatype Event =
    | Enqueue(now: int, w: Write, stamp: int)
    | Drain(now: int)
    | Depth(now: int)
    | Clock(now: int)

  datatype Output = Accepted(ok: bool) | Writes(ws: seq<Write>) | Count(n: nat) | Silent

  /** The queue as it is: expired writes are only noticed by the next operation. */
  function LazyStep(s: State, e: Event): (State, Output) {
    match e
    case Enqueue(now, w, stamp) => var (s', ok) := Enqueued(s, w, now, stamp); (s', Accepted(ok))
    case Drain(now) => var (s', ws) := Drained(s, now); (s', Writes(ws))
    case Depth(now) => var s' := Evicted(s, now); (s', Count(|s'.items|))
    case Clock(_) => (s, Silent)
  }

  /** The reference queue: at every instant the writes that have reached their TTL are already gone. */
  function EagerStep(s: State, e: Event): (State, Output) {
    var s := Evicted(s, e.now);
    match e
    case Enqueue(_, w, stamp) =>
      if |s.items| < s.maxDepth
      then (Evicted(s.(items := s.items + [w.(enqueuedAt := stamp)]), stamp), Accepted(true))
      else (Evicted(s.(dropped := s.dropped + 1), stamp), Accepted(false))
    case Drain(_) => (s.(items := []), Writes(s.items))
    case Depth(_) => (s, Count(|s.items|))
    case Clock(_) => (s, Silent)
  }

  function EndOf(e: Event): int {
    if e.Enqueue? then e.stamp else e.now
  }

  /** Clock readings never decrease, starting from `t`. */
  ghost predicate Ordered(t: int, es: seq<Event>)
    decreases es
  {
    es == [] || (t <= es[0].now <= EndOf(es[0]) && Ordered(EndOf(es[0]), es[1..]))
  }

  function Lazy(s: State, es: seq<Event>): (State, seq<Output>)
    decreases es
  {
    if es == [] then (s, []) else
    var (s1, o) := LazyStep(s, es[0]);
    var (s2, os) := Lazy(s1, es[1..]);
    (s2, [o] + os)
  }

  function Eager(s: State, es: seq<Event>): (State, seq<Output>)
    decreases es
  {
    if es == [] then (s, []) else
    var (s1, o) := EagerStep(s, es[0]);
    var (s2, os) := Eager(s1, es[1..]);
    (s2, [o] + os)
  }

  // ----- refinement -----

  lemma {:induction false} KeptTwice(items: seq<Write>, ttl: int, t: int, u: int)
    requires t <= u
    ensures Kept(Kept(items, ttl, t), ttl, u) == Kept(items, ttl, u)
  {
    if items != [] {
      var init, w := items[..|items| - 1], items[|items| - 1];
      KeptTwice(init, ttl, t, u);
      var k := Kept(init, ttl, t);
      assert (k + [w])[..|k|] == k && k + [] == k;
    }
  }

  lemma KeptAppend(items: seq<Write>, w: Write, ttl: int, t: int)
    ensures Kept(items + [w], ttl, t) == Kept(items, ttl, t) + (if Live(w, ttl, t) then [w] else [])
  {
    assert (items + [w])[..|items|] == items;
  }

  /** The eager queue holds the lazy queue's live writes, and has already counted the others as dropped. */
  ghost predicate Simulates(l: State, e: State, t: int) {
    && e.maxDepth == l.maxDepth && e.ttl == l.ttl
    && e.items == Kept(l.items, l.ttl, t)
    && e.dropped + |e.items| == l.dropped + |l.items|
  }

  lemma EvictionsAgree(l: State, e: State, t: int, now: int)
    requires Simulates(l, e, t) && t <= now
    ensures Evicted(l, now) == Evicted(e, now)
    ensures Simulates(l, Evicted(e, now), now)
    ensures Simulates(Evicted(l, now), Evicted(l, now), now)
  {
    KeptTwice(l.items, l.ttl, t, now);
    KeptTwice(l.items, l.ttl, now, now);
  }

  ghost predicate AllLive(items: seq<Write>, ttl: int, now: int) {
    forall w | w in items :: Live(w, ttl, now)
  }

  lemma {:induction false} KeepsAllIffAllLive(items: seq<Write>, ttl: int, now: int)
    ensures |Kept(items, ttl, now)| <= |items|
    ensures |Kept(items, ttl, now)| == |items| <==> AllLive(items, ttl, now)
  {
    if items != [] {
      KeepsAllIffAllLive(items[..|items| - 1], ttl, now);
      assert items == items[..|items| - 1] + [items[|items| - 1]];
    }
  }

  /** The event leaves nothing expired unnoticed. Drain and Depth never do; time passing does as soon as a
      queued write expires; Enqueue does when a write expires between its two clock readings, or when the
      accepted write expires at once. */
  ghost predicate CatchesUp(l: State, ev: Event) {
    match ev
    case Drain(_) => true
    case Depth(_) => true
    case Clock(now) => AllLive(l.items, l.ttl, now)
    case Enqueue(now, _, stamp) =>
      && (forall w | w in l.items && Live(w, l.ttl, now) :: Live(w, l.ttl, stamp))
      && (|Kept(l.items, l.ttl, now)| < l.maxDepth ==> l.ttl >= 0)
  }

  /** An event notices every expired write exactly when all that the queue then holds is live. */
  lemma CatchesUpIffAllLive(l: State, ev: Event)
    ensures CatchesUp(l, ev) <==> AllLive(LazyStep(l, ev).0.items, l.ttl, EndOf(ev))
  {
    var kept := Kept(l.items, l.ttl, ev.now);
    forall w ensures w in kept <==> w in l.items && Live(w, l.ttl, ev.now) {
      KeptAreTheYoung(l.items, l.ttl, ev.now, w);
    }
    if ev.Enqueue? && |kept| < l.maxDepth {
      var w := ev.w.(enqueuedAt := ev.stamp);
      assert Live(w, l.ttl, ev.stamp) <==> l.ttl >= 0;
      assert forall x :: x in kept + [w] <==> x in kept || x == w;
      assert LazyStep(l, ev).0.items == kept + [w];
    }
  }

  lemma StepSimulates(l: State, e: State, t: int, ev: Event)
    requires Simulates(l, e, t) && t <= ev.now <= EndOf(ev)
    ensures LazyStep(l, ev).1 == EagerStep(e, ev).1
    ensures Simulates(LazyStep(l, ev).0, EagerStep(e, ev).0, EndOf(ev))
  {
    EvictionsAgree(l, e, t, ev.now);
    var s := Evicted(l, ev.now);
    if ev.Enqueue? {
      var w := ev.w.(enqueuedAt := ev.stamp);
      KeptTwice(l.items, l.ttl, ev.now, ev.stamp);
      KeptAppend(s.items, w, l.ttl, ev.stamp);
      KeptTwice(s.items, l.ttl, ev.now, ev.stamp);
      KeptTwice(l.items, l.ttl, ev.now, ev.now);
    }
  }

  lemma StepsAgree(l: State, e: State, t: int, ev: Event)
    requires Simulates(l, e, t) && t <= ev.now <= EndOf(ev)
    ensures var (l', x) := LazyStep(l, ev); var (e', y) := EagerStep(e, ev);
      && x == y
      && Simulates(l', e', EndOf(ev))
      && (l'.dropped == e'.dropped <==> CatchesUp(l, ev))
  {
    assert LazyStep(l, ev).0.ttl == l.ttl;
    hide LazyStep, EagerStep, CatchesUp, AllLive, Kept;
    StepSimulates(l, e, t, ev);
    CatchesUpIffAllLive(l, ev);
    KeepsAllIffAllLive(LazyStep(l, ev).0.items, l.ttl, EndOf(ev));
  }

  function EndTime(t: int, es: seq<Event>): int {
    if es == [] then t else EndOf(es[|es| - 1])
  }

  lemma {:induction false} RunsAgree(l: State, e: State, t: int, es: seq<Event>)
    requires Simulates(l, e, t) && Ordered(t, es)
    ensures Lazy(l, es).1 == Eager(e, es).1
    ensures Simulates(Lazy(l, es).0, Eager(e, es).0, EndTime(t, es))
    decreases es
  {
    hide CatchesUp, LazyStep, EagerStep, Simulates;
    if es != [] {
      StepsAgree(l, e, t, es[0]);
      RunsAgree(LazyStep(l, es[0]).0, EagerStep(e, es[0]).0, EndOf(es[0]), es[1..]);
    }
  }

  lemma {:induction false} LazyLast(s: State, es: seq<Event>)
    requires es != []
    ensures Lazy(s, es).0 == LazyStep(Lazy(s, es[..|es| - 1]).0, es[|es| - 1]).0
    decreases es
  {
    hide LazyStep;
    if |es| == 1 {
      assert es[..0] == [] && es[1..] == [];
    } else {
      LazyLast(LazyStep(s, es[0]).0, es[1..]);
      assert es[..|es| - 1][1..] == es[1..][..|es[1..]| - 1];
    }
  }

  lemma {:induction false} LazyKeepsTTL(s: State, es: seq<Event>)
    ensures Lazy(s, es).0.ttl == s.ttl
    decreases es
  {
    if es != [] { LazyKeepsTTL(LazyStep(s, es[0]).0, es[1..]); }
  }

  /** Lazy eviction refines eager expiry: for any events at non-decreasing times every acceptance, depth and
      drained sequence is the same. The lazy drop count never runs ahead, and after each event it is the same
      exactly when that event caught up. */
  lemma LazyRefinesEager(l: State, e: State, t: int, es: seq<Event>)
    requires Simulates(l, e, t) && Ordered(t, es)
    ensures Lazy(l, es).1 == Eager(e, es).1
    ensures Lazy(l, es).0.dropped <= Eager(e, es).0.dropped
    ensures es != [] ==>
      (Lazy(l, es).0.dropped == Eager(e, es).0.dropped <==> CatchesUp(Lazy(l, es[..|es| - 1]).0, es[|es| - 1]))
  {
    hide CatchesUp, LazyStep, EagerStep, Kept, Lazy, Eager, Ordered, AllLive;
    RunsAgree(l, e, t, es);
    var now := Lazy(l, es).0;
    KeepsAllIffAllLive(now.items, now.ttl, EndTime(t, es));
    if es != [] {
      var before := Lazy(l, es[..|es| - 1]).0;
      LazyLast(l, es);
      LazyKeepsTTL(l, es);
      LazyKeepsTTL(l, es[..|es| - 1]);
      CatchesUpIffAllLive(before, es[|es| - 1]);
    }
  }

  lemma LastStep(s: State, a: Event, b: Event)
    ensures Lazy(s, [a, b]).0 == LazyStep(LazyStep(s, a).0, b).0
    ensures Eager(s, [a, b]).0 == EagerStep(EagerStep(s, a).0, b).0
  {
    hide LazyStep, EagerStep;
    var es := [a, b];
    assert es[1..] == [b] && [b][1..] == [];
    assert Lazy(LazyStep(s, a).0, [b]).0 == LazyStep(LazyStep(s, a).0, b).0;
    assert Eager(EagerStep(s, a).0, [b]).0 == EagerStep(EagerStep(s, a).0, b).0;
  }

  lemma KeptOfOne(w: Write, ttl: int, t: int)
    ensures Kept([w], ttl, t) == if Live(w, ttl, t) then [w] else []
  {
    assert [] + [w] == [w];
    KeptAppend([], w, ttl, t);
  }

  /** The drop counts do differ: a write stamped 0 with a TTL of 10 is still queued when an Enqueue evicts at 5,
      and has expired when that Enqueue stamps its own write at 12. */
  lemma DropCountsCanDiffer(w: Write)
    ensures var s, es := State([], 5, 10, 0), [Enqueue(0, w, 0), Enqueue(5, w, 12)];
      && Simulates(s, s, 0) && Ordered(0, es)
      && Lazy(s, es).0.dropped == 0 && Eager(s, es).0.dropped == 1
  {
    var s, first, second := State([], 5, 10, 0), Enqueue(0, w, 0), Enqueue(5, w, 12);
    LastStep(s, first, second);
    var es := [first, second];
    assert es[1..] == [second] && [second][1..] == [];
    hide Lazy, Eager, LazyStep, EagerStep, Kept;
    assert Ordered(0, [second]) && Ordered(0, es);
    FirstEnqueue(s, w);
    SecondEnqueue(w);
  }

  lemma FirstEnqueue(s: State, w: Write)
    requires s == State([], 5, 10, 0)
    ensures Simulates(s, s, 0)
    ensures LazyStep(s, Enqueue(0, w, 0)).0 == State([w.(enqueuedAt := 0)], 5, 10, 0)
    ensures EagerStep(s, Enqueue(0, w, 0)).0 == State([w.(enqueuedAt := 0)], 5, 10, 0)
  {
    KeptOfOne(w.(enqueuedAt := 0), 10, 0);
  }

  lemma SecondEnqueue(w: Write)
    ensures var s := State([w.(enqueuedAt := 0)], 5, 10, 0);
      LazyStep(s, Enqueue(5, w, 12)).0.dropped == 0 && EagerStep(s, Enqueue(5, w, 12)).0.dropped == 1
  {
    var a, b := w.(enqueuedAt := 0), w.(enqueuedAt := 12);
    KeptOfOne(a, 10, 5);
    KeptOfOne(a, 10, 12);
    KeptAppend([a], b, 10, 12);
  }

  // ----- conservation and order -----

  /** What the callers of a queue have seen. */
  datatype History = History(attempts: nat, accepted: seq<Write>, drained: seq<Write>)

  function Record(h: History, e: Event, o: Output): History {
    match (e, o)
    case (Enqueue(_, w, stamp), Accepted(ok)) =>
      History(h.attempts + 1, h.accepted + (if ok then [w.(enqueuedAt := stamp)] else []), h.drained)
    case (Drain(_), Writes(ws)) => h.(drained := h.drained + ws)
    case _ => h
  }

  function HistoryAfter(h: History, es: seq<Event>, os: seq<Output>): History
    requires |es| == |os|
    decreases es
  {
    if es == [] then h else HistoryAfter(Record(h, es[0], os[0]), es[1..], os[1..])
  }

  /** `at` picks the elements of `s` out of `a`, in order and each position at most once. */
  ghost predicate Embeds(s: seq<Write>, a: seq<Write>, at: seq<nat>) {
    && |at| == |s|
    && (forall i | 0 <= i < |s| :: at[i] < |a| && a[at[i]] == s[i])
    && (forall i, j | 0 <= i < j < |s| :: at[i] < at[j])
  }

  ghost predicate Subsequence(s: seq<Write>, a: seq<Write>) {
    exists at: seq<nat> :: Embeds(s, a, at)
  }

  lemma SubsequenceGrows(s: seq<Write>, a: seq<Write>, w: Write)
    requires Subsequence(s, a)
    ensures Subsequence(s, a + [w]) && Subsequence(s + [w], a + [w])
  {
    var at: seq<nat> :| Embeds(s, a, at);
    assert Embeds(s, a + [w], at);
    assert Embeds(s + [w], a + [w], at + [|a|]);
  }

  lemma {:induction false} EvictionIsASubsequence(d: seq<Write>, items: seq<Write>, ttl: int, now: int)
    ensures Subsequence(d + Kept(items, ttl, now), d + items)
  {
    if items == [] {
      assert Embeds(d + [], d + [], seq(|d|, i => i));
    } else {
      var init, w := items[..|items| - 1], items[|items| - 1];
      EvictionIsASubsequence(d, init, ttl, now);
      SubsequenceGrows(d + Kept(init, ttl, now), d + init, w);
      assert d + init + [w] == d + items;
      assert d + Kept(init, ttl, now) + [w] == d + (Kept(init, ttl, now) + [w]);
      assert d + Kept(init, ttl, now) == d + (Kept(init, ttl, now) + []);
    }
  }

  lemma SubsequenceIsTransitive(s: seq<Write>, t: seq<Write>, a: seq<Write>)
    requires Subsequence(s, t) && Subsequence(t, a)
    ensures Subsequence(s, a)
  {
    var f: seq<nat> :| Embeds(s, t, f);
    var g: seq<nat> :| Embeds(t, a, g);
    assert Embeds(s, a, seq(|f|, i requires 0 <= i < |f| => g[f[i]]));
  }

  /** Every attempt is accounted for, the depth is bounded, and what was drained, followed by what is queued,
      is an in-order subsequence of what was accepted. */
  ghost predicate Accounted(s: State, h: History) {
    && h.attempts == |s.items| + |h.drained| + s.dropped
    && (|s.items| <= s.maxDepth || s.items == [])
    && Subsequence(h.drained + s.items, h.accepted)
  }

  lemma EvictionKeepsAccounts(s: State, h: History, now: int)
    requires Accounted(s, h)
    ensures Accounted(Evicted(s, now), h)
  {
    EvictionIsASubsequence(h.drained, s.items, s.ttl, now);
    SubsequenceIsTransitive(h.drained + Kept(s.items, s.ttl, now), h.drained + s.items, h.accepted);
  }

  lemma StepKeepsAccounts(s: State, h: History, e: Event)
    requires Accounted(s, h)
    ensures Accounted(LazyStep(s, e).0, Record(h, e, LazyStep(s, e).1))
  {
    EvictionKeepsAccounts(s, h, e.now);
    var s1 := Evicted(s, e.now);
    match e
    case Enqueue(_, w, stamp) =>
      SubsequenceGrows(h.drained + s1.items, h.accepted, w.(enqueuedAt := stamp));
      assert h.drained + s1.items + [w.(enqueuedAt := stamp)] == h.drained + (s1.items + [w.(enqueuedAt := stamp)]);
      assert h.accepted + [] == h.accepted;
    case Drain(_) =>
      assert h.drained + s1.items + [] == h.drained + s1.items;
    case Depth(_) =>
    case Clock(_) =>
  }

  /** Conservation and order hold at every point of every run, whatever the clock does. */
  lemma {:induction false} RunsKeepAccounts(s: State, h: History, es: seq<Event>)
    requires Accounted(s, h)
    ensures |Lazy(s, es).1| == |es|
    ensures Accounted(Lazy(s, es).0, HistoryAfter(h, es, Lazy(s, es).1))
    decreases es
  {
    if es != [] {
      StepKeepsAccounts(s, h, es[0]);
      var (s1, o) := LazyStep(s, es[0]);
      RunsKeepAccounts(s1, Record(h, es[0], o), es[1..]);
      assert Lazy(s, es).1[1..] == Lazy(s1, es[1..]).1;
    }
  }

  /** From a new queue on, at every point of every run: the callers see what an eagerly expiring queue would
      show them, and every write they offered is accounted for. */
  lemma NewQueueIsEagerAndAccounted(maxDepth: int, ttl: int, t: int, es: seq<Event>, n: nat)
    requires Ordered(t, es) && n <= |es|
    ensures var s := State([], maxDepth, ttl, 0);
      var (now, os) := Lazy(s, es[..n]);
      && |os| == n
      && os == Eager(s, es[..n]).1
      && Accounted(now, HistoryAfter(History(0, [], []), es[..n], os))
  {
    var s := State([], maxDepth, ttl, 0);
    var none: seq<Write> := [];
    assert none + none == none && Embeds(none, none, []);
    OrderedPrefix(t, es, n);
    LazyRefinesEager(s, s, t, es[..n]);
    RunsKeepAccounts(s, History(0, [], []), es[..n]);
  }

  lemma {:induction false} OrderedPrefix(t: int, es: seq<Event>, n: nat)
    requires Ordered(t, es) && n <= |es|
    ensures Ordered(t, es[..n])
    decreases es
  {
    if n > 0 {
      OrderedPrefix(EndOf(es[0]), es[1..], n - 1);
      assert es[..n][1..] == es[1..][..n - 1];
    }
  }
}
