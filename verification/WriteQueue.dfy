/** The bounded write queue with lazy TTL eviction. Clock readings are parameters; Enqueue reads the clock
    twice, once to evict and once to stamp the write. */
module WriteQueue {

  datatype Write = Write(id: string, payload: string, enqueuedAt: int)

  datatype State = State(items: seq<Write>, maxDepth: int, ttl: int, dropped: nat)

  /** Has not reached its time to live at `now`; a TTL of zero never expires anything. */
  predicate Live(w: Write, ttl: int, now: int) {
    ttl == 0 || w.enqueuedAt > now - ttl
  }

  function Kept(items: seq<Write>, ttl: int, now: int): (r: seq<Write>)
    ensures |r| <= |items|
  {
    if items == [] then [] else
    var w := items[|items| - 1];
    Kept(items[..|items| - 1], ttl, now) + (if Live(w, ttl, now) then [w] else [])
  }

  function Evicted(s: State, now: int): State {
    var kept := Kept(s.items, s.ttl, now);
    s.(items := kept, dropped := s.dropped + (|s.items| - |kept|))
  }

  function Enqueued(s: State, w: Write, now: int, stamp: int): (State, bool) {
    var s := Evicted(s, now);
    if |s.items| >= s.maxDepth then (s.(dropped := s.dropped + 1), false)
    else (s.(items := s.items + [w.(enqueuedAt := stamp)]), true)
  }

  function Drained(s: State, now: int): (State, seq<Write>) {
    var s := Evicted(s, now);
    (s.(items := []), s.items)
  }

  /** What is kept are exactly the writes younger than the TTL, each as often as before, so a write is gone the
      instant it reaches it. */
  lemma {:induction false} KeptAreTheYoung(items: seq<Write>, ttl: int, now: int, w: Write)
    ensures w in Kept(items, ttl, now) <==> w in items && (ttl == 0 || now - w.enqueuedAt < ttl)
    ensures multiset(Kept(items, ttl, now))[w]
      == if ttl == 0 || now - w.enqueuedAt < ttl then multiset(items)[w] else 0
  {
    if items != [] {
      var init, last := items[..|items| - 1], items[|items| - 1];
      KeptAreTheYoung(init, ttl, now, w);
      assert items == init + [last];
    }
  }

  lemma {:induction false} KeptPrefix(items: seq<Write>, ttl: int, now: int)
    requires forall i | 0 <= i < |items| :: Live(items[i], ttl, now)
    ensures Kept(items, ttl, now) == items
  {
    if items != [] {
      KeptPrefix(items[..|items| - 1], ttl, now);
      assert items == items[..|items| - 1] + [items[|items| - 1]];
    }
  }

  lemma KeptStep(items: seq<Write>, i: nat, ttl: int, now: int)
    requires i < |items|
    ensures Kept(items[..i + 1], ttl, now)
         == Kept(items[..i], ttl, now) + (if Live(items[i], ttl, now) then [items[i]] else [])
  {
    assert items[..i + 1][..i] == items[..i];
  }

  class Queue {
    const maxDepth: int
    const ttl: int
    var buf: array<Write>   // the backing array of the slice
    var len: nat            // the length of the slice
    var dropped: nat

    ghost predicate Valid() reads this {
      len <= buf.Length
    }

    ghost function Fields(): State
      requires Valid()
      reads this, buf
    {
      State(buf[..len], maxDepth, ttl, dropped)
    }

    constructor (maxDepth: int, ttl: int)
      ensures Valid() && fresh(buf)
      ensures Fields() == State([], maxDepth, ttl, 0)
    {
      this.maxDepth, this.ttl, dropped, len := maxDepth, ttl, 0, 0;
      buf := new Write[0];
    }

    /** Compacts the slice in place over its own backing array. */
    method Evict(now: int)
      requires Valid()
      modifies this`len, this`dropped, buf
      ensures Valid() && Fields() == Evicted(old(Fields()), now)
    {
      if ttl == 0 {
        KeptPrefix(buf[..len], ttl, now);
        return;
      }
      var cutoff := now - ttl;
      ghost var was := buf[..len];
      var kept := 0;
      assert Kept(was[..0], ttl, now) == [];
      hide Kept;
      for i := 0 to len
        invariant len == |was|
        invariant kept <= i && buf[..kept] == Kept(was[..i], ttl, now)
        invariant buf[i..len] == was[i..]
        invariant dropped == old(dropped) + (i - kept)
      {
        var item := buf[i];
        assert item == buf[i..len][0] == was[i];
        assert buf[i + 1..len] == buf[i..len][1..] == was[i + 1..];
        KeptStep(was, i, ttl, now);
        if item.enqueuedAt > cutoff {
          ghost var before := buf[..kept];
          buf[kept] := item;
          kept := kept + 1;
          assert buf[..kept] == before + [item];
        } else {
          dropped := dropped + 1;
        }
      }
      assert was[..len] == was;
      len := kept;
    }

    /** Appends, moving to a larger backing array when the current one is full. */
    method Append(w: Write)
      requires Valid()
      modifies this`len, this`buf, buf
      ensures Valid() && (buf == old(buf) || fresh(buf))
      ensures Fields() == old(Fields()).(items := old(buf[..len]) + [w])
    {
      if len == buf.Length {
        var bigger := new Write[2 * len + 1];
        forall i | 0 <= i < len { bigger[i] := buf[i]; }
        assert bigger[..len] == buf[..len];
        buf := bigger;
      }
      buf[len] := w;
      len := len + 1;
    }

    method Enqueue(w: Write, now: int, stamp: int) returns (ok: bool)
      requires Valid()
      modifies this, buf
      ensures Valid() && (buf == old(buf) || fresh(buf))
      ensures (Fields(), ok) == Enqueued(old(Fields()), w, now, stamp)
    {
      Evict(now);
      if len >= maxDepth {
        dropped := dropped + 1;
        return false;
      }
      Append(w.(enqueuedAt := stamp));
      return true;
    }

    /** Returns a fresh copy, which later operations on the queue cannot disturb; the backing array is kept. */
    method Drain(now: int) returns (out: array<Write>)
      requires Valid()
      modifies this`len, this`dropped, buf
      ensures Valid() && fresh(out) && out != buf
      ensures (Fields(), out[..]) == Drained(old(Fields()), now)
    {
      Evict(now);
      out := new Write[len];
      forall i | 0 <= i < len { out[i] := buf[i]; }
      assert out[..] == buf[..len] == Evicted(old(Fields()), now).items;
      len := 0;
      assert buf[..len] == [];
    }

    method Depth(now: int) returns (depth: nat)
      requires Valid()
      modifies this`len, this`dropped, buf
      ensures Valid() && Fields() == Evicted(old(Fields()), now)
      ensures depth == |Fields().items|
    {
      Evict(now);
      return len;
    }
  }
}
