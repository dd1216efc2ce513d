/** The human gate. Fire is split at its blocking points into opening, settling and closing a gate; Respond
    into reading the pending gate and sending to its one-slot channel. Any number of gates may be in flight. */
module HumanGates {
  import opened Policy
  import opened Enforcer

  datatype Response = Response(action: string, target: string, durationMin: int)

  const MINUTE := 60_000_000_000   // nanoseconds

  function DecisionOf(r: Response): Outcome {
    if r.action == "override" then Overridden(r.target, r.durationMin * MINUTE)
    else if r.action == "escalate" then Escalated
    else Approved
  }

  /** What an answer asks for, word by word; a minute has sixty billion nanoseconds. */
  predicate Says(r: Response, d: Outcome) {
    match r.action
    case "override" => d == Overridden(r.target, r.durationMin * 60_000_000_000)
    case "escalate" => d == Escalated
    case _ => d == Approved
  }

  /** Gates are numbered as they are fired. `inbox` holds the unread answer of a gate, `decided` what its Fire
      will return, `cancelled` the gates whose context was cancelled. */
  datatype State = State(
    fired: nat, pending: Option<nat>, tiers: map<nat, string>,
    inbox: map<nat, Response>, cancelled: set<nat>,
    decided: map<nat, Outcome>, closed: set<nat>,
    lastOutcome: Option<Outcome>, lastTier: string)

  const IDLE := State(0, None, map[], map[], {}, map[], {}, None, "")

  /** How the blocking wait of a gate ends. */
  datatype Choice = Answered | TimerFired | ContextDone

  datatype Step =
    | Open(tier: string)
    | Cancel(n: nat)
    | Send(n: nat, r: Response)
    | Settle(n: nat, choice: Choice)
    | Close(n: nat)

  /** The step can happen: only gates in flight wait, answers need a response, supersession a cancelled context. */
  predicate Possible(s: State, step: Step) {
    match step
    case Open(_) => true
    case Cancel(n) => 0 < n <= s.fired
    case Send(n, _) => 0 < n <= s.fired
    case Settle(n, choice) =>
      && 0 < n <= s.fired && n !in s.decided
      && (choice.Answered? ==> n in s.inbox) && (choice.ContextDone? ==> n in s.cancelled)
    case Close(n) => n in s.decided && n !in s.closed && n in s.tiers
  }

  function Next(s: State, step: Step): State
    requires Possible(s, step)
  {
    match step
    case Open(tier) =>
      var n := s.fired + 1;
      s.(fired := n, pending := Some(n), tiers := s.tiers[n := tier])
    case Cancel(n) => s.(cancelled := s.cancelled + {n})
    case Send(n, r) => if n in s.inbox then s else s.(inbox := s.inbox[n := r])
    case Settle(n, choice) =>
      (match choice
       case Answered => s.(decided := s.decided[n := DecisionOf(s.inbox[n])], inbox := s.inbox - {n})
       case TimerFired => s.(decided := s.decided[n := TimedOut])
       case ContextDone => s.(decided := s.decided[n := Superseded]))
    case Close(n) =>
      s.(pending := if s.pending == Some(n) then None else s.pending, closed := s.closed + {n},
         lastOutcome := Some(s.decided[n]), lastTier := s.tiers[n])
  }

  class HumanGate {
    var fired: nat
    var pending: Option<nat>
    var tiers: map<nat, string>
    var inbox: map<nat, Response>
    var cancelled: set<nat>
    var decided: map<nat, Outcome>
    var closed: set<nat>
    var lastOutcome: Option<Outcome>
    var lastTier: string

    function Fields(): State reads this {
      State(fired, pending, tiers, inbox, cancelled, decided, closed, lastOutcome, lastTier)
    }

    constructor ()
      ensures Fields() == IDLE
    {
      fired, pending, tiers, inbox, cancelled := 0, None, map[], map[], {};
      decided, closed, lastOutcome, lastTier := map[], {}, None, "";
    }

    method OpenGate(tier: string) returns (n: nat)
      modifies this
      ensures Fields() == Next(old(Fields()), Open(tier)) && n == fired
      ensures n == old(fired) + 1 && pending == Some(n) && tiers == old(tiers)[n := tier]
    {
      fired := fired + 1;
      n := fired;
      tiers := tiers[n := tier];
      pending := Some(n);
    }

    /** The second half of Respond, for the gate read from `pending` earlier. */
    method SendTo(n: nat, r: Response) returns (ok: bool)
      requires 0 < n <= fired
      modifies this`inbox
      ensures Fields() == Next(old(Fields()), Send(n, r))
      ensures ok <==> n !in old(inbox)
      ensures inbox == if ok then old(inbox)[n := r] else old(inbox)
    {
      if n in inbox { return false; }   // already answered
      inbox := inbox[n := r];
      return true;
    }

    method SettleGate(n: nat, choice: Choice) returns (d: Outcome)
      requires Possible(Fields(), Settle(n, choice))
      modifies this`decided, this`inbox
      ensures Fields() == Next(old(Fields()), Settle(n, choice)) && decided[n] == d
      ensures match choice
              case TimerFired => d == TimedOut
              case ContextDone => d == Superseded
              case Answered =>
                var a := old(inbox)[n];
                match a.action
                case "override" => d == Overridden(a.target, a.durationMin * 60_000_000_000)
                case "escalate" => d == Escalated
                case _ => d == Approved
    {
      match choice {
        case Answered =>
          var r := inbox[n];
          inbox := inbox - {n};
          if r.action == "override" {
            d := Overridden(r.target, r.durationMin * MINUTE);
          } else if r.action == "escalate" {
            d := Escalated;
          } else {
            d := Approved;
          }
        case TimerFired => d := TimedOut;
        case ContextDone => d := Superseded;
      }
      decided := decided[n := d];
    }

    method CloseGate(n: nat)
      requires Possible(Fields(), Close(n))
      modifies this
      ensures Fields() == Next(old(Fields()), Close(n))
      ensures pending == if old(pending) == Some(n) then None else old(pending)
      ensures lastOutcome == Some(decided[n]) && lastTier == tiers[n]
    {
      if pending == Some(n) { pending := None; }
      lastOutcome := Some(decided[n]);
      lastTier := tiers[n];
      closed := closed + {n};
    }
  }

  // ----- runs -----

  datatype Run = Run(steps: seq<Step>, states: seq<State>) {
    ghost predicate StepAt(k: nat)
      requires k < |steps| && |states| == |steps| + 1
    {
      Possible(states[k], steps[k]) && states[k + 1] == Next(states[k], steps[k])
    }

    ghost predicate Valid()
      ensures Valid() ==> |states| == |steps| + 1
    {
      && |states| == |steps| + 1 && states[0] == IDLE
      && (forall k | 0 <= k < |steps| :: StepAt(k))
    }
  }

  /** `pending` is nil or the most recently fired gate, and it is nil only once that gate has closed itself. */
  ghost predicate PendingIsLatest(s: State) {
    && (s.pending == None || s.pending == Some(s.fired))
    && (s.pending == None ==> s.fired == 0 || s.fired in s.closed)
    && (forall n | n in s.closed :: n in s.decided)
    && (forall n | n in s.decided || n in s.inbox || n in s.cancelled :: 0 < n <= s.fired)
  }

  lemma {:induction false} PendingIsAlwaysLatest(r: Run, k: nat)
    requires r.Valid() && k <= |r.steps|
    ensures PendingIsLatest(r.states[k])
    decreases k
  {
    if k > 0 {
      PendingIsAlwaysLatest(r, k - 1);
      assert r.StepAt(k - 1);
    }
  }

  /** A pending gate stops being pending only by closing itself or by being replaced by a newer gate. */
  lemma OnlyItsOwnCloseClearsPending(r: Run, k: nat, n: nat)
    requires r.Valid() && k < |r.steps| && r.states[k].pending == Some(n)
    ensures r.states[k + 1].pending == Some(n) || r.steps[k] == Close(n) || r.steps[k].Open?
    ensures r.steps[k].Open? ==> r.states[k + 1].pending == Some(n + 1)
  {
    assert r.StepAt(k);
    PendingIsAlwaysLatest(r, k);
  }

  /** A gate decides once: later steps never change what its Fire returns. */
  lemma {:induction false} DecisionsAreFinal(r: Run, j: nat, k: nat, n: nat)
    requires r.Valid() && j <= k <= |r.steps| && n in r.states[j].decided
    ensures n in r.states[k].decided && r.states[k].decided[n] == r.states[j].decided[n]
    decreases k - j
  {
    if j < k {
      DecisionsAreFinal(r, j, k - 1, n);
      assert r.StepAt(k - 1);
    }
  }

  /** While a gate is undecided its inbox is empty only if nobody answered it. */
  lemma {:induction false} EmptyInboxMeansUnanswered(r: Run, k: nat, n: nat)
    requires r.Valid() && k <= |r.steps| && n !in r.states[k].inbox && n !in r.states[k].decided
    ensures forall i | 0 <= i < k :: !(r.steps[i].Send? && r.steps[i].n == n)
    decreases k
  {
    if k > 0 {
      assert r.StepAt(k - 1);
      EmptyInboxMeansUnanswered(r, k - 1, n);
    }
  }

  /** The unread answer of an undecided gate is the first one that was sent to that very gate. */
  lemma {:induction false} AnswersWereSent(r: Run, k: nat, n: nat) returns (j: nat)
    requires r.Valid() && k <= |r.steps| && n in r.states[k].inbox && n !in r.states[k].decided
    ensures j < k && r.steps[j] == Send(n, r.states[k].inbox[n])
    ensures forall i | 0 <= i < j :: !(r.steps[i].Send? && r.steps[i].n == n)
    decreases k
  {
    assert r.StepAt(k - 1);
    if n in r.states[k - 1].inbox {
      j := AnswersWereSent(r, k - 1, n);
    } else {
      j := k - 1;
      EmptyInboxMeansUnanswered(r, j, n);
    }
  }

  /** The tier a gate was opened for stays on record, and closing the gate reports it with the gate's decision. */
  lemma {:induction false} TierOnRecord(r: Run, j: nat, k: nat)
    requires r.Valid() && j < k <= |r.steps| && r.steps[j].Open?
    ensures var n := r.states[j].fired + 1;
      n <= r.states[k].fired && n in r.states[k].tiers && r.states[k].tiers[n] == r.steps[j].tier
    decreases k
  {
    assert r.StepAt(k - 1);
    if j < k - 1 { TierOnRecord(r, j, k - 1); }
  }

  lemma ClosingReportsTheGate(r: Run, j: nat, k: nat)
    requires r.Valid() && j < k < |r.steps| && r.steps[j].Open? && r.steps[k] == Close(r.states[j].fired + 1)
    ensures var n, s, s' := r.states[j].fired + 1, r.states[k], r.states[k + 1];
      n in s.decided && s'.lastTier == r.steps[j].tier && s'.lastOutcome == Some(s.decided[n])
  {
    TierOnRecord(r, j, k);
    assert r.StepAt(k);
  }

  lemma {:induction false} CancellationsHappened(r: Run, k: nat, n: nat) returns (j: nat)
    requires r.Valid() && k <= |r.steps| && n in r.states[k].cancelled
    ensures j < k && r.steps[j] == Cancel(n)
    decreases k
  {
    assert r.StepAt(k - 1);
    if n in r.states[k - 1].cancelled { j := CancellationsHappened(r, k - 1, n); } else { j := k - 1; }
  }

  /** Where a decision comes from: an operator's decision is what the first response sent to that very gate says,
      and a gate is superseded only after its context was cancelled. */
  lemma {:induction false} DecisionsHaveACause(r: Run, k: nat, n: nat) returns (j: nat)
    requires r.Valid() && k <= |r.steps| && n in r.states[k].decided
    ensures j < k
    ensures match r.states[k].decided[n]
            case TimedOut => r.steps[j] == Settle(n, TimerFired)
            case Superseded => r.steps[j] == Cancel(n)
            case d => && r.steps[j].Send? && r.steps[j].n == n && Says(r.steps[j].r, d)
                      && (forall i | 0 <= i < j :: !(r.steps[i].Send? && r.steps[i].n == n))
    decreases k
  {
    assert r.StepAt(k - 1);
    if n in r.states[k - 1].decided {
      j := DecisionsHaveACause(r, k - 1, n);
    } else {
      match r.steps[k - 1].choice
      case Answered => j := AnswersWereSent(r, k - 1, n);
      case TimerFired => j := k - 1;
      case ContextDone => j := CancellationsHappened(r, k - 1, n);
    }
  }
}
