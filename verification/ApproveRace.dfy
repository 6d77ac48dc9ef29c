/** One approval request raced by any number of resolvers and waiters. The compare-and-swap, the channel
    send, the receive, the drain and the final load are separate steps, in any interleaving. */
module ApproveRace {
  import opened Text
  import opened Approve

  datatype Role = Resolver(answer: Answer) | Waiter(hasTTY: bool)

  datatype Outcome = NotFound | ToldWon | ToldLost | TimedOutDenied | TTYTimeout | Reported(approved: bool)

  /** `Found`: holds the request. `Winning`: the swap succeeded, the send is next. `Draining`: a waiter that
      won, about to empty the channel. `Losing`: a waiter that lost, about to load the state. */
  datatype Stage = Start | Found | Winning | Draining | Losing | Done(outcome: Outcome)

  datatype Agent = Agent(role: Role, stage: Stage, expired: bool)

  /** `winner` is the last agent whose swap succeeded, and `sends` counts the resolutions ever sent. */
  datatype Race = Race(state: Answer, ch: Option<bool>, listed: bool, agents: seq<Agent>, winner: Option<nat>, sends: nat)

  datatype Step =
    | Lookup(i: nat)
    | Swap(i: nat)
    | Send(i: nat)
    | Receive(i: nat)
    | GiveUp(i: nat)
    | Drain(i: nat)
    | Load(i: nat)
    | Expire(i: nat)
    | Prune

  predicate Fresh(r: Race) {
    && r.state == Pending && r.ch == None && r.listed && r.winner == None && r.sends == 0
    && forall i | 0 <= i < |r.agents| ::
         && r.agents[i].stage == Start && !r.agents[i].expired
         && r.agents[i].role != Resolver(Pending)
  }

  /** The state this agent's swap would set. */
  function Target(a: Agent): Answer {
    if a.role.Resolver? then a.role.answer else Denied
  }

  predicate CanSwap(a: Agent) {
    a.stage == Found && (a.role.Resolver? || (a.expired && !a.role.hasTTY))
  }

  predicate Enabled(r: Race, s: Step) {
    if s.Prune? then true
    else
      && s.i < |r.agents|
      && var a := r.agents[s.i];
      match s
      case Lookup(_) => a.stage == Start
      case Swap(_) => CanSwap(a)
      case Send(_) => a.stage == Winning && r.ch == None
      case Receive(_) => a.stage == Found && a.role.Waiter? && r.ch.Some?
      case GiveUp(_) => a.stage == Found && a.role == Waiter(true) && a.expired
      case Drain(_) => a.stage == Draining
      case Load(_) => a.stage == Losing
      case Expire(_) => a.role.Waiter?
  }

  function Moved(r: Race, i: nat, stage: Stage): Race
    requires i < |r.agents|
  {
    r.(agents := r.agents[i := r.agents[i].(stage := stage)])
  }

  function Next(r: Race, s: Step): Race
    requires Enabled(r, s)
  {
    match s
    case Prune => r.(listed := false)
    case Lookup(i) => Moved(r, i, if r.listed then Found else Done(NotFound))
    case Swap(i) =>
      if r.state == Pending then Moved(r, i, Winning).(state := Target(r.agents[i]), winner := Some(i))
      else Moved(r, i, if r.agents[i].role.Resolver? then Done(ToldLost) else Losing)
    case Send(i) =>
      Moved(r, i, if r.agents[i].role.Resolver? then Done(ToldWon) else Draining)
      .(ch := Some(Target(r.agents[i]) == Approved), sends := r.sends + 1)
    case Receive(i) => Moved(r, i, Done(Reported(r.ch.value))).(ch := None)
    case GiveUp(i) => Moved(r, i, Done(TTYTimeout))
    case Drain(i) => Moved(r, i, Done(TimedOutDenied)).(ch := None)
    case Load(i) => Moved(r, i, Done(Reported(r.state == Approved)))
    case Expire(i) => r.(agents := r.agents[i := r.agents[i].(expired := true)])
  }

  ghost predicate Run(r: Race, steps: seq<Step>, t: Race)
    decreases |steps|
  {
    if steps == [] then t == r
    else Enabled(r, steps[0]) && Run(Next(r, steps[0]), steps[1..], t)
  }

  // ---------- the invariant ----------

  /** Has won the swap. */
  predicate Won(a: Agent) {
    a.stage == Winning || a.stage == Draining || a.stage == Done(ToldWon) || a.stage == Done(TimedOutDenied)
  }

  predicate HeadlessExpired(a: Agent) {
    a.role == Waiter(false) && a.expired
  }

  predicate AgentOk(r: Race, a: Agent) {
    && a.role != Resolver(Pending)
    && match a.stage
       case Start => true
       case Found => true
       case Winning => r.state == Target(a) && r.ch == None && (a.role.Resolver? || HeadlessExpired(a))
       case Draining => r.state == Denied && HeadlessExpired(a)
       case Losing => r.state != Pending && HeadlessExpired(a)
       case Done(NotFound) => !r.listed
       case Done(ToldWon) => a.role.Resolver? && r.state == a.role.answer
       case Done(ToldLost) => a.role.Resolver? && r.state != Pending
       case Done(TimedOutDenied) => r.state == Denied && HeadlessExpired(a)
       case Done(TTYTimeout) => a.role == Waiter(true) && a.expired
       case Done(Reported(approved)) => a.role.Waiter? && r.state != Pending && approved == (r.state == Approved)
  }

  ghost predicate Inv(r: Race) {
    && (forall i | 0 <= i < |r.agents| :: AgentOk(r, r.agents[i]))
    && (forall i | 0 <= i < |r.agents| :: Won(r.agents[i]) <==> r.winner == Some(i))
    && (r.winner.Some? ==> r.winner.value < |r.agents|)
    && (r.state == Pending <==> r.winner == None)
    && (r.sends == if r.winner.Some? && r.agents[r.winner.value].stage != Winning then 1 else 0)
    && (r.ch.Some? ==> r.sends == 1 && r.ch.value == (r.state == Approved))
  }

  lemma FreshInv(r: Race)
    requires Fresh(r)
    ensures Inv(r)
  {
  }

  /** What a step does to the agent that takes it. */
  lemma MoverOk(r: Race, s: Step)
    requires Inv(r) && Enabled(r, s) && !s.Prune?
    ensures AgentOk(Next(r, s), Next(r, s).agents[s.i])
    ensures Won(Next(r, s).agents[s.i]) <==> Next(r, s).winner == Some(s.i)
  {
    assert AgentOk(r, r.agents[s.i]);
  }

  /** What a step leaves true of every other agent. */
  lemma BystanderOk(r: Race, s: Step, j: nat)
    requires Inv(r) && Enabled(r, s) && j < |r.agents| && (!s.Prune? ==> j != s.i)
    ensures Next(r, s).agents[j] == r.agents[j] && AgentOk(Next(r, s), r.agents[j])
    ensures Won(r.agents[j]) <==> Next(r, s).winner == Some(j)
  {
    assert AgentOk(r, r.agents[j]);
    if !s.Prune? {
      assert AgentOk(r, r.agents[s.i]);
    }
  }

  lemma StepInv(r: Race, s: Step)
    requires Inv(r) && Enabled(r, s)
    ensures Inv(Next(r, s))
  {
    var t := Next(r, s);
    forall j | 0 <= j < |t.agents| ensures AgentOk(t, t.agents[j]) && (Won(t.agents[j]) <==> t.winner == Some(j)) {
      if s.Prune? || j != s.i {
        BystanderOk(r, s, j);
      } else {
        MoverOk(r, s);
      }
    }
    BufferOk(r, s);
    hide AgentOk, Won, Next;
  }

  lemma BufferOk(r: Race, s: Step)
    requires Inv(r) && Enabled(r, s)
    ensures var t := Next(r, s);
            && |t.agents| == |r.agents|
            && (t.winner.Some? ==> t.winner.value < |t.agents|)
            && (t.state == Pending <==> t.winner == None)
            && (t.sends == if t.winner.Some? && t.agents[t.winner.value].stage != Winning then 1 else 0)
            && (t.ch.Some? ==> t.sends == 1 && t.ch.value == (t.state == Approved))
  {
    if !s.Prune? {
      assert AgentOk(r, r.agents[s.i]);
    }
  }

  // ---------- what every interleaving keeps ----------

  lemma {:induction false} RunInv(r: Race, steps: seq<Step>, t: Race)
    requires Inv(r) && Run(r, steps, t)
    ensures Inv(t)
    decreases |steps|
  {
    if steps != [] {
      StepInv(r, steps[0]);
      RunInv(Next(r, steps[0]), steps[1..], t);
    }
  }

  lemma StepSettles(r: Race, s: Step)
    requires Inv(r) && Enabled(r, s)
    ensures r.state != Pending ==> Next(r, s).state == r.state && Next(r, s).winner == r.winner
    ensures |Next(r, s).agents| == |r.agents|
    ensures forall i | 0 <= i < |r.agents| && r.agents[i].stage.Done? :: Next(r, s).agents[i].stage == r.agents[i].stage
  {
  }

  /** The first answer is final: once the request has left pending, nothing changes its state, its winner or
      what any caller was told. */
  lemma {:induction false} FirstAnswerIsFinal(r: Race, steps: seq<Step>, t: Race)
    requires Inv(r) && Run(r, steps, t)
    ensures r.state != Pending ==> t.state == r.state && t.winner == r.winner
    ensures |t.agents| == |r.agents|
    ensures forall i | 0 <= i < |r.agents| && r.agents[i].stage.Done? :: t.agents[i].stage == r.agents[i].stage
    decreases |steps|
  {
    if steps != [] {
      StepSettles(r, steps[0]);
      StepInv(r, steps[0]);
      FirstAnswerIsFinal(Next(r, steps[0]), steps[1..], t);
    }
  }

  predicate ToldItWon(a: Agent) {
    a.stage == Done(ToldWon) || a.stage == Done(TimedOutDenied)
  }

  /** First answer wins, under every interleaving of any number of resolvers and waiters: at most one caller
      is told it won, what it was told is the state, at most one resolution is ever sent, and every waiter
      that reports a decision reports that state. */
  lemma FirstAnswerWins(r: Race, steps: seq<Step>, t: Race)
    requires Fresh(r) && Run(r, steps, t)
    ensures forall i, j | 0 <= i < |t.agents| && 0 <= j < |t.agents| && ToldItWon(t.agents[i]) && ToldItWon(t.agents[j]) :: i == j
    ensures forall i | 0 <= i < |t.agents| && ToldItWon(t.agents[i]) :: t.state == Target(t.agents[i])
    ensures t.sends <= 1
    ensures forall i | 0 <= i < |t.agents| && t.agents[i].stage.Done? && t.agents[i].stage.outcome.Reported? ::
              t.state == if t.agents[i].stage.outcome.approved then Approved else Denied
  {
    FreshInv(r);
    RunInv(r, steps, t);
    assert forall i | 0 <= i < |t.agents| && ToldItWon(t.agents[i]) :: t.winner == Some(i);
    assert forall i | 0 <= i < |t.agents| :: AgentOk(t, t.agents[i]);
  }

  /** Approval is only ever reported because a resolver that approves won the swap: no timeout, prune or lost
      race produces it. */
  lemma ApprovalComesFromAnApprove(r: Race, steps: seq<Step>, t: Race, i: nat)
    requires Fresh(r) && Run(r, steps, t) && i < |t.agents| && t.agents[i].stage == Done(Reported(true))
    ensures t.winner.Some? && t.winner.value < |t.agents|
    ensures var w := t.agents[t.winner.value]; w.role == Resolver(Approved) && (w.stage == Winning || w.stage == Done(ToldWon))
  {
    FreshInv(r);
    RunInv(r, steps, t);
    assert AgentOk(t, t.agents[i]);
    assert AgentOk(t, t.agents[t.winner.value]) && Won(t.agents[t.winner.value]);
  }

  // ---------- nobody is stuck ----------

  function Own(a: Agent, ch: Option<bool>, i: nat): Step
    requires !a.stage.Done?
  {
    match a.stage
    case Start => Lookup(i)
    case Found =>
      if a.role.Resolver? then Swap(i)
      else if ch.Some? then Receive(i)
      else if a.role.hasTTY then GiveUp(i)
      else Swap(i)
    case Winning => Send(i)
    case Draining => Drain(i)
    case Losing => Load(i)
  }

  /** How many more steps of its own a caller takes at most. */
  function Rank(a: Agent): nat {
    match a.stage
    case Start => 4
    case Found => 3
    case Winning => 2
    case Draining => 1
    case Losing => 1
    case Done(_) => 0
  }

  /** Waiting for an answer: the only state in which a caller can block. */
  predicate Waiting(r: Race, i: nat)
    requires i < |r.agents|
  {
    var a := r.agents[i];
    a.stage == Found && a.role.Waiter? && !a.expired && r.ch == None
  }

  /** In every reachable state a caller that has not returned can move now, unless it is a waiter with a live
      context and an empty buffer: no send blocks, and no waiter blocks after its context ends. */
  lemma BlocksIffWaiting(r: Race, steps: seq<Step>, t: Race, i: nat)
    requires Fresh(r) && Run(r, steps, t) && i < |t.agents| && !t.agents[i].stage.Done?
    ensures Enabled(t, Own(t.agents[i], t.ch, i)) <==> !Waiting(t, i)
  {
    FreshInv(r);
    RunInv(r, steps, t);
    assert AgentOk(t, t.agents[i]);
  }

  predicate OwnedBy(s: Step, i: nat) {
    !s.Prune? && !s.Expire? && s.i == i
  }

  /** A caller's own step brings it strictly closer to returning, and no other step sets it back, so each
      caller returns after at most four steps of its own. */
  lemma RankFalls(r: Race, s: Step, i: nat)
    requires Enabled(r, s) && i < |r.agents|
    ensures OwnedBy(s, i) ==> Rank(Next(r, s).agents[i]) < Rank(r.agents[i])
    ensures !OwnedBy(s, i) ==> Rank(Next(r, s).agents[i]) == Rank(r.agents[i])
  {
  }

  function OwnSteps(steps: seq<Step>, i: nat): nat {
    if steps == [] then 0 else (if OwnedBy(steps[0], i) then 1 else 0) + OwnSteps(steps[1..], i)
  }

  lemma {:induction false} AtMostFourSteps(r: Race, steps: seq<Step>, t: Race, i: nat)
    requires Run(r, steps, t) && i < |r.agents|
    ensures |t.agents| == |r.agents| && OwnSteps(steps, i) + Rank(t.agents[i]) <= Rank(r.agents[i]) <= 4
    decreases |steps|
  {
    if steps != [] {
      RankFalls(r, steps[0], i);
      AtMostFourSteps(Next(r, steps[0]), steps[1..], t, i);
    }
  }

  // ---------- the registry's calls are runs of the race ----------

  /** What the registry's `Wait` and `WaitByID` return for an outcome. */
  function AsResult(o: Outcome): WaitResult
    requires o != ToldWon && o != ToldLost
  {
    match o
    case NotFound => ErrNotFound
    case TimedOutDenied => ErrHeadlessTimeoutDenied
    case TTYTimeout => ErrTimeout
    case Reported(approved) => Verdict(if approved then Approved else Denied)
  }

  lemma OneStep(r: Race, s: Step)
    requires Enabled(r, s)
    ensures Run(r, [s], Next(r, s))
  {
    assert [s][1..] == [];
  }

  lemma TwoSteps(r: Race, s: Step, s': Step)
    requires Enabled(r, s) && Enabled(Next(r, s), s')
    ensures Run(r, [s, s'], Next(Next(r, s), s'))
  {
    OneStep(Next(r, s), s');
    assert [s, s'][1..] == [s'];
  }

  /** An uninterrupted resolve is a swap and, when it wins, a send; it does to the request what
      `PendingReq.Resolve` promises. */
  lemma ResolveIsARun(r: Race, i: nat)
    requires Inv(r) && i < |r.agents| && r.agents[i].stage == Found && r.agents[i].role.Resolver?
    ensures var answer, won := r.agents[i].role.answer, r.state == Pending;
            exists steps, t :: Run(r, steps, t) && |t.agents| == |r.agents|
              && t.agents[i].stage == Done(if won then ToldWon else ToldLost)
              && t.state == (if won then answer else r.state)
              && t.ch == if won then Some(answer == Approved) else r.ch
  {
    assert AgentOk(r, r.agents[i]);
    OneStep(r, Swap(i));
    if r.state == Pending {
      TwoSteps(r, Swap(i), Send(i));
    }
  }

  /** The effect `PendingReq.Wait` promises, with `i` the waiter. */
  predicate Waited(r: Race, t: Race, i: nat, preferDone: bool)
    requires i < |r.agents| && r.agents[i].role.Waiter?
  {
    var hasTTY := r.agents[i].role.hasTTY;
    && |t.agents| == |r.agents|
    && t.agents[i].stage.Done? && t.agents[i].stage.outcome != ToldWon && t.agents[i].stage.outcome != ToldLost
    && var res := AsResult(t.agents[i].stage.outcome);
    && t.state == (if r.state == Pending && !hasTTY then Denied else r.state)
    && (res == ErrTimeout <==> hasTTY && r.agents[i].expired && (preferDone || r.ch == None))
    && (res == ErrTimeout ==> t.ch == r.ch)
    && (res == ErrHeadlessTimeoutDenied <==> r.state == Pending && !hasTTY)
    && (res != ErrTimeout && res != ErrHeadlessTimeoutDenied ==> res == Verdict(r.state))
    && (t.ch == None || t.ch == r.ch)
  }

  /** The headless branch: swap for a deny, then drain, or load the state that beat it. */
  lemma HeadlessWait(r: Race, i: nat, preferDone: bool) returns (steps: seq<Step>, t: Race)
    requires Inv(r) && i < |r.agents| && r.agents[i].stage == Found && HeadlessExpired(r.agents[i])
    ensures Run(r, steps, t) && Waited(r, t, i, preferDone)
  {
    assert AgentOk(r, r.agents[i]);
    var r1 := Next(r, Swap(i));
    if r.state == Pending {
      var r2 := Next(r1, Send(i));
      steps, t := [Swap(i), Send(i), Drain(i)], Next(r2, Drain(i));
      TwoSteps(r1, Send(i), Drain(i));
      assert steps[1..] == [Send(i), Drain(i)];
    } else {
      steps, t := [Swap(i), Load(i)], Next(r1, Load(i));
      TwoSteps(r, Swap(i), Load(i));
    }
  }

  /** An uninterrupted wait that may return is a run whose effect is the one `PendingReq.Wait` promises. */
  lemma WaitIsARun(r: Race, i: nat, preferDone: bool) returns (steps: seq<Step>, t: Race)
    requires Inv(r) && i < |r.agents| && r.agents[i].stage == Found && r.agents[i].role.Waiter?
    requires r.ch.Some? || r.agents[i].expired
    ensures Run(r, steps, t) && Waited(r, t, i, preferDone)
  {
    if r.ch.Some? && !(r.agents[i].expired && preferDone) {
      steps, t := [Receive(i)], Next(r, Receive(i));
      OneStep(r, Receive(i));
    } else if r.agents[i].role.hasTTY {
      steps, t := [GiveUp(i)], Next(r, GiveUp(i));
      OneStep(r, GiveUp(i));
    } else {
      steps, t := HeadlessWait(r, i, preferDone);
    }
  }
}
