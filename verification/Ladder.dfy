/** The escalation ladder: freeze the process group, ask the phone, then resume, kill or ask again. */
module Ladder {
  import opened Text
  import opened Approve

  datatype Signal = STOP | CONT | TERM | KILL

  /** The phone's answer to one request; `id` may name any request, open or settled. */
  datatype Tap = Tap(id: nat, answer: Answer)

  /** One wait: the taps that arrive before it returns, whether someone pruned the request before it was
      looked up, whether the done branch is taken although an answer is there, whether the deadline has
      passed by the time it is checked, whether the parent context has ended by then. */
  datatype Cycle = Cycle(taps: seq<Tap>, pruned: bool, preferDone: bool, lateDeadline: bool, parentDone: bool)

  predicate RealTaps(taps: seq<Tap>) {
    forall k | 0 <= k < |taps| :: taps[k].answer != Pending
  }

  predicate Script(cycles: seq<Cycle>) {
    forall k | 0 <= k < |cycles| :: RealTaps(cycles[k].taps)
  }

  /** The first answer given to a request, `Pending` if none. */
  function FirstTap(taps: seq<Tap>, id: nat): Answer {
    if taps == [] then Pending
    else if taps[0].id == id then taps[0].answer
    else FirstTap(taps[1..], id)
  }

  lemma {:induction false} FirstTapOfMore(taps: seq<Tap>, more: seq<Tap>, id: nat)
    requires RealTaps(taps)
    ensures FirstTap(taps + more, id) == if FirstTap(taps, id) != Pending then FirstTap(taps, id) else FirstTap(more, id)
  {
    if taps == [] {
      assert taps + more == more;
    } else {
      assert (taps + more)[1..] == taps[1..] + more;
      FirstTapOfMore(taps[1..], more, id);
    }
  }

  /** How a request whose wait is over was decided: by its first tap, else by its own timeout. */
  function Settled(c: Cycle, id: nat): (a: Option<Answer>)
    ensures a != Some(Pending)
  {
    if c.pruned then None
    else if FirstTap(c.taps, id) == Pending then Some(Denied)
    else Some(FirstTap(c.taps, id))
  }

  datatype Decision = Ended | AskAgain | Resume | Kill

  function Decide(c: Cycle, id: nat): Decision {
    var answer := FirstTap(c.taps, id);
    if c.parentDone then Ended
    else if c.pruned then Kill
    else if answer == Approved then Resume
    else if answer == Denied && !c.preferDone && !c.lateDeadline then Kill
    else AskAgain
  }

  /** How many cycles only ask again, when the k-th asks about request `id + k`. */
  function Asked(cycles: seq<Cycle>, id: nat): (n: nat)
    ensures n <= |cycles|
  {
    if cycles == [] || Decide(cycles[0], id) != AskAgain then 0 else 1 + Asked(cycles[1..], id + 1)
  }

  /** The signals after the initial stop. */
  function Answered(d: Decision): seq<Signal> {
    match d
    case AskAgain => []
    case Ended => [CONT]
    case Resume => [CONT]
    case Kill => [TERM, KILL]
  }

  function Trace(cycles: seq<Cycle>, id: nat): seq<Signal> {
    var n := Asked(cycles, id);
    [STOP] + if n == |cycles| then [] else Answered(Decide(cycles[n], id + n))
  }

  lemma {:induction false} AskedMeaning(cycles: seq<Cycle>, id: nat)
    ensures Undecided(cycles, id, Asked(cycles, id))
    ensures Asked(cycles, id) < |cycles| ==> Decide(cycles[Asked(cycles, id)], id + Asked(cycles, id)) != AskAgain
  {
    if cycles != [] && Decide(cycles[0], id) == AskAgain {
      AskedMeaning(cycles[1..], id + 1);
      forall k | 0 <= k < Asked(cycles, id) ensures Decide(cycles[k], id + k) == AskAgain {
        if k > 0 {
          assert cycles[k] == cycles[1..][k - 1];
        }
      }
    }
  }

  /** The first `n` waits decide nothing. */
  ghost predicate Undecided(cycles: seq<Cycle>, id: nat, n: nat)
    requires n <= |cycles|
  {
    forall k | 0 <= k < n :: Decide(cycles[k], id + k) == AskAgain
  }

  lemma {:induction false} AskedIsFirst(cycles: seq<Cycle>, id: nat, n: nat)
    requires n <= |cycles| && Undecided(cycles, id, n)
    requires n < |cycles| ==> Decide(cycles[n], id + n) != AskAgain
    ensures Asked(cycles, id) == n
  {
    if n > 0 {
      forall k | 0 <= k < n - 1 ensures Decide(cycles[1..][k], id + 1 + k) == AskAgain {
        assert cycles[1..][k] == cycles[k + 1];
        assert Decide(cycles[k + 1], id + (k + 1)) == AskAgain;
      }
      AskedIsFirst(cycles[1..], id + 1, n - 1);
    }
  }

  lemma StillUndecided(cycles: seq<Cycle>, id: nat, n: nat)
    requires n < |cycles| && Undecided(cycles, id, n) && Decide(cycles[n], id + n) == AskAgain
    ensures Undecided(cycles, id, n + 1)
  {
  }

  lemma TraceAt(cycles: seq<Cycle>, id: nat, n: nat)
    requires n <= |cycles| && Undecided(cycles, id, n)
    requires n < |cycles| ==> Decide(cycles[n], id + n) != AskAgain
    ensures Asked(cycles, id) == n
    ensures Trace(cycles, id) == [STOP] + if n == |cycles| then [] else Answered(Decide(cycles[n], id + n))
  {
    AskedIsFirst(cycles, id, n);
  }

  class Watcher {
    const reg: Registry?
    /** Signals sent to the group, oldest first. */
    var signals: seq<Signal>
    /** Request ids are never reused. */
    var nextId: nat

    ghost function Requests(): set<PendingReq>
      reads reg
    {
      if reg == null then {} else reg.pending.Values
    }

    ghost predicate Valid()
      reads `nextId, reg, Requests()
    {
      reg != null ==> reg.Valid() && forall id | id in reg.pending :: id < nextId
    }

    constructor (reg: Registry?, nextId: nat)
      requires reg != null ==> reg.Valid() && forall id | id in reg.pending :: id < nextId
      ensures Valid() && this.reg == reg && signals == [] && this.nextId == nextId
    {
      this.reg, this.signals, this.nextId := reg, [], nextId;
    }

    /** Opens a request under a new id: a sensitive request without a name is never refused. */
    method Ask() returns (id: nat)
      requires Valid() && reg != null
      modifies this, reg
      ensures Valid() && id == old(nextId) && nextId == id + 1 && signals == old(signals)
      ensures id in reg.pending && fresh(reg.pending[id]) && reg.pending == old(reg.pending)[id := reg.pending[id]]
      ensures reg.pending[id].ch == None
      ensures forall i :: reg.Decision(i) == if i == id then Some(Pending) else old(reg.Decision(i))
    {
      id := nextId;
      nextId := nextId + 1;
      var req := reg.Open(id, Sensitive, None);
    }

    /** The phone's taps, in the order they arrive. */
    method Answer(taps: seq<Tap>)
      requires Valid() && reg != null && RealTaps(taps)
      modifies reg.pending.Values
      ensures Valid() && reg.pending == old(reg.pending)
      ensures forall i :: reg.Decision(i) == if old(reg.Decision(i)) == Some(Pending) && FirstTap(taps, i) != Pending
                                             then Some(FirstTap(taps, i)) else old(reg.Decision(i))
      ensures forall i | i in reg.pending ::
                reg.pending[i].ch == if old(reg.Decision(i)) == Some(Pending) && FirstTap(taps, i) != Pending
                                     then Some(FirstTap(taps, i) == Approved) else old(reg.pending[i].ch)
    {
      for k := 0 to |taps|
        invariant Valid() && reg.pending == old(reg.pending)
        invariant forall i :: reg.Decision(i) == if old(reg.Decision(i)) == Some(Pending) && FirstTap(taps[..k], i) != Pending
                                                 then Some(FirstTap(taps[..k], i)) else old(reg.Decision(i))
        invariant forall i | i in reg.pending ::
                    reg.pending[i].ch == if old(reg.Decision(i)) == Some(Pending) && FirstTap(taps[..k], i) != Pending
                                         then Some(FirstTap(taps[..k], i) == Approved) else old(reg.pending[i].ch)
      {
        var won := reg.Resolve(taps[k].id, taps[k].answer);
        assert taps[..k + 1] == taps[..k] + [taps[k]];
        forall i: nat ensures FirstTap(taps[..k + 1], i) ==
                         if FirstTap(taps[..k], i) != Pending then FirstTap(taps[..k], i)
                         else if taps[k].id == i then taps[k].answer else Pending
        {
          FirstTapOfMore(taps[..k], [taps[k]], i);
        }
      }
      assert taps[..|taps|] == taps;
    }

    /** One wait and what the ladder makes of it. */
    method Await(c: Cycle, id: nat) returns (d: Decision)
      requires Valid() && reg != null && RealTaps(c.taps)
      requires reg.Decision(id) == Some(Pending) && reg.pending[id].ch == None
      modifies reg, reg.pending.Values
      ensures Valid() && d == Decide(c, id)
      ensures reg.pending == if c.pruned then old(reg.pending) - {id} else old(reg.pending)
      ensures reg.Decision(id) == Settled(c, id)
      ensures forall i | i != id && old(reg.Decision(i)) != Some(Pending) :: reg.Decision(i) == old(reg.Decision(i))
    {
      Answer(c.taps);
      if c.pruned {
        reg.Prune(id);
      }
      var done := id !in reg.pending || reg.pending[id].ch == None || c.preferDone;
      var res := reg.WaitByID(id, done, false, c.preferDone);
      var timedOut := done || c.lateDeadline;
      if c.parentDone {
        return Ended;
      }
      if (res == ErrDenied || res == ErrHeadlessTimeoutDenied) && timedOut {
        return AskAgain;
      }
      if res == WaitApproved {
        return Resume;
      }
      return Kill;
    }

    method KillLadder()
      modifies this`signals
      ensures signals == old(signals) + [TERM, KILL]
    {
      signals := signals + [TERM];
      signals := signals + [KILL];
    }

    /** What is sent when a wait decides: nothing leaves the group stopped. */
    method Release(d: Decision)
      requires d != AskAgain
      modifies this`signals
      ensures signals == old(signals) + Answered(d)
    {
      if d == Kill {
        KillLadder();
      } else {
        signals := signals + [CONT];
      }
    }

    /** The requests `base, base + 1, …` of the first `n` cycles ended up with the first tap's answer, denied
        by their own timeout, or pruned. */
    ghost predicate Recorded(cycles: seq<Cycle>, base: nat, n: nat)
      requires n <= |cycles|
      reads reg, Requests()
    {
      reg != null && forall id | base <= id < base + n :: reg.Decision(id) == Settled(cycles[id - base], id)
    }

    /** The open request, waiting for its first answer. */
    ghost predicate Open(id: nat)
      reads `nextId, reg, Requests()
    {
      reg != null && reg.Decision(id) == Some(Pending) && reg.pending[id].ch == None && nextId == id + 1
    }

    /** One wait, and the next request when it asks again. */
    method Turn(cycles: seq<Cycle>, base: nat, n: nat) returns (d: Decision)
      requires Valid() && Script(cycles) && n < |cycles| && Open(base + n) && Recorded(cycles, base, n)
      modifies this, reg, Requests()
      ensures Valid() && signals == old(signals) && d == Decide(cycles[n], base + n)
      ensures Recorded(cycles, base, n + 1) && fresh(Requests() - old(Requests()))
      ensures if d == AskAgain then Open(base + n + 1) else nextId == old(nextId)
    {
      hide Decide, FirstTap, Settled;
      d := Await(cycles[n], base + n);
      assert Recorded(cycles, base, n + 1);
      if d == AskAgain {
        var id := Ask();
      }
    }

    lemma NoneYet(cycles: seq<Cycle>, base: nat)
      requires reg != null
      ensures Recorded(cycles, base, 0) && Undecided(cycles, base, 0)
    {
    }

    /** Asks again until a wait decides; `n` is the wait that did, or the number of waits if none does. */
    method AskUntilDecided(cycles: seq<Cycle>, base: nat) returns (n: nat, d: Decision)
      requires Valid() && Script(cycles) && Open(base)
      modifies this, reg, Requests()
      ensures Valid() && signals == old(signals) && n <= |cycles| && Undecided(cycles, base, n)
      ensures n < |cycles| ==> d == Decide(cycles[n], base + n) && d != AskAgain && Recorded(cycles, base, n + 1)
      ensures n == |cycles| ==> Open(base + n) && Recorded(cycles, base, n)
    {
      hide Decide, FirstTap, Settled, Recorded, Undecided, Valid, Script, RealTaps;
      n, d := 0, AskAgain;
      NoneYet(cycles, base);
      while n < |cycles|
        invariant n <= |cycles| && Valid() && Open(base + n) && Recorded(cycles, base, n)
        invariant fresh(Requests() - old(Requests()))
        invariant signals == old(signals)
        invariant Undecided(cycles, base, n)
      {
        d := Turn(cycles, base, n);
        if d != AskAgain {
          return;
        }
        StillUndecided(cycles, base, n);
        n := n + 1;
      }
    }

    /** The ladder over the waits of `cycles`, once a registry is wired. */
    method Climb(cycles: seq<Cycle>) returns (returned: bool)
      requires Valid() && Script(cycles) && reg != null
      modifies this, reg, Requests()
      ensures Valid() && signals == old(signals) + Trace(cycles, old(nextId))
      ensures returned == (Asked(cycles, old(nextId)) < |cycles|)
      ensures Recorded(cycles, old(nextId), Asked(cycles, old(nextId)) + if returned then 1 else 0)
      ensures !returned ==> nextId > 0 && Open(nextId - 1)
    {
      hide Decide, FirstTap, Settled, Asked, Trace, Undecided;
      var base := nextId;
      signals := signals + [STOP];
      var id := Ask();
      var n, d := AskUntilDecided(cycles, base);
      TraceAt(cycles, base, n);
      returned := n < |cycles|;
      if returned {
        Release(d);
      }
    }

    /** The ladder: `returned` is false when every wait of `cycles` asked again. Without a registry it never
        stops the group. */
    method RunLadder(cycles: seq<Cycle>) returns (returned: bool)
      requires Valid() && Script(cycles)
      modifies this, reg, Requests()
      ensures Valid()
      ensures reg == null ==> returned && signals == old(signals) + [CONT] && nextId == old(nextId)
      ensures reg != null ==> signals == old(signals) + Trace(cycles, old(nextId))
      ensures reg != null ==> returned == (Asked(cycles, old(nextId)) < |cycles|)
      ensures reg != null ==> Recorded(cycles, old(nextId), Asked(cycles, old(nextId)) + if returned then 1 else 0)
      ensures reg != null && !returned ==> nextId > 0 && Open(nextId - 1)
    {
      hide Trace, Asked, Recorded, Open;
      if reg == null {
        signals := signals + [CONT];
        return true;
      }
      returned := Climb(cycles);
    }
  }

  // ---------- what the ladder guarantees ----------

  /** The wait leaves the group stopped: the parent lives, the request is there to be read, and nobody has
      answered it, or the first answer is a deny that is read at the deadline. */
  predicate StaysStopped(c: Cycle, id: nat) {
    && !c.parentDone && !c.pruned
    && (FirstTap(c.taps, id) == Pending || (FirstTap(c.taps, id) == Denied && (c.preferDone || c.lateDeadline)))
  }

  /** The n-th wait is the first that does not leave the group stopped. */
  ghost predicate Deciding(cycles: seq<Cycle>, id: nat, n: int) {
    && 0 <= n < |cycles| && !StaysStopped(cycles[n], id + n)
    && forall k | 0 <= k < n :: StaysStopped(cycles[k], id + k)
  }

  /** The parent has ended, or the request is there and its first answer is an approve. */
  predicate ApprovedOrEnded(c: Cycle, id: nat) {
    c.parentDone || (!c.pruned && FirstTap(c.taps, id) == Approved)
  }

  /** With the parent alive, the request is gone, or its first answer is a deny read before the deadline. */
  predicate DeniedInTime(c: Cycle, id: nat) {
    !c.parentDone && (c.pruned || (FirstTap(c.taps, id) == Denied && !c.preferDone && !c.lateDeadline))
  }

  lemma AsksAgainIffStaysStopped(c: Cycle, id: nat)
    requires RealTaps(c.taps)
    ensures Decide(c, id) == AskAgain <==> StaysStopped(c, id)
  {
  }

  lemma DecidingIsAsked(cycles: seq<Cycle>, id: nat, n: int)
    requires Script(cycles) && Deciding(cycles, id, n)
    ensures Asked(cycles, id) == n
    ensures Trace(cycles, id) == [STOP] + Answered(Decide(cycles[n], id + n)) && Decide(cycles[n], id + n) != AskAgain
  {
    hide Decide, StaysStopped, RealTaps;
    forall k | 0 <= k <= n ensures Decide(cycles[k], id + k) == AskAgain <==> StaysStopped(cycles[k], id + k) {
      assert RealTaps(cycles[k].taps);
      AsksAgainIffStaysStopped(cycles[k], id + k);
    }
    assert Undecided(cycles, id, n);
    TraceAt(cycles, id, n);
  }

  /** Some wait decides, or all of them leave the group stopped and nothing but the stop has been sent. */
  lemma SomeWaitDecides(cycles: seq<Cycle>, id: nat)
    requires Script(cycles)
    ensures if Asked(cycles, id) < |cycles| then Deciding(cycles, id, Asked(cycles, id))
            else Trace(cycles, id) == [STOP] && forall k | 0 <= k < |cycles| :: StaysStopped(cycles[k], id + k)
  {
    hide Decide, StaysStopped, RealTaps;
    AskedMeaning(cycles, id);
    forall k | 0 <= k < |cycles| ensures Decide(cycles[k], id + k) == AskAgain <==> StaysStopped(cycles[k], id + k) {
      assert RealTaps(cycles[k].taps);
      AsksAgainIffStaysStopped(cycles[k], id + k);
    }
  }

  /** The group is never left stopped: on every return the last signal is a resume or a kill, and until then
      it is the stop. */
  lemma NeverLeftFrozen(cycles: seq<Cycle>, id: nat)
    ensures var t := Trace(cycles, id);
            if Asked(cycles, id) < |cycles| then t[|t| - 1] == CONT || t[|t| - 1] == KILL else t == [STOP]
  {
    AskedMeaning(cycles, id);
  }

  /** The ladder has not returned, and the group has only been stopped, exactly while every wait leaves it so. */
  lemma StoppedIffNobodyDecides(cycles: seq<Cycle>, id: nat)
    requires Script(cycles)
    ensures Trace(cycles, id) == [STOP] <==> forall k | 0 <= k < |cycles| :: StaysStopped(cycles[k], id + k)
    ensures Asked(cycles, id) == |cycles| <==> Trace(cycles, id) == [STOP]
  {
    hide StaysStopped, Script;
    SomeWaitDecides(cycles, id);
    if Asked(cycles, id) < |cycles| {
      DecidingIsAsked(cycles, id, Asked(cycles, id));
    }
  }

  /** What a deciding wait sends. */
  lemma DecidingSends(cycles: seq<Cycle>, id: nat, n: int)
    requires Script(cycles) && Deciding(cycles, id, n)
    ensures n == Asked(cycles, id)
    ensures ApprovedOrEnded(cycles[n], id + n) ==> Trace(cycles, id) == [STOP, CONT]
    ensures DeniedInTime(cycles[n], id + n) ==> Trace(cycles, id) == [STOP, TERM, KILL]
    ensures ApprovedOrEnded(cycles[n], id + n) <==> !DeniedInTime(cycles[n], id + n)
  {
    hide Trace;
    assert RealTaps(cycles[n].taps);
    DecidingIsAsked(cycles, id, n);
  }

  /** The group is resumed exactly when the deciding wait finds the parent ended or an approve. In particular no
      deny, however late, resumes it. */
  lemma ResumesIffApprovedOrEnded(cycles: seq<Cycle>, id: nat)
    requires Script(cycles)
    ensures CONT in Trace(cycles, id) <==> exists n :: Deciding(cycles, id, n) && ApprovedOrEnded(cycles[n], id + n)
    ensures CONT in Trace(cycles, id) <==> Trace(cycles, id) == [STOP, CONT]
  {
    hide Script, Trace, StaysStopped, ApprovedOrEnded, DeniedInTime;
    SomeWaitDecides(cycles, id);
    if Asked(cycles, id) < |cycles| {
      DecidingSends(cycles, id, Asked(cycles, id));
    }
    if n :| Deciding(cycles, id, n) && ApprovedOrEnded(cycles[n], id + n) {
      DecidingSends(cycles, id, n);
    }
  }

  /** A kill is always preceded by a terminate, and happens exactly when the deciding wait finds, with the parent
      alive, a deny in time, or no request: a pruned request is taken for a deny. */
  lemma KillsIffDeniedInTime(cycles: seq<Cycle>, id: nat)
    requires Script(cycles)
    ensures KILL in Trace(cycles, id) <==> exists n :: Deciding(cycles, id, n) && DeniedInTime(cycles[n], id + n)
    ensures KILL in Trace(cycles, id) <==> Trace(cycles, id) == [STOP, TERM, KILL]
  {
    hide Script, Trace, StaysStopped, ApprovedOrEnded, DeniedInTime;
    SomeWaitDecides(cycles, id);
    if Asked(cycles, id) < |cycles| {
      DecidingSends(cycles, id, Asked(cycles, id));
    }
    if n :| Deciding(cycles, id, n) && DeniedInTime(cycles[n], id + n) {
      DecidingSends(cycles, id, n);
    }
  }

  /** An approve that is the first answer to the open request gets the group resumed even when it lands at the
      deadline, as long as the request is there to be read. */
  lemma ApproveAlwaysResumes(cycles: seq<Cycle>, id: nat, n: nat)
    requires Script(cycles) && n < |cycles| && (forall k | 0 <= k < n :: StaysStopped(cycles[k], id + k)) && !cycles[n].pruned
    requires FirstTap(cycles[n].taps, id + n) == Approved
    ensures Trace(cycles, id) == [STOP, CONT]
  {
    DecidingSends(cycles, id, n);
  }

  /** Timeouts alone never kill and never resume: while nobody answers or prunes the open request and the
      parent lives, the group stays stopped, however many waits expire. */
  lemma {:induction false} TimeoutsNeverDecide(cycles: seq<Cycle>, id: nat)
    requires Script(cycles)
    requires forall k | 0 <= k < |cycles| ::
               FirstTap(cycles[k].taps, id + k) == Pending && !cycles[k].parentDone && !cycles[k].pruned
    ensures Trace(cycles, id) == [STOP]
  {
    StoppedIffNobodyDecides(cycles, id);
  }
}
