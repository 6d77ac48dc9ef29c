/** The in-memory registry of approval requests: one call at a time. `ApproveRace` interleaves the calls. */
module Approve {
  import opened Text

  datatype Answer = Pending | Approved | Denied

  datatype WaitResult = WaitApproved | ErrDenied | ErrTimeout | ErrHeadlessTimeoutDenied | ErrNotFound

  // ---------- tiers ----------

  datatype Tier = Benign | Sensitive | Critical

  const CRITICAL_PATTERNS := ["panic-revoke", "kill-switch-disarm", "destructive-apply"]

  predicate Contains(s: string, pattern: string) {
    exists i | 0 <= i <= |s| :: pattern <= s[i..]
  }

  /** A pattern is found wherever it stands in the name. */
  lemma ContainsIff(s: string, pattern: string)
    ensures Contains(s, pattern) <==> exists before, after :: s == before + (pattern + after)
  {
    if i :| 0 <= i <= |s| && pattern <= s[i..] {
      assert s == s[..i] + (pattern + s[i..][|pattern|..]);
    }
    if before, after :| s == before + (pattern + after) {
      assert s[|before|..] == pattern + after;
    }
  }

  predicate NamesCritical(name: string) {
    exists k | 0 <= k < |CRITICAL_PATTERNS| :: Contains(name, CRITICAL_PATTERNS[k])
  }

  /** The tier a request is opened at: a name that matches a pattern forces the critical one. */
  function EffectiveTier(declared: Tier, name: Option<string>): Tier {
    if name.Some? && name.value != "" && NamesCritical(name.value) then Critical else declared
  }

  /** What a caller that reads a settled request is told. */
  function Verdict(a: Answer): WaitResult {
    if a == Approved then WaitApproved else ErrDenied
  }

  lemma EmptyNameIsHarmless()
    ensures !NamesCritical("")
  {
    assert forall k | 0 <= k < |CRITICAL_PATTERNS| :: |CRITICAL_PATTERNS[k]| > 0;
  }

  /** One request: `state` leaves `Pending` once, and `ch` buffers the one resolution until it is read. */
  class PendingReq {
    var state: Answer
    var ch: Option<bool>

    constructor ()
      ensures state == Pending && ch == None && Valid()
    {
      state, ch := Pending, None;
    }

    ghost predicate Valid()
      reads this
    {
      && (state == Pending ==> ch == None)
      && (ch.Some? ==> ch.value == (state == Approved))
    }

    method Resolve(newState: Answer) returns (won: bool)
      requires Valid() && newState != Pending
      modifies this
      ensures Valid() && won == (old(state) == Pending)
      ensures state == if won then newState else old(state)
      ensures ch == if won then Some(newState == Approved) else old(ch)
    {
      if state != Pending {
        return false;
      }
      state := newState;
      ch := Some(newState == Approved);
      won := true;
    }

    /** Returns when the resolution is in the buffer or the context is done; with both, either branch may
        be taken (`preferDone`). */
    method Wait(done: bool, hasTTY: bool, preferDone: bool) returns (r: WaitResult)
      requires Valid() && (ch.Some? || done)
      modifies this
      ensures Valid()
      ensures state == if old(state) == Pending && !hasTTY then Denied else old(state)
      ensures r == ErrTimeout <==> hasTTY && done && (preferDone || old(ch) == None)
      ensures r == ErrTimeout ==> ch == old(ch)
      ensures r == ErrHeadlessTimeoutDenied <==> old(state) == Pending && !hasTTY
      ensures r != ErrTimeout && r != ErrHeadlessTimeoutDenied ==> r == Verdict(old(state))
      ensures ch == None || ch == old(ch)
    {
      if ch.Some? && !(done && preferDone) {
        r := if ch.value then WaitApproved else ErrDenied;
        ch := None;
        return;
      }
      if hasTTY {
        return ErrTimeout;
      }
      var won := Resolve(Denied);
      if won {
        ch := None;
        return ErrHeadlessTimeoutDenied;
      }
      r := if state == Approved then WaitApproved else ErrDenied;
    }
  }

  class Registry {
    var pending: map<nat, PendingReq>

    constructor ()
      ensures pending == map[] && Valid()
    {
      pending := map[];
    }

    ghost predicate Valid()
      reads this, pending.Values
    {
      && (forall id | id in pending :: pending[id].Valid())
      && (forall i, j | i in pending && j in pending && i != j :: pending[i] != pending[j])
    }

    /** The decision on a request; `None` for one never opened or already pruned. */
    ghost function Decision(id: nat): Option<Answer>
      reads this, pending.Values
    {
      if id in pending then Some(pending[id].state) else None
    }

    /** A request is refused, and never enters the registry, exactly when it is declared critical or its name
        matches a critical pattern. */
    method Open(id: nat, declared: Tier, name: Option<string>) returns (req: Option<PendingReq>)
      requires Valid()
      modifies this
      ensures Valid()
      ensures req == None <==> declared == Critical || (name.Some? && NamesCritical(name.value))
      ensures req == None ==> pending == old(pending)
      ensures req.Some? ==> fresh(req.value) && pending == old(pending)[id := req.value]
      ensures req.Some? ==> req.value.state == Pending && req.value.ch == None
    {
      EmptyNameIsHarmless();
      if EffectiveTier(declared, name) == Critical {
        return None;
      }
      var r := new PendingReq();
      pending := pending[id := r];
      req := Some(r);
    }

    method Resolve(id: nat, newState: Answer) returns (won: bool)
      requires Valid() && newState != Pending
      modifies if id in pending then {pending[id]} else {}
      ensures Valid() && won == (old(Decision(id)) == Some(Pending))
      ensures forall i :: Decision(i) == if won && i == id then Some(newState) else old(Decision(i))
      ensures id in pending ==> pending[id].ch == if won then Some(newState == Approved) else old(pending[id].ch)
    {
      if id !in pending {
        return false;
      }
      won := pending[id].Resolve(newState);
    }

    /** Looks the request up and waits on it. */
    method WaitByID(id: nat, done: bool, hasTTY: bool, preferDone: bool) returns (r: WaitResult)
      requires Valid() && (id in pending ==> pending[id].ch.Some? || done)
      modifies if id in pending then {pending[id]} else {}
      ensures Valid()
      ensures r == if id !in pending then ErrNotFound
                   else if hasTTY && done && (preferDone || old(pending[id].ch) == None) then ErrTimeout
                   else if old(Decision(id)) == Some(Pending) && !hasTTY then ErrHeadlessTimeoutDenied
                   else Verdict(old(pending[id].state))
      ensures forall i :: Decision(i) == if i == id && old(Decision(i)) == Some(Pending) && !hasTTY then Some(Denied)
                                         else old(Decision(i))
    {
      if id !in pending {
        return ErrNotFound;
      }
      r := pending[id].Wait(done, hasTTY, preferDone);
    }

    /** The settled decision, for a caller that lost the race and must report the real outcome. */
    method StateOf(id: nat) returns (state: Answer, resolved: bool)
      requires Valid()
      ensures resolved <==> Decision(id) == Some(Approved) || Decision(id) == Some(Denied)
      ensures state == if resolved then Decision(id).value else Pending
    {
      if id !in pending || pending[id].state == Pending {
        return Pending, false;
      }
      return pending[id].state, true;
    }

    method Prune(id: nat)
      requires Valid()
      modifies this
      ensures Valid() && pending == old(pending) - {id}
    {
      pending := pending - {id};
    }
  }
}
