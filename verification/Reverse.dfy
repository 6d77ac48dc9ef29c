/** Carrying out an uninstall plan, target by target, and planning again afterwards. */
module Reverse {
  import opened Text
  import opened Chain
  import opened Sidecars
  import opened ReversePlan

  /** The disk and the log during a reversal, and the targets whose action failed. */
  datatype World = World(disk: Disk, log: seq<Record>, failed: set<string>)

  function DirOf(p: string): string {
    if p == "" || p[|p| - 1] == '/' then p else DirOf(p[..|p| - 1])
  }

  /** Paths are clean already, so only absoluteness, the shared directory and the attested hash remain. */
  predicate CanRestore(env: Env, disk: Disk, t: string, backup: string, chainHash: string) {
    && t != "" && t[0] == '/'
    && DirOf(backup) == DirOf(t)
    && backup in disk
    && (chainHash != "" ==> HashOf(env, disk[backup]) == chainHash)
  }

  /** What the system lets a reversal do: `logged` are the targets whose record the log accepts, `stuck` the
      ones that cannot be changed. */
  datatype Os = Os(logged: set<string>, stuck: set<string>)

  /** The record of a reversal step, written when the log accepts it. */
  function Noted(log: seq<Record>, r: Record, os: Os): seq<Record> {
    if r.target in os.logged then log + [r] else log
  }

  /** One planned action. Recording it is best effort and never stops a reversal. */
  function Execute(env: Env, w: World, t: string, a: Action, os: Os): World {
    match a
    case Restore(backup, chainHash) =>
      var log := if backup in w.disk then Noted(w.log, Record("restore", t, HashOf(env, w.disk[backup]), false), os) else w.log;
      if CanRestore(env, w.disk, t, backup, chainHash) && t !in os.stuck
      then World(w.disk[t := w.disk[backup]] - SidecarsOf(w.disk, t), log, w.failed)
      else World(w.disk, log, w.failed + {t})
    case Delete =>
      var log := Noted(w.log, Record("delete", t, HashOf(env, ""), false), os);
      if t in w.disk && t in os.stuck then World(w.disk, log, w.failed + {t}) else World(w.disk - {t}, log, w.failed)
    case Skip => w
    case Keep => w
  }

  function ExecuteAll(env: Env, w: World, plan: Plan, os: Os): World {
    if plan == [] then w
    else
      var k := |plan| - 1;
      Execute(env, ExecuteAll(env, w, plan[..k], os), plan[k].0, plan[k].1, os)
  }

  /** A dry run reports the restores whose backup no longer matches its recorded hash. */
  function Foreseen(env: Env, disk: Disk, plan: Plan): set<string> {
    if plan == [] then {}
    else
      var rest := Foreseen(env, disk, plan[..|plan| - 1]);
      match plan[|plan| - 1]
      case (t, Restore(backup, chainHash)) =>
        if backup in disk && chainHash != "" && HashOf(env, disk[backup]) != chainHash then rest + {t} else rest
      case _ => rest
  }

  /** ReverseExcluding as it runs: plan once, then act on each target in turn, or only report. */
  method ReverseExcluding(env: Env, log: seq<Record>, disk: Disk, dryRun: bool, exclude: set<string>, os: Os)
    returns (w: World, plan: Plan)
    ensures plan == PlanReverse(env, log, disk, exclude)
    ensures w == if dryRun then World(disk, log, Foreseen(env, disk, plan)) else ExecuteAll(env, World(disk, log, {}), plan, os)
  {
    hide PlanReverse;
    plan := PlanReverseExcluding(env, log, disk, exclude);
    w := World(disk, log, {});
    for i := 0 to |plan|
      invariant w == if dryRun then World(disk, log, Foreseen(env, disk, plan[..i]))
                     else ExecuteAll(env, World(disk, log, {}), plan[..i], os)
    {
      var (t, a) := plan[i];
      assert plan[..i + 1][..i] == plan[..i];
      match a {
        case Restore(backup, chainHash) =>
          if dryRun {
            if backup in disk && chainHash != "" && HashOf(env, disk[backup]) != chainHash {
              w := w.(failed := w.failed + {t});
            }
          } else {
            if backup in w.disk && t in os.logged {
              w := w.(log := w.log + [Record("restore", t, HashOf(env, w.disk[backup]), false)]);
            }
            if CanRestore(env, w.disk, t, backup, chainHash) && t !in os.stuck {
              var baks := SidecarsOf(w.disk, t);
              w := w.(disk := w.disk[t := w.disk[backup]] - baks);
            } else {
              w := w.(failed := w.failed + {t});
            }
          }
        case Delete =>
          if !dryRun {
            if t in os.logged {
              w := w.(log := w.log + [Record("delete", t, HashOf(env, ""), false)]);
            }
            if t in w.disk && t in os.stuck {
              w := w.(failed := w.failed + {t});
            } else {
              w := w.(disk := w.disk - {t});
            }
          }
        case _ =>
      }
    }
    assert plan[..|plan|] == plan;
  }

  // ---------- each action stays in its target's zone ----------

  function At(disk: Disk, p: string): Option<string> {
    if p in disk then Some(disk[p]) else None
  }

  predicate InZone(p: string, t: string) {
    p == t || t + BAK <= p
  }

  predicate Apart(t: string, u: string) {
    t != u && !NestedIn(t, u) && !NestedIn(u, t)
  }

  lemma PrefixMeansNested(t: string, u: string)
    requires t + BAK <= u
    ensures NestedIn(u, t)
  {
    assert (u + ".")[..|t| + 5] == u[..|t| + 5];
  }

  lemma SharedPrefixMeansNested(t: string, u: string, p: string)
    requires t + BAK <= p && u + BAK <= p && |t| < |u|
    ensures NestedIn(u, t)
  {
    assert p == u + (BAK + p[|u| + 5..]);
    BakDoesNotOverlap(t, u, p[|u| + 5..]);
  }

  lemma SharedZoneMeansNested(t: string, u: string, p: string)
    requires InZone(p, t) && InZone(p, u) && t != u
    ensures NestedIn(t, u) || NestedIn(u, t)
  {
    hide NestedIn;
    if p == t {
      PrefixMeansNested(u, t);
    } else if p == u {
      PrefixMeansNested(t, u);
    } else {
      PrefixHasBak(t, p);
      PrefixHasBak(u, p);
      if |t| < |u| {
        SharedPrefixMeansNested(t, u, p);
      } else if |u| < |t| {
        SharedPrefixMeansNested(u, t, p);
      }
    }
  }

  lemma ZonesDisjoint(t: string, u: string, p: string)
    requires Apart(t, u) && InZone(p, t)
    ensures !InZone(p, u)
  {
    hide NestedIn, InZone;
    if InZone(p, u) {
      SharedZoneMeansNested(t, u, p);
    }
  }

  predicate ActsInZone(t: string, a: Action) {
    a.Restore? ==> InZone(a.backup, t)
  }

  lemma ExecuteFrame(env: Env, w: World, t: string, a: Action, os: Os, p: string)
    requires !InZone(p, t)
    ensures At(Execute(env, w, t, a, os).disk, p) == At(w.disk, p)
  {
    hide CanRestore;
  }

  ghost predicate AgreeInZone(d: Disk, e: Disk, t: string) {
    forall p | InZone(p, t) :: At(d, p) == At(e, p)
  }

  /** An action reads and writes nothing outside its zone. */
  lemma ExecuteLocal(env: Env, v: World, w: World, t: string, a: Action, os: Os)
    requires ActsInZone(t, a) && AgreeInZone(v.disk, w.disk, t)
    ensures AgreeInZone(Execute(env, v, t, a, os).disk, Execute(env, w, t, a, os).disk, t)
    ensures (a.Restore? ==> At(v.disk, a.backup) == At(w.disk, a.backup))
    ensures t in Execute(env, v, t, a, os).failed - v.failed ==> t in Execute(env, w, t, a, os).failed
    ensures t in Execute(env, w, t, a, os).failed - w.failed ==> t in Execute(env, v, t, a, os).failed
  {
    if a.Restore? {
      assert At(v.disk, a.backup) == At(w.disk, a.backup);
    }
    assert At(v.disk, t) == At(w.disk, t);
    forall p | InZone(p, t)
      ensures At(Execute(env, v, t, a, os).disk, p) == At(Execute(env, w, t, a, os).disk, p)
    {
      assert At(v.disk, p) == At(w.disk, p);
    }
  }

  ghost predicate PlanApart(plan: Plan) {
    && (forall i | 0 <= i < |plan| :: ActsInZone(plan[i].0, plan[i].1))
    && (forall i, j | 0 <= i < j < |plan| :: Apart(plan[i].0, plan[j].0))
  }

  lemma {:induction false} ExecuteAllFrame(env: Env, w: World, plan: Plan, os: Os, p: string)
    requires forall i | 0 <= i < |plan| :: !InZone(p, plan[i].0)
    ensures At(ExecuteAll(env, w, plan, os).disk, p) == At(w.disk, p)
  {
    hide Execute, InZone;
    if plan != [] {
      var k := |plan| - 1;
      ExecuteAllFrame(env, w, plan[..k], os, p);
      ExecuteFrame(env, ExecuteAll(env, w, plan[..k], os), plan[k].0, plan[k].1, os, p);
    }
  }

  lemma ZoneUntouched(env: Env, w: World, plan: Plan, os: Os, t: string)
    requires forall i | 0 <= i < |plan| :: Apart(plan[i].0, t)
    ensures AgreeInZone(ExecuteAll(env, w, plan, os).disk, w.disk, t)
  {
    hide ExecuteAll, InZone;
    forall p | InZone(p, t) ensures At(ExecuteAll(env, w, plan, os).disk, p) == At(w.disk, p) {
      forall i | 0 <= i < |plan| ensures !InZone(p, plan[i].0) {
        assert Apart(plan[i].0, t);
        ZonesDisjoint(t, plan[i].0, p);
      }
      ExecuteAllFrame(env, w, plan, os, p);
    }
  }

  lemma FailedOnlyOwn(env: Env, w: World, t: string, a: Action, os: Os, u: string)
    requires u != t
    ensures u in Execute(env, w, t, a, os).failed <==> u in w.failed
  {
    hide CanRestore;
  }

  lemma {:induction false} FailedOnlyPlanned(env: Env, w: World, plan: Plan, os: Os, u: string)
    requires forall i | 0 <= i < |plan| :: plan[i].0 != u
    ensures u in ExecuteAll(env, w, plan, os).failed <==> u in w.failed
  {
    hide Execute;
    if plan != [] {
      var k := |plan| - 1;
      FailedOnlyPlanned(env, w, plan[..k], os, u);
      FailedOnlyOwn(env, ExecuteAll(env, w, plan[..k], os), plan[k].0, plan[k].1, os, u);
    }
  }

  lemma PlanApartPrefix(plan: Plan, k: nat)
    requires PlanApart(plan) && k <= |plan|
    ensures PlanApart(plan[..k])
  {
    hide Apart, ActsInZone;
    forall i, j | 0 <= i < j < k ensures Apart(plan[..k][i].0, plan[..k][j].0) {
      assert Apart(plan[i].0, plan[j].0);
    }
  }

  /** When targets keep apart, each one ends up as its own action on the original disk leaves it. */
  lemma {:induction false} ExecuteAllAt(env: Env, w: World, plan: Plan, os: Os, i: nat)
    requires PlanApart(plan) && i < |plan|
    ensures AgreeInZone(ExecuteAll(env, w, plan, os).disk, Execute(env, w, plan[i].0, plan[i].1, os).disk, plan[i].0)
    ensures w.failed == {} ==> (plan[i].0 in ExecuteAll(env, w, plan, os).failed
                                <==> plan[i].0 in Execute(env, w, plan[i].0, plan[i].1, os).failed)
  {
    hide Execute, InZone, Apart, ActsInZone;
    var k := |plan| - 1;
    var before := ExecuteAll(env, w, plan[..k], os);
    PlanApartPrefix(plan, k);
    var t := plan[i].0;
    if i == k {
      forall j | 0 <= j < k ensures Apart(plan[..k][j].0, t) && plan[..k][j].0 != t {
        assert Apart(plan[j].0, plan[k].0);
        ApartMeansDistinct(plan[j].0, plan[k].0);
      }
      ZoneUntouched(env, w, plan[..k], os, t);
      ExecuteLocal(env, before, w, t, plan[i].1, os);
      FailedOnlyPlanned(env, w, plan[..k], os, t);
    } else {
      ExecuteAllAt(env, w, plan[..k], os, i);
      assert Apart(plan[i].0, plan[k].0);
      ApartMeansDistinct(plan[i].0, plan[k].0);
      FailedOnlyOwn(env, before, plan[k].0, plan[k].1, os, t);
      forall p | InZone(p, t)
        ensures At(ExecuteAll(env, w, plan, os).disk, p) == At(Execute(env, w, t, plan[i].1, os).disk, p)
      {
        ZonesDisjoint(t, plan[k].0, p);
        ExecuteFrame(env, before, plan[k].0, plan[k].1, os, p);
      }
    }
  }

  lemma ApartIsSymmetric(t: string, u: string)
    requires Apart(t, u)
    ensures Apart(u, t)
  {
  }

  lemma ApartMeansDistinct(t: string, u: string)
    requires Apart(t, u)
    ensures t != u
  {
  }

  // ---------- what a reversal records ----------

  /** The record of one planned action, from the original disk: a restore is recorded with the hash of its backup,
      a deletion with that of nothing, when the log accepts it. */
  function NotesFor(env: Env, disk: Disk, t: string, a: Action, os: Os): seq<Record> {
    if t !in os.logged then []
    else
      match a
      case Restore(backup, _) => if backup in disk then [Record("restore", t, HashOf(env, disk[backup]), false)] else []
      case Delete => [Record("delete", t, HashOf(env, ""), false)]
      case _ => []
  }

  function NotesOf(env: Env, disk: Disk, plan: Plan, os: Os): seq<Record> {
    if plan == [] then []
    else
      var k := |plan| - 1;
      NotesOf(env, disk, plan[..k], os) + NotesFor(env, disk, plan[k].0, plan[k].1, os)
  }

  lemma ExecuteNotes(env: Env, w: World, disk: Disk, t: string, a: Action, os: Os)
    requires a.Restore? ==> At(w.disk, a.backup) == At(disk, a.backup)
    ensures Execute(env, w, t, a, os).log == w.log + NotesFor(env, disk, t, a, os)
  {
    hide CanRestore;
  }

  /** A reversal adds to the log one record for each restore and each deletion the log accepts, in the order of
      the plan, and nothing else. */
  lemma {:induction false} ReversalRecords(env: Env, w: World, plan: Plan, os: Os)
    requires PlanApart(plan)
    ensures ExecuteAll(env, w, plan, os).log == w.log + NotesOf(env, w.disk, plan, os)
  {
    hide Execute, Apart, NotesFor, InZone;
    if plan != [] {
      var k := |plan| - 1;
      var (t, a) := plan[k];
      var before := ExecuteAll(env, w, plan[..k], os);
      PlanApartPrefix(plan, k);
      ReversalRecords(env, w, plan[..k], os);
      forall j | 0 <= j < k ensures Apart(plan[..k][j].0, t) {
        assert Apart(plan[j].0, plan[k].0);
      }
      ZoneUntouched(env, w, plan[..k], os, t);
      assert ActsInZone(t, a);
      ExecuteNotes(env, before, w.disk, t, a, os);
    }
  }

  // ---------- what a reversal refuses ----------

  /** Two paths in one directory: the same text up to a last slash, and no slash after it. */
  ghost predicate SameDirectory(p: string, t: string) {
    exists d, a, b :: SplitsAt(p, d, a) && SplitsAt(t, d, b)
  }

  predicate SplitsAt(p: string, d: string, a: string) {
    p == d + a && '/' !in a && (d == "" || d[|d| - 1] == '/')
  }

  lemma {:induction false} DirOfSplits(p: string)
    ensures DirOf(p) <= p && SplitsAt(p, DirOf(p), p[|DirOf(p)|..])
    decreases |p|
  {
    if p != "" && p[|p| - 1] != '/' {
      var q := p[..|p| - 1];
      DirOfSplits(q);
      assert p[|DirOf(p)|..] == q[|DirOf(p)|..] + [p[|p| - 1]];
    } else {
      assert p[|p|..] == "";
    }
  }

  lemma SameDirectoryIff(p: string, t: string)
    ensures DirOf(p) == DirOf(t) <==> SameDirectory(p, t)
  {
    DirOfSplits(p);
    DirOfSplits(t);
    if d, a, b :| SplitsAt(p, d, a) && SplitsAt(t, d, b) {
      DirOfSidecar(d, a);
      DirOfSidecar(d, b);
    }
  }

  /** A planned restore is refused exactly when its target is not absolute or cannot be changed, or its backup is
      gone, lives in another directory, or does not have the recorded hash. */
  lemma RestoreRefusedIff(env: Env, w: World, plan: Plan, os: Os, i: nat)
    requires PlanApart(plan) && i < |plan| && plan[i].1.Restore? && w.failed == {}
    ensures var (t, a) := plan[i];
            t in ExecuteAll(env, w, plan, os).failed
            <==> t == "" || t[0] != '/' || t in os.stuck || a.backup !in w.disk || !SameDirectory(a.backup, t)
                 || (a.chainHash != "" && HashOf(env, w.disk[a.backup]) != a.chainHash)
  {
    hide ExecuteAll, PlanApart, SameDirectory, DirOf;
    ExecuteAllAt(env, w, plan, os, i);
    SameDirectoryIff(plan[i].1.backup, plan[i].0);
  }

  // ---------- plans made from a log ----------

  /** No written target lives in the backup namespace of another. */
  predicate TargetsApart(log: seq<Record>) {
    forall t, u | t in WriteTargets(log) && u in WriteTargets(log) && t != u :: !NestedIn(t, u)
  }

  lemma {:induction false} WriteTargetsDistinct(log: seq<Record>, i: nat, j: nat)
    requires i < j < |WriteTargets(log)|
    ensures WriteTargets(log)[i] != WriteTargets(log)[j]
  {
    var ts := WriteTargets(log[..|log| - 1]);
    if j < |ts| {
      WriteTargetsDistinct(log[..|log| - 1], i, j);
    }
  }

  lemma {:induction false} ExcludingDistinct(targets: seq<string>, exclude: set<string>, i: nat, j: nat)
    requires forall a, b | 0 <= a < b < |targets| :: targets[a] != targets[b]
    requires i < j < |Excluding(targets, exclude)|
    ensures Excluding(targets, exclude)[i] != Excluding(targets, exclude)[j]
  {
    var k := |targets| - 1;
    var r := Excluding(targets[..k], exclude);
    forall a, b | 0 <= a < b < k ensures targets[..k][a] != targets[..k][b] {
      assert targets[a] != targets[b];
    }
    if j < |r| {
      ExcludingDistinct(targets[..k], exclude, i, j);
    } else {
      assert r[i] in targets[..k];
    }
  }

  lemma {:induction false} AttestedMember(log: seq<Record>, t: string, r: Record)
    requires r in Attested(log, t)
    ensures Attests(r, t)
  {
    var k := |log| - 1;
    if r in Attested(log[..k], t) {
      AttestedMember(log[..k], t, r);
    }
  }

  lemma {:induction false} ExistingMember(disk: Disk, chain: seq<Record>, r: Record)
    ensures r in Existing(disk, chain) <==> r in chain && r.target in disk
  {
    if chain != [] {
      ExistingMember(disk, chain[1..], r);
      assert chain == [chain[0]] + chain[1..];
    }
  }

  lemma FirstSidecarExists(s: set<string>)
    requires s != {}
    ensures exists p :: IsFirst(p, s)
    decreases |s|
  {
    var p :| p in s;
    var rest := s - {p};
    if rest == {} {
      assert s == {p};
      assert IsFirst(p, s);
    } else {
      FirstSidecarExists(rest);
      var q :| IsFirst(q, rest);
      StrLessTotal(p, q);
      var first := if StrLess(p, q) then p else q;
      forall x | x in s && x != first ensures StrLess(first, x) {
        if first == p && x != q {
          StrLessTransitive(p, q, x);
        }
      }
      assert IsFirst(first, s);
    }
  }

  lemma PlanInZone(env: Env, log: seq<Record>, disk: Disk, t: string)
    ensures ActsInZone(t, PlanFor(env, log, disk, t))
  {
    hide OriginalOf, Drifted;
    var chain := Attested(log, t);
    var existing := Existing(disk, chain);
    if existing != [] {
      ExistingMember(disk, chain, existing[0]);
      AttestedMember(log, t, existing[0]);
      OriginalIsPrefix(existing[0].target);
    } else if SidecarsOf(disk, t) != {} {
      FirstSidecarExists(SidecarsOf(disk, t));
    }
  }

  lemma PlansKeepApart(env: Env, log: seq<Record>, disk: Disk, exclude: set<string>)
    requires TargetsApart(log)
    ensures PlanApart(PlanReverse(env, log, disk, exclude))
  {
    hide WriteTargets, PlanFor, NestedIn;
    var targets := WriteTargets(log);
    var kept := Excluding(targets, exclude);
    var plan := PlanReverse(env, log, disk, exclude);
    forall a, b | 0 <= a < b < |targets| ensures targets[a] != targets[b] {
      WriteTargetsDistinct(log, a, b);
    }
    forall i | 0 <= i < |plan| ensures ActsInZone(plan[i].0, plan[i].1) {
      PlanInZone(env, log, disk, kept[i]);
    }
    forall i, j | 0 <= i < j < |plan| ensures Apart(plan[i].0, plan[j].0) {
      ExcludingDistinct(targets, exclude, i, j);
      assert kept[i] in targets && kept[j] in targets;
    }
  }

  /** The world after reversing everything but `exclude`. */
  ghost function Reversed(env: Env, log: seq<Record>, disk: Disk, exclude: set<string>, os: Os): World {
    ExecuteAll(env, World(disk, log, {}), PlanReverse(env, log, disk, exclude), os)
  }

  lemma PlannedAt(env: Env, log: seq<Record>, disk: Disk, exclude: set<string>, t: string) returns (i: nat)
    requires t in WriteTargets(log) && t !in exclude
    ensures i < |PlanReverse(env, log, disk, exclude)|
    ensures PlanReverse(env, log, disk, exclude)[i] == (t, PlanFor(env, log, disk, t))
  {
    hide PlanFor, WriteTargets;
    var kept := Excluding(WriteTargets(log), exclude);
    assert t in kept;
    i :| 0 <= i < |kept| && kept[i] == t;
  }

  /** Each target, with its backup namespace, ends up as its own action leaves the original disk. */
  lemma ReversedAt(env: Env, log: seq<Record>, disk: Disk, exclude: set<string>, os: Os, t: string)
    requires TargetsApart(log) && t in WriteTargets(log) && t !in exclude
    ensures var alone := Execute(env, World(disk, log, {}), t, PlanFor(env, log, disk, t), os);
            && AgreeInZone(Reversed(env, log, disk, exclude, os).disk, alone.disk, t)
            && (t in Reversed(env, log, disk, exclude, os).failed <==> t in alone.failed)
  {
    hide PlanFor, Execute, WriteTargets, PlanReverse, ExecuteAll, TargetsApart;
    PlansKeepApart(env, log, disk, exclude);
    var i := PlannedAt(env, log, disk, exclude, t);
    ExecuteAllAt(env, World(disk, log, {}), PlanReverse(env, log, disk, exclude), os, i);
  }

  /** Nothing outside the zones of the written targets is touched. */
  lemma ReversedElsewhere(env: Env, log: seq<Record>, disk: Disk, exclude: set<string>, os: Os, p: string)
    requires forall t | t in WriteTargets(log) && t !in exclude :: !InZone(p, t)
    ensures At(Reversed(env, log, disk, exclude, os).disk, p) == At(disk, p)
  {
    hide PlanFor, WriteTargets, InZone;
    var plan := PlanReverse(env, log, disk, exclude);
    var kept := Excluding(WriteTargets(log), exclude);
    forall i | 0 <= i < |plan| ensures !InZone(p, plan[i].0) {
      assert kept[i] in kept;
    }
    ExecuteAllFrame(env, World(disk, log, {}), plan, os, p);
  }

  // ---------- when targets do not keep apart ----------

  predicate Leaves(a: Action) {
    a == Keep || a == Skip
  }

  lemma DriftedIsLeft(env: Env, log: seq<Record>, disk: Disk, t: string)
    requires Drifted(env, disk, t, LastWrite(log, t))
    ensures Leaves(PlanFor(env, log, disk, t))
  {
  }

  predicate Distinct(plan: Plan) {
    forall i, j | 0 <= i < j < |plan| :: plan[i].0 != plan[j].0
  }

  /** A restore that went through and cleared `t` away as a backup of its own target. */
  ghost predicate Clears(plan: Plan, failed: set<string>, t: string) {
    exists j :: 0 <= j < |plan| && plan[j].1.Restore? && IsSidecarName(t, plan[j].0) && plan[j].0 !in failed
  }

  lemma ClearsStep(plan: Plan, failed: set<string>, later: set<string>, t: string)
    requires plan != [] && Distinct(plan)
    requires forall u | u != plan[|plan| - 1].0 :: u in later <==> u in failed
    ensures var (u, a) := plan[|plan| - 1];
            Clears(plan, later, t) <==> Clears(plan[..|plan| - 1], failed, t) || (a.Restore? && IsSidecarName(t, u) && u !in later)
  {
    var k := |plan| - 1;
    if j :| 0 <= j < k && plan[..k][j].1.Restore? && IsSidecarName(t, plan[..k][j].0) && plan[..k][j].0 !in failed {
      assert plan[j].0 !in later;
    }
    if j :| 0 <= j < |plan| && plan[j].1.Restore? && IsSidecarName(t, plan[j].0) && plan[j].0 !in later {
      if j < k {
        assert plan[..k][j] == plan[j] && plan[j].0 != plan[k].0;
      }
    }
  }

  lemma ExecuteOnOther(env: Env, w: World, u: string, a: Action, os: Os, t: string)
    requires (u != t || Leaves(a)) && u !in w.failed
    ensures var v := Execute(env, w, u, a, os);
            At(v.disk, t) == if a.Restore? && IsSidecarName(t, u) && u !in v.failed then None else At(w.disk, t)
  {
    hide CanRestore;
  }

  lemma {:induction false} KeptUnlessCleared(env: Env, w: World, plan: Plan, os: Os, t: string)
    requires Distinct(plan) && w.failed == {} && forall i | 0 <= i < |plan| && plan[i].0 == t :: Leaves(plan[i].1)
    ensures var v := ExecuteAll(env, w, plan, os);
            At(v.disk, t) == if Clears(plan, v.failed, t) then None else At(w.disk, t)
  {
    hide Execute;
    if plan != [] {
      var k := |plan| - 1;
      var (u, a) := plan[k];
      var before := ExecuteAll(env, w, plan[..k], os);
      KeptUnlessCleared(env, w, plan[..k], os, t);
      FailedOnlyPlanned(env, w, plan[..k], os, u);
      forall x | x != u ensures x in Execute(env, before, u, a, os).failed <==> x in before.failed {
        FailedOnlyOwn(env, before, u, a, os, x);
      }
      ClearsStep(plan, before.failed, Execute(env, before, u, a, os).failed, t);
      ExecuteOnOther(env, before, u, a, os, t);
    }
  }

  lemma PlansAreDistinct(env: Env, log: seq<Record>, disk: Disk, exclude: set<string>)
    ensures Distinct(PlanReverse(env, log, disk, exclude))
  {
    hide WriteTargets, PlanFor;
    var targets := WriteTargets(log);
    forall a, b | 0 <= a < b < |targets| ensures targets[a] != targets[b] {
      WriteTargetsDistinct(log, a, b);
    }
    forall i, j | 0 <= i < j < |PlanReverse(env, log, disk, exclude)|
      ensures PlanReverse(env, log, disk, exclude)[i].0 != PlanReverse(env, log, disk, exclude)[j].0
    {
      ExcludingDistinct(targets, exclude, i, j);
    }
  }

  /** Drift in general, whatever the targets are called: a drifted target keeps its bytes if and only if no
      restore that goes through clears it away as a backup of another target. */
  lemma DriftSurvivesUnlessCleared(env: Env, log: seq<Record>, disk: Disk, exclude: set<string>, os: Os, t: string)
    requires t in WriteTargets(log) && t !in exclude && Drifted(env, disk, t, LastWrite(log, t))
    ensures var w := Reversed(env, log, disk, exclude, os);
            At(w.disk, t) == At(disk, t) <==> !Clears(PlanReverse(env, log, disk, exclude), w.failed, t)
  {
    hide WriteTargets, LastWrite, ExecuteAll, PlanReverse, Clears, Excluding;
    var plan := PlanReverse(env, log, disk, exclude);
    PlansAreDistinct(env, log, disk, exclude);
    var k := PlannedAt(env, log, disk, exclude, t);
    DriftedIsLeft(env, log, disk, t);
    forall i | 0 <= i < |plan| && plan[i].0 == t ensures Leaves(plan[i].1) {
      assert i == k;
    }
    KeptUnlessCleared(env, World(disk, log, {}), plan, os, t);
  }

  lemma {:induction false} ZoneLeft(env: Env, w: World, plan: Plan, os: Os, t: string, p: string)
    requires InZone(p, t) && forall i | 0 <= i < |plan| :: Apart(plan[i].0, t) || Leaves(plan[i].1)
    ensures At(ExecuteAll(env, w, plan, os).disk, p) == At(w.disk, p)
  {
    hide Apart, InZone;
    if plan != [] {
      var k := |plan| - 1;
      ZoneLeft(env, w, plan[..k], os, t, p);
      if !Leaves(plan[k].1) {
        var u := plan[k].0;
        assert Apart(u, t);
        ApartIsSymmetric(u, t);
        ZonesDisjoint(t, u, p);
        ExecuteFrame(env, ExecuteAll(env, w, plan[..k], os), u, plan[k].1, os, p);
      }
    }
  }

  /** In particular, a drifted target that keeps apart from every other planned one comes through with its bytes
      and its backups untouched. */
  lemma DriftIsRespected(env: Env, log: seq<Record>, disk: Disk, exclude: set<string>, os: Os, t: string)
    requires t in WriteTargets(log) && t !in exclude && Drifted(env, disk, t, LastWrite(log, t))
    requires forall u | u in WriteTargets(log) && u !in exclude && u != t :: Apart(u, t)
    ensures AgreeInZone(Reversed(env, log, disk, exclude, os).disk, disk, t)
  {
    hide WriteTargets, LastWrite, Apart, InZone, PlanFor, ExecuteAll;
    var kept := Excluding(WriteTargets(log), exclude);
    var plan := PlanReverse(env, log, disk, exclude);
    DriftedIsLeft(env, log, disk, t);
    forall i | 0 <= i < |plan| ensures Apart(plan[i].0, t) || Leaves(plan[i].1) {
      assert kept[i] in kept;
    }
    forall p | InZone(p, t) ensures At(Reversed(env, log, disk, exclude, os).disk, p) == At(disk, p) {
      ZoneLeft(env, World(disk, log, {}), plan, os, t, p);
    }
  }

  lemma TwoWrites(r: Record, q: Record, u: string)
    requires IsWrite(r) && IsWrite(q) && r.target != q.target
    ensures var log := [r, q];
            && WriteTargets(log) == [r.target, q.target] && Attested(log, u) == [] && !Restored(log, u)
            && LastWrite(log, u) == if u == q.target then q.hash else if u == r.target then r.hash else ""
  {
    hide OriginalOf, Restored;
    assert [] + [r] == [r] && [r] + [q] == [r, q];
    ScanStep([], r, u);
    ScanStep([r], q, u);
    NothingRestored(u);
    RestoredStep([], r, u);
    RestoredStep([r], q, u);
  }

  lemma TwoTargets(t: string, n: string, h: string, g: string)
    requires t != n
    ensures var log := [Record("write", t, h, false), Record("write", n, g, false)];
            && WriteTargets(log) == [t, n] && Attested(log, t) == [] && Attested(log, n) == []
            && !Restored(log, t) && !Restored(log, n) && LastWrite(log, t) == h && LastWrite(log, n) == g
    ensures Excluding([t, n], {}) == [t, n]
  {
    hide WriteTargets, Attested, Restored, LastWrite;
    TwoWrites(Record("write", t, h, false), Record("write", n, g, false), t);
    TwoWrites(Record("write", t, h, false), Record("write", n, g, false), n);
    assert [t, n][..1] == [t] && [t][..0] == [];
    assert Excluding([t], {}) == [t];
  }

  lemma NothingRestored(t: string)
    ensures !Restored([], t)
  {
  }

  lemma NestedName(t: string, disk: Disk)
    requires disk.Keys == {t, t + BAK + "x"}
    ensures var n := t + BAK + "x";
            n != t && IsSidecarName(n, t) && SidecarsOf(disk, t) == {n} && SidecarsOf(disk, n) == {} && FirstSidecar({n}) == n
  {
    var n := t + BAK + "x";
    assert n[|t| + 5..] == "x";
    assert IsFirst(n, {n});
    FirstSidecarIs(n, {n});
  }

  lemma PlanFromFacts(env: Env, log: seq<Record>, disk: Disk, t: string, h: string)
    requires Attested(log, t) == [] && !Restored(log, t) && LastWrite(log, t) == h
    ensures PlanFor(env, log, disk, t) == PlanTarget(env, disk, t, [], false, h)
  {
    hide Attested, Restored, LastWrite, PlanTarget;
  }

  /** The plan for the two. */
  lemma NestedPlan(env: Env, t: string, mine: string, written: string, edited: string)
    requires HashOf(env, edited) != HashOf(env, written) && HashOf(env, written) != ""
    ensures var n := t + BAK + "x";
            var log := [Record("write", t, HashOf(env, mine), false), Record("write", n, HashOf(env, written), false)];
            var disk := map[t := mine, n := edited];
            Drifted(env, disk, n, LastWrite(log, n)) && PlanReverse(env, log, disk, {}) == [(t, Restore(n, "")), (n, Keep)]
  {
    hide WriteTargets, Attested, LastWrite, Restored, IsSidecarName, SidecarsOf, FirstSidecar, PlanFor, Excluding, HashOf;
    var n := t + BAK + "x";
    var log := [Record("write", t, HashOf(env, mine), false), Record("write", n, HashOf(env, written), false)];
    var disk := map[t := mine, n := edited];
    NestedName(t, disk);
    TwoTargets(t, n, HashOf(env, mine), HashOf(env, written));
    PlanFromFacts(env, log, disk, t, HashOf(env, mine));
    PlanFromFacts(env, log, disk, n, HashOf(env, written));
  }

  /** A user's edit can be lost that way: a written file in the backup namespace of another one, edited since,
      is planned Keep, used as the other's backup, and cleared away. */
  lemma DriftedFileIsCleared(env: Env, t: string, mine: string, written: string, edited: string, os: Os)
    requires t != "" && t[0] == '/' && t !in os.stuck
    requires HashOf(env, edited) != HashOf(env, written) && HashOf(env, written) != ""
    ensures var n := t + BAK + "x";
            var log := [Record("write", t, HashOf(env, mine), false), Record("write", n, HashOf(env, written), false)];
            var disk := map[t := mine, n := edited];
            && Drifted(env, disk, n, LastWrite(log, n)) && (n, Keep) in PlanReverse(env, log, disk, {})
            && At(Reversed(env, log, disk, {}, os).disk, n) == None
  {
    hide WriteTargets, Attested, LastWrite, Restored, PlanReverse, SidecarsOf, CanRestore, Drifted;
    var n := t + BAK + "x";
    var log := [Record("write", t, HashOf(env, mine), false), Record("write", n, HashOf(env, written), false)];
    var disk := map[t := mine, n := edited];
    NestedPlan(env, t, mine, written, edited);
    NestedName(t, disk);
    NameInDir(env, disk, t);
    var first := (t, Restore(n, ""));
    var plan := [first, (n, Keep)];
    assert plan[1] in plan;
    assert plan[..1] == [first] && [first][..0] == [];
    var w := World(disk, log, {});
    assert ExecuteAll(env, w, [first], os) == Execute(env, w, t, Restore(n, ""), os);
  }

  lemma NameInDir(env: Env, disk: Disk, t: string)
    requires t != "" && t[0] == '/' && t + BAK + "x" in disk
    ensures CanRestore(env, disk, t, t + BAK + "x", "")
  {
    assert t + BAK + "x" == t + ".bak.x";
    DirOfSidecar(t, ".bak.x");
  }

  lemma DirOfSidecar(t: string, rest: string)
    requires '/' !in rest
    ensures DirOf(t + rest) == DirOf(t)
    decreases |rest|
  {
    if rest == "" {
      assert t + rest == t;
    } else {
      var s := t + rest;
      assert s[|s| - 1] == rest[|rest| - 1];
      assert s[..|s| - 1] == t + rest[..|rest| - 1];
      DirOfSidecar(t, rest[..|rest| - 1]);
    }
  }

  // ---------- dry runs ----------

  predicate Mismatched(env: Env, disk: Disk, a: Action) {
    a.Restore? && a.backup in disk && a.chainHash != "" && HashOf(env, disk[a.backup]) != a.chainHash
  }

  /** A dry run reports exactly the targets of restores whose backup is there with another hash than recorded. */
  lemma {:induction false} ForeseenIff(env: Env, disk: Disk, plan: Plan, t: string)
    ensures t in Foreseen(env, disk, plan) <==> exists i :: 0 <= i < |plan| && plan[i].0 == t && Mismatched(env, disk, plan[i].1)
  {
    if plan != [] {
      var k := |plan| - 1;
      ForeseenIff(env, disk, plan[..k], t);
      if i :| 0 <= i < k && plan[..k][i].0 == t && Mismatched(env, disk, plan[..k][i].1) {
        assert plan[i] == plan[..k][i];
      }
      if i :| 0 <= i < |plan| && plan[i].0 == t && Mismatched(env, disk, plan[i].1) {
        assert i == k || plan[..k][i] == plan[i];
      }
    }
  }

  /** What a dry run reports as refused, the real run refuses. */
  lemma DryRunForesees(env: Env, log: seq<Record>, disk: Disk, exclude: set<string>, os: Os, t: string)
    requires TargetsApart(log) && t in Foreseen(env, disk, PlanReverse(env, log, disk, exclude))
    ensures t in Reversed(env, log, disk, exclude, os).failed
  {
    hide PlanReverse, ExecuteAll, TargetsApart, Foreseen;
    var plan := PlanReverse(env, log, disk, exclude);
    PlansKeepApart(env, log, disk, exclude);
    ForeseenIff(env, disk, plan, t);
    var i :| 0 <= i < |plan| && plan[i].0 == t && Mismatched(env, disk, plan[i].1);
    ExecuteAllAt(env, World(disk, log, {}), plan, os, i);
  }
}
