/** Planning again after a reversal: what a second uninstall would do. */
module SecondReverse {
  import opened Chain
  import opened Sidecars
  import opened ReversePlan
  import opened Reverse

  // ---------- what a reversal adds to the log ----------

  predicate IsReversalRecord(r: Record) {
    !r.dryRun && (r.op == "restore" || r.op == "delete")
  }

  /** What planning reads of a log, except for the restored flags. */
  ghost predicate SameWrites(l: seq<Record>, m: seq<Record>) {
    && WriteTargets(l) == WriteTargets(m)
    && (forall t :: Attested(l, t) == Attested(m, t))
    && (forall t :: LastWrite(l, t) == LastWrite(m, t))
  }

  lemma ReversalRecordNeutral(log: seq<Record>, r: Record)
    requires IsReversalRecord(r)
    ensures SameWrites(log, log + [r])
  {
    hide WriteTargets, Attested, LastWrite;
    ScanStep(log, r, "");
    forall t ensures Attested(log, t) == Attested(log + [r], t) {
      ScanStep(log, r, t);
    }
    forall t ensures LastWrite(log, t) == LastWrite(log + [r], t) {
      ScanStep(log, r, t);
    }
  }

  /** The action whose restore record reaches the log. */
  predicate NotesRestore(w: World, t: string, a: Action, os: Os) {
    a.Restore? && a.backup in w.disk && t in os.logged
  }

  lemma ExecuteLog(env: Env, w: World, t: string, a: Action, os: Os, u: string)
    ensures SameWrites(w.log, Execute(env, w, t, a, os).log)
    ensures Restored(Execute(env, w, t, a, os).log, u) <==> Restored(w.log, u) || (u == t && NotesRestore(w, t, a, os))
  {
    hide WriteTargets, Attested, LastWrite, CanRestore, Restored;
    if a.Restore? && a.backup in w.disk {
      var r := Record("restore", t, HashOf(env, w.disk[a.backup]), false);
      ReversalRecordNeutral(w.log, r);
      RestoredStep(w.log, r, u);
    } else if a.Delete? {
      var r := Record("delete", t, HashOf(env, ""), false);
      ReversalRecordNeutral(w.log, r);
      RestoredStep(w.log, r, u);
    }
  }

  lemma {:induction false} ExecuteAllLog(env: Env, w: World, plan: Plan, os: Os)
    ensures SameWrites(w.log, ExecuteAll(env, w, plan, os).log)
  {
    hide Execute, WriteTargets, Attested, LastWrite;
    if plan != [] {
      var k := |plan| - 1;
      ExecuteAllLog(env, w, plan[..k], os);
      ExecuteLog(env, ExecuteAll(env, w, plan[..k], os), plan[k].0, plan[k].1, os, "");
    }
  }

  lemma {:induction false} RestoredOnlyPlanned(env: Env, w: World, plan: Plan, os: Os, u: string)
    requires forall i | 0 <= i < |plan| :: plan[i].0 != u
    ensures Restored(ExecuteAll(env, w, plan, os).log, u) <==> Restored(w.log, u)
  {
    hide Execute, Restored;
    if plan != [] {
      var k := |plan| - 1;
      RestoredOnlyPlanned(env, w, plan[..k], os, u);
      ExecuteLog(env, ExecuteAll(env, w, plan[..k], os), plan[k].0, plan[k].1, os, u);
    }
  }

  lemma {:induction false} RestoredAfter(env: Env, w: World, plan: Plan, os: Os, i: nat)
    requires PlanApart(plan) && i < |plan|
    ensures Restored(ExecuteAll(env, w, plan, os).log, plan[i].0)
       <==> Restored(w.log, plan[i].0) || NotesRestore(w, plan[i].0, plan[i].1, os)
  {
    hide Execute, Restored, Apart, InZone, NotesRestore;
    var k := |plan| - 1;
    var before := ExecuteAll(env, w, plan[..k], os);
    PlanApartPrefix(plan, k);
    ExecuteLog(env, before, plan[k].0, plan[k].1, os, plan[i].0);
    if i == k {
      forall j | 0 <= j < k ensures Apart(plan[..k][j].0, plan[k].0) && plan[..k][j].0 != plan[k].0 {
        assert Apart(plan[j].0, plan[k].0);
        ApartMeansDistinct(plan[j].0, plan[k].0);
      }
      RestoredOnlyPlanned(env, w, plan[..k], os, plan[k].0);
      ZoneUntouched(env, w, plan[..k], os, plan[k].0);
      SameBackupSeen(before, w, plan[k].0, plan[k].1, os);
    } else {
      assert Apart(plan[i].0, plan[k].0);
      ApartMeansDistinct(plan[i].0, plan[k].0);
      RestoredAfter(env, w, plan[..k], os, i);
    }
  }

  lemma SameBackupSeen(v: World, w: World, t: string, a: Action, os: Os)
    requires ActsInZone(t, a) && AgreeInZone(v.disk, w.disk, t)
    ensures NotesRestore(v, t, a, os) == NotesRestore(w, t, a, os)
  {
    if a.Restore? {
      assert At(v.disk, a.backup) == At(w.disk, a.backup);
    }
  }

  // ---------- planning depends only on the zone ----------

  /** The recorded backups of `t` have the names the writers give them. */
  predicate BackupsNamed(log: seq<Record>, t: string) {
    forall r | r in Attested(log, t) :: IsSidecarName(r.target, t)
  }

  lemma {:induction false} ExistingLocal(d: Disk, e: Disk, t: string, chain: seq<Record>)
    requires AgreeInZone(d, e, t) && forall r | r in chain :: t + BAK <= r.target
    ensures Existing(d, chain) == Existing(e, chain)
  {
    if chain != [] {
      assert chain[0] in chain;
      assert At(d, chain[0].target) == At(e, chain[0].target);
      ExistingLocal(d, e, t, chain[1..]);
    }
  }

  lemma PlanLocal(env: Env, d: Disk, e: Disk, t: string, chain: seq<Record>, restored: bool, lastHash: string)
    requires AgreeInZone(d, e, t) && forall r | r in chain :: t + BAK <= r.target
    ensures PlanTarget(env, d, t, chain, restored, lastHash) == PlanTarget(env, e, t, chain, restored, lastHash)
  {
    ExistingLocal(d, e, t, chain);
    assert At(d, t) == At(e, t);
    forall p ensures p in SidecarsOf(d, t) <==> p in SidecarsOf(e, t) {
      if t + BAK <= p {
        assert InZone(p, t);
        assert At(d, p) == At(e, p);
      }
    }
    assert SidecarsOf(d, t) == SidecarsOf(e, t);
  }

  lemma {:induction false} NoneExisting(disk: Disk, chain: seq<Record>)
    requires forall r | r in chain :: r.target !in disk
    ensures Existing(disk, chain) == []
  {
    if chain != [] {
      assert chain[0] in chain;
      NoneExisting(disk, chain[1..]);
    }
  }

  // ---------- the second plan ----------

  /** A restore that only the glob could justify and that left no trace in the log. */
  predicate LeavesNoTrace(log: seq<Record>, t: string, a: Action, os: Os) {
    a.Restore? && Attested(log, t) == [] && t !in os.logged
  }

  /** The backup holds something other than the last write. */
  predicate BackupDiffers(env: Env, log: seq<Record>, disk: Disk, t: string, backup: string) {
    LastWrite(log, t) != "" && backup in disk && HashOf(env, disk[backup]) != LastWrite(log, t)
  }

  /** What planning makes of a target after its own action succeeded, read off the disk before. */
  ghost function SecondAction(env: Env, log: seq<Record>, disk: Disk, t: string, a: Action, os: Os): Action {
    if a.Keep? then Keep
    else if LeavesNoTrace(log, t, a, os) then
      if BackupDiffers(env, log, disk, t, a.backup) then Keep else Delete
    else Skip
  }

  lemma AfterRestore(env: Env, log: seq<Record>, disk: Disk, t: string, a: Action, os: Os)
    requires a == PlanFor(env, log, disk, t) && a.Restore? && BackupsNamed(log, t)
    requires CanRestore(env, disk, t, a.backup, a.chainHash)
    ensures var d := disk[t := disk[a.backup]] - SidecarsOf(disk, t);
            PlanTarget(env, d, t, Attested(log, t), Restored(log, t) || (a.backup in disk && t in os.logged), LastWrite(log, t))
            == SecondAction(env, log, disk, t, a, os)
  {
    hide CanRestore, Attested, LastWrite, Restored, OriginalOf;
    assert a.backup in disk by {
      RestoreNeedsBackup(env, disk, t, a.backup, a.chainHash);
    }
    var chain := Attested(log, t);
    var d := disk[t := disk[a.backup]] - SidecarsOf(disk, t);
    forall r | r in chain ensures r.target !in d {
      assert IsSidecarName(r.target, t);
      assert r.target != t;
    }
    NoneExisting(d, chain);
    assert SidecarsOf(d, t) == {};
    assert t !in SidecarsOf(disk, t);
  }

  lemma RestoreNeedsBackup(env: Env, disk: Disk, t: string, backup: string, chainHash: string)
    requires CanRestore(env, disk, t, backup, chainHash)
    ensures backup in disk
  {
  }

  lemma AfterDelete(env: Env, log: seq<Record>, disk: Disk, t: string, os: Os)
    requires PlanFor(env, log, disk, t) == Delete
    ensures PlanTarget(env, disk - {t}, t, Attested(log, t), Restored(log, t), LastWrite(log, t)) == Skip
  {
    hide Attested, LastWrite, Restored;
    assert SidecarsOf(disk - {t}, t) == {} by {
      forall p | p in SidecarsOf(disk - {t}, t) ensures p in SidecarsOf(disk, t) {
      }
    }
  }

  /** After a reversal that succeeded on `t`, planning again gives Keep where it was kept, and Skip
      everywhere else; the one exception is a glob restore whose record the log refused, which is deleted
      unless its content differs from the last write. */
  lemma PlanAgain(env: Env, log: seq<Record>, disk: Disk, exclude: set<string>, os: Os, t: string)
    requires TargetsApart(log) && BackupsNamed(log, t) && t in WriteTargets(log) && t !in exclude
    requires t !in Reversed(env, log, disk, exclude, os).failed
    ensures var w := Reversed(env, log, disk, exclude, os);
            PlanFor(env, w.log, w.disk, t)
            == SecondAction(env, log, disk, t, PlanFor(env, log, disk, t), os)
  {
    hide TargetsApart, WriteTargets, CanRestore, Reversed, PlanTarget, Attested, LastWrite, Restored, InZone, AgreeInZone;
    var a := PlanFor(env, log, disk, t);
    var w := Reversed(env, log, disk, exclude, os);
    var alone := Execute(env, World(disk, log, {}), t, a, os);
    ReversedAt(env, log, disk, exclude, os, t);
    ReversedLog(env, log, disk, exclude, os, t);
    BackupsInZone(log, t);
    PlanLocal(env, w.disk, alone.disk, t, Attested(log, t), Restored(w.log, t), LastWrite(log, t));
    match a {
      case Restore(_, _) => AfterRestore(env, log, disk, t, a, os);
      case Delete => AfterDelete(env, log, disk, t, os);
      case _ =>
    }
  }

  lemma BackupsInZone(log: seq<Record>, t: string)
    requires BackupsNamed(log, t)
    ensures forall r | r in Attested(log, t) :: t + BAK <= r.target
  {
  }

  lemma ReversedLog(env: Env, log: seq<Record>, disk: Disk, exclude: set<string>, os: Os, t: string)
    requires TargetsApart(log) && t in WriteTargets(log) && t !in exclude
    ensures var w := Reversed(env, log, disk, exclude, os);
            var a := PlanFor(env, log, disk, t);
            && SameWrites(log, w.log)
            && (Restored(w.log, t) <==> Restored(log, t) || (a.Restore? && a.backup in disk && t in os.logged))
  {
    hide TargetsApart, WriteTargets, PlanFor, ExecuteAll, PlanReverse, Restored, PlanApart;
    var plan := PlanReverse(env, log, disk, exclude);
    PlansKeepApart(env, log, disk, exclude);
    var i := PlannedAt(env, log, disk, exclude, t);
    ExecuteAllLog(env, World(disk, log, {}), plan, os);
    RestoredAfter(env, World(disk, log, {}), plan, os, i);
  }

  predicate Idle(plan: Plan) {
    forall i | 0 <= i < |plan| :: plan[i].1 == Skip || plan[i].1 == Keep
  }

  /** Reversal is idempotent: after an error-free one, a second plan has nothing to do, exactly when every
      glob restore whose record the log refuses finds a backup that differs from the last write. */
  lemma SecondPlanIdle(env: Env, log: seq<Record>, disk: Disk, exclude: set<string>, os: Os)
    requires TargetsApart(log) && forall t :: BackupsNamed(log, t)
    requires Reversed(env, log, disk, exclude, os).failed == {}
    ensures var w := Reversed(env, log, disk, exclude, os);
            Idle(PlanReverse(env, w.log, w.disk, exclude))
            <==> forall t | t in WriteTargets(log) && t !in exclude && LeavesNoTrace(log, t, PlanFor(env, log, disk, t), os) ::
                   BackupDiffers(env, log, disk, t, PlanFor(env, log, disk, t).backup)
  {
    hide TargetsApart, WriteTargets, PlanFor, Reversed, BackupDiffers, Attested, BackupsNamed;
    var w := Reversed(env, log, disk, exclude, os);
    var kept := Excluding(WriteTargets(log), exclude);
    var plan := PlanReverse(env, w.log, w.disk, exclude);
    ReversedWrites(env, log, disk, exclude, os);
    forall t | t in WriteTargets(log) && t !in exclude
      ensures t in kept
      ensures PlanFor(env, w.log, w.disk, t) == SecondAction(env, log, disk, t, PlanFor(env, log, disk, t), os)
    {
      PlanAgain(env, log, disk, exclude, os, t);
    }
    if Idle(plan) {
      forall t | t in WriteTargets(log) && t !in exclude && LeavesNoTrace(log, t, PlanFor(env, log, disk, t), os)
        ensures BackupDiffers(env, log, disk, t, PlanFor(env, log, disk, t).backup)
      {
        var i := PlannedAt(env, w.log, w.disk, exclude, t);
        assert plan[i].1 == Skip || plan[i].1 == Keep;
      }
    }
  }

  lemma ReversedWrites(env: Env, log: seq<Record>, disk: Disk, exclude: set<string>, os: Os)
    ensures SameWrites(log, Reversed(env, log, disk, exclude, os).log)
  {
    hide ExecuteAll, PlanReverse, WriteTargets, Attested, LastWrite;
    ExecuteAllLog(env, World(disk, log, {}), PlanReverse(env, log, disk, exclude), os);
  }

  /** In particular, when the log accepts every record, a second uninstall does nothing. */
  lemma ReverseIsIdempotent(env: Env, log: seq<Record>, disk: Disk, exclude: set<string>, os: Os)
    requires TargetsApart(log) && forall t :: BackupsNamed(log, t)
    requires forall t | t in WriteTargets(log) :: t in os.logged
    requires Reversed(env, log, disk, exclude, os).failed == {}
    ensures var w := Reversed(env, log, disk, exclude, os);
            && Idle(PlanReverse(env, w.log, w.disk, exclude))
            && Reversed(env, w.log, w.disk, exclude, os) == World(w.disk, w.log, {})
  {
    hide TargetsApart, WriteTargets, PlanFor, Reversed, LastWrite, Drifted, Attested, BackupsNamed, PlanReverse;
    SecondPlanIdle(env, log, disk, exclude, os);
    var w := Reversed(env, log, disk, exclude, os);
    IdleChangesNothing(env, World(w.disk, w.log, {}), PlanReverse(env, w.log, w.disk, exclude), os);
    ReversedUnfolds(env, w.log, w.disk, exclude, os);
  }

  lemma ReversedUnfolds(env: Env, log: seq<Record>, disk: Disk, exclude: set<string>, os: Os)
    ensures Reversed(env, log, disk, exclude, os)
         == ExecuteAll(env, World(disk, log, {}), PlanReverse(env, log, disk, exclude), os)
  {
  }

  lemma {:induction false} IdleChangesNothing(env: Env, w: World, plan: Plan, os: Os)
    requires Idle(plan)
    ensures ExecuteAll(env, w, plan, os) == w
  {
    if plan != [] {
      var k := |plan| - 1;
      assert forall i | 0 <= i < k :: plan[..k][i] == plan[i];
      IdleChangesNothing(env, w, plan[..k], os);
    }
  }
}
