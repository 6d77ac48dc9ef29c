/** What an uninstall plan says, from the log's entries and the disk alone. */
module Planning {
  import opened Text
  import opened Chain
  import opened Sidecars
  import opened ReversePlan
  import opened Reverse

  // ---------- which targets are planned, and in which order ----------

  predicate WritesTo(r: Record, t: string) {
    r.op == "write" && !r.dryRun && r.target == t
  }

  predicate Touched(log: seq<Record>, t: string) {
    exists i | 0 <= i < |log| :: WritesTo(log[i], t)
  }

  /** Entry `i` is the first real write to `t`. */
  predicate FirstWrite(log: seq<Record>, t: string, i: int) {
    0 <= i < |log| && WritesTo(log[i], t) && forall j | 0 <= j < i :: !WritesTo(log[j], t)
  }

  lemma {:induction false} TouchedIff(log: seq<Record>, t: string)
    ensures t in WriteTargets(log) <==> Touched(log, t)
  {
    if log != [] {
      var k := |log| - 1;
      TouchedIff(log[..k], t);
      if i :| 0 <= i < |log| && WritesTo(log[i], t) {
        assert i < k ==> WritesTo(log[..k][i], t);
      }
      if Touched(log[..k], t) {
        var i :| 0 <= i < k && WritesTo(log[..k][i], t);
        assert WritesTo(log[i], t);
      }
    }
  }

  /** These targets come in the order of their first writes. */
  ghost predicate InOrder(log: seq<Record>, targets: seq<string>) {
    forall a, b, i, j | 0 <= a < b < |targets| && FirstWrite(log, targets[a], i) && FirstWrite(log, targets[b], j) :: i < j
  }

  lemma FirstWriteInPrefix(log: seq<Record>, k: nat, t: string, i: int)
    requires k <= |log| && Touched(log[..k], t)
    ensures FirstWrite(log[..k], t, i) <==> FirstWrite(log, t, i)
  {
    var n :| 0 <= n < k && WritesTo(log[..k][n], t);
    assert WritesTo(log[n], t);
    assert forall j | 0 <= j < k :: log[..k][j] == log[j];
  }

  lemma {:induction false} TargetsInOrder(log: seq<Record>)
    ensures InOrder(log, WriteTargets(log))
  {
    if log != [] {
      var k := |log| - 1;
      var before := WriteTargets(log[..k]);
      TargetsInOrder(log[..k]);
      forall a, b, i, j | 0 <= a < b < |WriteTargets(log)| && FirstWrite(log, WriteTargets(log)[a], i) && FirstWrite(log, WriteTargets(log)[b], j)
        ensures i < j
      {
        TouchedIff(log[..k], before[a]);
        FirstWriteInPrefix(log, k, before[a], i);
        if b < |before| {
          TouchedIff(log[..k], before[b]);
          FirstWriteInPrefix(log, k, before[b], j);
        } else {
          TouchedIff(log[..k], WriteTargets(log)[b]);
          assert j < k ==> WritesTo(log[..k][j], WriteTargets(log)[b]);
        }
      }
    }
  }

  lemma {:induction false} ExcludingInOrder(log: seq<Record>, targets: seq<string>, exclude: set<string>)
    requires InOrder(log, targets)
    ensures InOrder(log, Excluding(targets, exclude))
  {
    hide FirstWrite;
    if targets != [] {
      var k := |targets| - 1;
      var kept := Excluding(targets[..k], exclude);
      assert InOrder(log, targets[..k]);
      ExcludingInOrder(log, targets[..k], exclude);
      var all := Excluding(targets, exclude);
      forall a, b, i, j | 0 <= a < b < |all| && FirstWrite(log, all[a], i) && FirstWrite(log, all[b], j) ensures i < j {
        if b == |kept| {
          assert kept[a] in targets[..k];
          var c :| 0 <= c < k && targets[..k][c] == kept[a];
          assert targets[c] == all[a] && targets[k] == all[b];
        }
      }
    }
  }

  predicate Plans(plan: Plan, t: string) {
    exists i | 0 <= i < |plan| :: plan[i].0 == t
  }

  /** The plan names exactly the written targets that are not excluded, each once, in the order of their first
      writes, whatever else the log holds. */
  lemma PlanListsTargets(env: Env, log: seq<Record>, disk: Disk, exclude: set<string>, t: string)
    ensures var plan := PlanReverse(env, log, disk, exclude);
            && (Plans(plan, t) <==> Touched(log, t) && t !in exclude)
            && Distinct(plan)
            && forall a, b, i, j | 0 <= a < b < |plan| && FirstWrite(log, plan[a].0, i) && FirstWrite(log, plan[b].0, j) :: i < j
  {
    hide WriteTargets, PlanFor, FirstWrite, Touched, Distinct;
    TouchedIff(log, t);
    TargetsInOrder(log);
    ExcludingInOrder(log, WriteTargets(log), exclude);
    PlansAreDistinct(env, log, disk, exclude);
    var kept := Excluding(WriteTargets(log), exclude);
    var plan := PlanReverse(env, log, disk, exclude);
    assert |plan| == |kept| && forall i | 0 <= i < |kept| :: plan[i].0 == kept[i];
    assert t in kept <==> Plans(plan, t);
  }

  // ---------- what is planned for one target ----------

  /** Entry `i` is the last real write to `t`. */
  predicate LastWriteAt(log: seq<Record>, t: string, i: int) {
    0 <= i < |log| && WritesTo(log[i], t) && forall j | i < j < |log| :: !WritesTo(log[j], t)
  }

  lemma {:induction false} LastWriteMeaning(log: seq<Record>, t: string)
    ensures Touched(log, t) ==> exists i :: LastWriteAt(log, t, i)
    ensures forall i | LastWriteAt(log, t, i) :: LastWrite(log, t) == log[i].hash
    ensures !Touched(log, t) ==> LastWrite(log, t) == ""
  {
    if log != [] {
      var k := |log| - 1;
      LastWriteMeaning(log[..k], t);
      assert forall j | 0 <= j < k :: log[..k][j] == log[j];
      if WritesTo(log[k], t) {
        assert LastWriteAt(log, t, k);
      } else {
        if Touched(log[..k], t) {
          var i :| LastWriteAt(log[..k], t, i);
          assert LastWriteAt(log, t, i);
        }
        forall i | LastWriteAt(log, t, i) ensures LastWrite(log, t) == log[i].hash {
          assert LastWriteAt(log[..k], t, i);
        }
      }
    }
  }

  /** A real backup entry of `t`: its name is `t`, then the last ".bak." of the name. */
  predicate BacksUp(r: Record, t: string) {
    && r.op == "backup" && !r.dryRun && t != "" && t + BAK <= r.target
    && forall j | |t| < j < |r.target| :: !BakAt(r.target, j)
  }

  lemma BacksUpIff(r: Record, t: string)
    ensures BacksUp(r, t) <==> Attests(r, t)
  {
    OriginalOfIff(r.target, t);
  }

  /** Entry `i` is the earliest backup entry of `t` whose file is still there. */
  predicate FirstLeft(log: seq<Record>, disk: Disk, t: string, i: int) {
    && 0 <= i < |log| && BacksUp(log[i], t) && log[i].target in disk
    && forall j | 0 <= j < i && BacksUp(log[j], t) :: log[j].target !in disk
  }

  lemma {:induction false} ExistingOfMore(disk: Disk, chain: seq<Record>, r: Record)
    ensures Existing(disk, chain + [r]) == Existing(disk, chain) + if r.target in disk then [r] else []
  {
    if chain == [] {
      assert chain + [r] == [r];
    } else {
      assert (chain + [r])[1..] == chain[1..] + [r];
      ExistingOfMore(disk, chain[1..], r);
    }
  }

  /** The earliest backup entry whose file is left, one line later. */
  lemma FirstLeftStep(log: seq<Record>, disk: Disk, t: string, k: nat)
    requires |log| == k + 1
    ensures var first := BacksUp(log[k], t) && log[k].target in disk && forall j :: !FirstLeft(log[..k], disk, t, j);
            forall i :: FirstLeft(log, disk, t, i) <==> (FirstLeft(log[..k], disk, t, i) || (i == k && first))
  {
    hide BacksUp;
    assert forall j | 0 <= j < k :: log[..k][j] == log[j];
    NoneLeft(log[..k], disk, t, k);
  }

  /** Without a first one there is none. */
  lemma {:induction false} NoneLeft(log: seq<Record>, disk: Disk, t: string, n: nat)
    requires n <= |log|
    ensures (forall i :: !FirstLeft(log, disk, t, i)) ==> forall i | 0 <= i < n && BacksUp(log[i], t) :: log[i].target !in disk
  {
    hide BacksUp;
    if n > 0 {
      NoneLeft(log, disk, t, n - 1);
      if BacksUp(log[n - 1], t) && log[n - 1].target in disk && forall i | 0 <= i < n - 1 && BacksUp(log[i], t) :: log[i].target !in disk {
        assert FirstLeft(log, disk, t, n - 1);
      }
    }
  }

  lemma FirstLeftIn(log: seq<Record>, disk: Disk, t: string)
    ensures forall i | FirstLeft(log, disk, t, i) :: 0 <= i < |log| && BacksUp(log[i], t)
  {
  }

  lemma AttestedStep(log: seq<Record>, t: string, k: nat)
    requires |log| == k + 1
    ensures Attested(log, t) == Attested(log[..k], t) + if BacksUp(log[k], t) then [log[k]] else []
  {
    hide OriginalOf, BacksUp;
    BacksUpIff(log[k], t);
  }

  lemma {:induction false} AttestedIffBacked(log: seq<Record>, t: string)
    ensures Attested(log, t) == [] <==> forall i | 0 <= i < |log| :: !BacksUp(log[i], t)
  {
    hide BacksUp, Attested;
    if log == [] {
      assert Attested([], t) == [] by { EmptyAttested(t); }
    } else {
      var k := |log| - 1;
      AttestedIffBacked(log[..k], t);
      assert forall j | 0 <= j < k :: log[..k][j] == log[j];
      AttestedStep(log, t, k);
    }
  }

  lemma EmptyAttested(t: string)
    ensures Attested([], t) == []
  {
  }

  lemma {:induction false} FirstLeftMeaning(log: seq<Record>, disk: Disk, t: string)
    ensures var left := Existing(disk, Attested(log, t));
            if left == [] then forall i :: !FirstLeft(log, disk, t, i)
            else exists i :: FirstLeft(log, disk, t, i) && log[i] == left[0]
  {
    hide BacksUp, Attested, FirstLeft;
    FirstLeftIn(log, disk, t);
    if log == [] {
      EmptyAttested(t);
    } else {
      var k := |log| - 1;
      FirstLeftMeaning(log[..k], disk, t);
      FirstLeftIn(log[..k], disk, t);
      FirstLeftStep(log, disk, t, k);
      AttestedStep(log, t, k);
      hide Existing;
      var left := Existing(disk, Attested(log[..k], t));
      if BacksUp(log[k], t) {
        ExistingOfMore(disk, Attested(log[..k], t), log[k]);
      } else {
        assert Attested(log, t) == Attested(log[..k], t);
      }
      if left != [] {
        var i :| FirstLeft(log[..k], disk, t, i) && log[..k][i] == left[0];
        assert FirstLeft(log, disk, t, i) && log[i] == left[0];
      } else if BacksUp(log[k], t) && log[k].target in disk {
        assert FirstLeft(log, disk, t, k);
      }
    }
  }

  /** The content on disk is known not to be what was last written. */
  predicate Edited(env: Env, log: seq<Record>, disk: Disk, t: string) {
    exists i | 0 <= i < |log| :: LastWriteAt(log, t, i) && log[i].hash != "" && t in disk && HashOf(env, disk[t]) != log[i].hash
  }

  lemma EditedIff(env: Env, log: seq<Record>, disk: Disk, t: string)
    ensures Edited(env, log, disk, t) <==> Drifted(env, disk, t, LastWrite(log, t))
  {
    hide LastWriteAt, LastWrite, Touched, HashOf;
    LastWriteMeaning(log, t);
    if Drifted(env, disk, t, LastWrite(log, t)) {
      var i :| LastWriteAt(log, t, i);
      LastWriteInLog(log, t, i);
    }
  }

  lemma LastWriteInLog(log: seq<Record>, t: string, i: int)
    requires LastWriteAt(log, t, i)
    ensures 0 <= i < |log|
  {
  }

  /** Nothing in the log speaks of the target's content before abysslink. */
  predicate NoTrace(log: seq<Record>, t: string) {
    forall i | 0 <= i < |log| :: !BacksUp(log[i], t) && !Restores(log[i], t)
  }

  /** What is planned for a target, action by action, from the log and the disk: it is skipped when there is
      nothing to bring back or to delete, kept when there is but the user has edited it, and otherwise restored
      from the earliest recorded backup that is left, or from the first backup file when the log knows nothing,
      or deleted when there is no backup at all. */
  lemma PlanMeaning(env: Env, log: seq<Record>, disk: Disk, t: string)
    ensures var a := PlanFor(env, log, disk, t);
            var left := exists i :: FirstLeft(log, disk, t, i);
            var unknown, edited := NoTrace(log, t), Edited(env, log, disk, t);
            var strays := SidecarsOf(disk, t);
            && (a.Skip? <==> !left && !(unknown && (strays != {} || t in disk)))
            && (a.Keep? <==> edited && (left || unknown))
            && (a.Delete? <==> !edited && !left && unknown && strays == {} && t in disk)
            && (a.Restore? <==> !edited && (left || (unknown && strays != {})))
            && (a.Restore? && !left ==> IsFirst(a.backup, strays) && a.chainHash == "")
            && (a.Restore? && left ==> exists i :: FirstLeft(log, disk, t, i) && a.backup == log[i].target && a.chainHash == log[i].hash)
  {
    hide Attested, LastWrite, FirstLeft, BacksUp, FirstSidecar, IsSidecarName, HashOf, Edited, IsFirst;
    FirstLeftMeaning(log, disk, t);
    EditedIff(env, log, disk, t);
    FirstLeftIn(log, disk, t);
    AttestedIffBacked(log, t);
    if SidecarsOf(disk, t) != {} {
      FirstSidecarExists(SidecarsOf(disk, t));
      FirstSidecarIsLeast(SidecarsOf(disk, t));
    }
  }

  lemma FirstSidecarIsLeast(s: set<string>)
    requires exists p :: IsFirst(p, s)
    ensures IsFirst(FirstSidecar(s), s)
  {
  }
}
