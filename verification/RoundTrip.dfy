/** Write, then reverse: what an uninstall makes of a crash-free run of file writes, from any files and any
    log to begin with, earlier installs and uninstalls included. */
module RoundTrip {
  import opened Text
  import opened Chain
  import opened Sidecars
  import opened ReversePlan
  import opened Reverse
  import opened FileWrites
  import opened SecondReverse

  function ApplyAll(env: Env, start: Site, ws: seq<FileWrite>): Site {
    if ws == [] then start
    else ApplyWrite(env, ApplyAll(env, start, ws[..|ws| - 1]), ws[|ws| - 1])
  }

  // ---------- the runs the round trip is about ----------

  predicate WriteOk(w: FileWrite) {
    StampText(w.stamp) && w.target != "" && w.target[0] == '/'
  }

  /** The clock has not shown this stamp before: no file and no log entry has the backup's name. */
  predicate NewStamp(start: Site, w: FileWrite) {
    && Sidecar(w.target, w.stamp) !in start.disk
    && forall r | r in start.log :: r.target != Sidecar(w.target, w.stamp)
  }

  predicate SameOrApart(t: string, u: string) {
    t == u || Apart(t, u)
  }

  /** Absolute targets, a strictly increasing clock, and no target, old or new, in the backup namespace of
      another. */
  ghost predicate ValidRun(start: Site, ws: seq<FileWrite>) {
    && (forall i | 0 <= i < |ws| :: WriteOk(ws[i]) && NewStamp(start, ws[i]))
    && (forall i, j | 0 <= i < j < |ws| :: StrLess(ws[i].stamp, ws[j].stamp))
    && (forall i, j | 0 <= i < |ws| && 0 <= j < |ws| :: SameOrApart(ws[i].target, ws[j].target))
    && (forall i, t | 0 <= i < |ws| && t in WriteTargets(start.log) :: SameOrApart(ws[i].target, t))
    && TargetsApart(start.log)
  }

  // ---------- one target over the run ----------

  predicate Written(ws: seq<FileWrite>, t: string) {
    exists i | 0 <= i < |ws| :: ws[i].target == t
  }

  /** What `t` holds after the run. */
  function Current(disk: Disk, ws: seq<FileWrite>, t: string): Option<string> {
    if ws == [] then At(disk, t)
    else if ws[|ws| - 1].target == t then Some(ws[|ws| - 1].content)
    else Current(disk, ws[..|ws| - 1], t)
  }

  /** A backup made during the run. */
  datatype Copy = Copy(stamp: string, content: string)

  /** The backup made by the first overwrite of `t`, or by the first signed one. */
  function FirstCopy(disk: Disk, ws: seq<FileWrite>, t: string, signedOnly: bool): Option<Copy> {
    if ws == [] then None
    else
      var k := |ws| - 1;
      var earlier := FirstCopy(disk, ws[..k], t, signedOnly);
      if earlier.Some? then earlier
      else if ws[k].target == t && Current(disk, ws[..k], t).Some? && (signedOnly ==> ws[k].signed)
      then Some(Copy(ws[k].stamp, Current(disk, ws[..k], t).value))
      else None
  }

  /** The content the first overwrite of `t` displaced. */
  function Displaced(disk: Disk, ws: seq<FileWrite>, t: string): Option<string> {
    match FirstCopy(disk, ws, t, false)
    case Some(c) => Some(c.content)
    case None => None
  }

  /** The content the first signed overwrite of `t` displaced: that one is on record. */
  function Recorded(disk: Disk, ws: seq<FileWrite>, t: string): Option<string> {
    match FirstCopy(disk, ws, t, true)
    case Some(c) => Some(c.content)
    case None => None
  }

  /** The backup files the run adds for `t`, and the backup entries. */
  function NewSidecars(disk: Disk, ws: seq<FileWrite>, t: string): set<string> {
    if ws == [] then {}
    else
      var k := |ws| - 1;
      NewSidecars(disk, ws[..k], t)
      + if ws[k].target == t && Current(disk, ws[..k], t).Some? then {Sidecar(t, ws[k].stamp)} else {}
  }

  function NewRecords(env: Env, disk: Disk, ws: seq<FileWrite>, t: string): seq<Record> {
    if ws == [] then []
    else
      var k := |ws| - 1;
      var cur := Current(disk, ws[..k], t);
      NewRecords(env, disk, ws[..k], t)
      + if ws[k].target == t && cur.Some? && ws[k].signed
        then [Record("backup", Sidecar(t, ws[k].stamp), HashOf(env, cur.value), false)] else []
  }

  /** What the log says of `t` after the run. */
  predicate LogTracks(env: Env, start: Site, ws: seq<FileWrite>, t: string) {
    var log := ApplyAll(env, start, ws).log;
    && (t in WriteTargets(log) <==> t in WriteTargets(start.log) || Written(ws, t))
    && (Written(ws, t) ==> Current(start.disk, ws, t).Some? && LastWrite(log, t) == HashOf(env, Current(start.disk, ws, t).value))
    && (!Written(ws, t) ==> LastWrite(log, t) == LastWrite(start.log, t))
    && (Restored(log, t) <==> Restored(start.log, t))
    && Attested(log, t) == Attested(start.log, t) + NewRecords(env, start.disk, ws, t)
  }

  /** The first copy is the earliest of the new backup files, and is still as it was made. */
  ghost predicate CopyTracks(disk: Disk, start: Disk, ws: seq<FileWrite>, t: string) {
    match FirstCopy(start, ws, t, false)
    case None => NewSidecars(start, ws, t) == {}
    case Some(c) =>
      && IsFirst(Sidecar(t, c.stamp), NewSidecars(start, ws, t))
      && At(disk, Sidecar(t, c.stamp)) == Some(c.content)
  }

  /** So is the first recorded one, and its record heads the new records. */
  predicate RecordTracks(env: Env, disk: Disk, start: Disk, ws: seq<FileWrite>, t: string) {
    match FirstCopy(start, ws, t, true)
    case None => NewRecords(env, start, ws, t) == []
    case Some(c) =>
      && Sidecar(t, c.stamp) in NewSidecars(start, ws, t)
      && NewRecords(env, start, ws, t) != []
      && NewRecords(env, start, ws, t)[0] == Record("backup", Sidecar(t, c.stamp), HashOf(env, c.content), false)
      && At(disk, Sidecar(t, c.stamp)) == Some(c.content)
  }

  /** Every new backup file was stamped by a write of the run. */
  ghost predicate Stamped(disk: Disk, ws: seq<FileWrite>, t: string) {
    forall p | p in NewSidecars(disk, ws, t) :: exists i :: 0 <= i < |ws| && ws[i].target == t && p == Sidecar(t, ws[i].stamp)
  }

  /** What the files say of `t` and its backup namespace after the run. */
  ghost predicate DiskTracks(env: Env, start: Site, ws: seq<FileWrite>, t: string) {
    var disk := ApplyAll(env, start, ws).disk;
    var made := NewSidecars(start.disk, ws, t);
    && At(disk, t) == Current(start.disk, ws, t)
    && (forall p | InZone(p, t) && p != t && p !in made :: At(disk, p) == At(start.disk, p))
    && (forall p | p in made :: p in disk && p !in start.disk)
    && Stamped(start.disk, ws, t)
    && CopyTracks(disk, start.disk, ws, t)
    && RecordTracks(env, disk, start.disk, ws, t)
  }

  // ---------- the effect of one write on the log ----------

  lemma WriteLog(env: Env, s: Site, w: FileWrite, t: string)
    requires WriteOk(w)
    ensures var l := ApplyWrite(env, s, w).log;
            && (t in WriteTargets(l) <==> t in WriteTargets(s.log) || t == w.target)
            && LastWrite(l, t) == (if t == w.target then HashOf(env, w.content) else LastWrite(s.log, t))
            && (Restored(l, t) <==> Restored(s.log, t))
            && Attested(l, t) == Attested(s.log, t)
               + if t == w.target && w.signed && t in s.disk
                 then [Record("backup", Sidecar(t, w.stamp), HashOf(env, s.disk[t]), false)] else []
  {
    hide WriteTargets, LastWrite, Restored, Attested, OriginalOf, Sidecar;
    var mid := BackupLog(env, s, w);
    var r := Record("write", w.target, HashOf(env, w.content), false);
    ScanStep(mid, r, t);
    RestoredStep(mid, r, t);
    if w.signed && w.target in s.disk {
      var b := Record("backup", Sidecar(w.target, w.stamp), HashOf(env, s.disk[w.target]), false);
      SplitRecoversPath(w.target, w.stamp);
      ScanStep(s.log, b, t);
      RestoredStep(s.log, b, t);
    }
  }

  lemma SidecarIsNamed(t: string, stamp: string)
    requires StampText(stamp)
    ensures IsSidecarName(Sidecar(t, stamp), t) && Sidecar(t, stamp) != t && InZone(Sidecar(t, stamp), t)
  {
    assert Sidecar(t, stamp) == t + BAK + stamp;
    assert Sidecar(t, stamp)[|t| + 5..] == stamp;
  }

  lemma WrittenStep(ws: seq<FileWrite>, w: FileWrite, t: string)
    ensures Written(ws + [w], t) <==> Written(ws, t) || w.target == t
  {
    var all := ws + [w];
    assert all[|ws|] == w;
    if i :| 0 <= i < |ws| && ws[i].target == t {
      assert all[i].target == t;
    }
  }

  lemma LogStep(env: Env, start: Site, ws: seq<FileWrite>, w: FileWrite, t: string)
    requires LogTracks(env, start, ws, t) && WriteOk(w)
    requires At(ApplyAll(env, start, ws).disk, t) == Current(start.disk, ws, t)
    ensures LogTracks(env, start, ws + [w], t)
  {
    hide WriteTargets, LastWrite, Restored, Attested, Written, ApplyWrite, Sidecar;
    assert (ws + [w])[..|ws|] == ws;
    WriteLog(env, ApplyAll(env, start, ws), w, t);
    WrittenStep(ws, w, t);
  }

  // ---------- the effect of one write on the files ----------

  /** A write touches its target and its one new backup. */
  lemma WriteDisk(env: Env, s: Site, w: FileWrite, p: string)
    requires WriteOk(w)
    ensures At(ApplyWrite(env, s, w).disk, p)
         == if p == w.target then Some(w.content)
            else if p == Sidecar(w.target, w.stamp) && w.target in s.disk then At(s.disk, w.target)
            else At(s.disk, p)
  {
    SidecarIsNamed(w.target, w.stamp);
    hide Sidecar;
  }

  lemma NewInZone(disk: Disk, ws: seq<FileWrite>, t: string, p: string)
    requires Stamped(disk, ws, t) && p in NewSidecars(disk, ws, t)
    ensures InZone(p, t)
  {
    var i :| 0 <= i < |ws| && ws[i].target == t && p == Sidecar(t, ws[i].stamp);
    assert t + BAK <= t + BAK + ws[i].stamp;
  }

  lemma StampedStep(disk: Disk, ws: seq<FileWrite>, w: FileWrite, t: string)
    requires Stamped(disk, ws, t)
    ensures Stamped(disk, ws + [w], t)
  {
    hide Sidecar;
    var all := ws + [w];
    assert all[..|ws|] == ws;
    forall p | p in NewSidecars(disk, all, t)
      ensures exists i :: 0 <= i < |all| && all[i].target == t && p == Sidecar(t, all[i].stamp)
    {
      if p in NewSidecars(disk, ws, t) {
        var i :| 0 <= i < |ws| && ws[i].target == t && p == Sidecar(t, ws[i].stamp);
        assert all[i] == ws[i];
      } else {
        assert all[|ws|] == w;
      }
    }
  }

  lemma OtherFileStep(env: Env, start: Site, ws: seq<FileWrite>, w: FileWrite, t: string)
    requires DiskTracks(env, start, ws, t) && WriteOk(w) && Apart(t, w.target)
    ensures DiskTracks(env, start, ws + [w], t)
  {
    hide Sidecar, ApplyWrite, NestedIn, InZone, Stamped;
    assert (ws + [w])[..|ws|] == ws;
    var s, u := ApplyAll(env, start, ws), ApplyAll(env, start, ws + [w]);
    assert u == ApplyWrite(env, s, w);
    forall p | InZone(p, t) ensures At(u.disk, p) == At(s.disk, p) {
      SidecarIsNamed(w.target, w.stamp);
      ZonesDisjoint(t, w.target, p);
      assert w.target != p by {
        assert InZone(w.target, w.target) by {
          SelfInZone(w.target);
        }
      }
      WriteDisk(env, s, w, p);
    }
    SelfInZone(t);
    StampedStep(start.disk, ws, w, t);
    forall p | p in NewSidecars(start.disk, ws, t) ensures At(u.disk, p) == At(s.disk, p) {
      NewInZone(start.disk, ws, t, p);
    }
  }

  lemma SelfInZone(t: string)
    ensures InZone(t, t)
  {
  }

  lemma LaterStamp(t: string, a: string, b: string)
    requires StrLess(a, b)
    ensures StrLess(Sidecar(t, a), Sidecar(t, b))
  {
    StrLessUnderPrefix(BAK, a, b);
    StrLessUnderPrefix(t, BAK + a, BAK + b);
  }

  /** A new backup comes after every backup the run has made so far, and its name is new. */
  lemma NewestSidecar(env: Env, start: Site, ws: seq<FileWrite>, w: FileWrite)
    requires DiskTracks(env, start, ws, w.target) && WriteOk(w) && NewStamp(start, w)
    requires forall i | 0 <= i < |ws| :: StrLess(ws[i].stamp, w.stamp)
    ensures var b := Sidecar(w.target, w.stamp);
            && (forall p | p in NewSidecars(start.disk, ws, w.target) :: StrLess(p, b) && p != b)
            && b !in start.disk && b != w.target && InZone(b, w.target)
  {
    hide CopyTracks, RecordTracks, ApplyAll;
    var b := Sidecar(w.target, w.stamp);
    SidecarIsNamed(w.target, w.stamp);
    forall p | p in NewSidecars(start.disk, ws, w.target) ensures StrLess(p, b) && p != b {
      var i :| 0 <= i < |ws| && ws[i].target == w.target && p == Sidecar(w.target, ws[i].stamp);
      LaterStamp(w.target, ws[i].stamp, w.stamp);
      StrLessIrreflexive(b);
    }
  }

  lemma StrLessIrreflexive(a: string)
    ensures !StrLess(a, a)
  {
    if StrLess(a, a) {
      StrLessAsymmetric(a, a);
    }
  }

  /** What an own write does to the files, to the first copy and to the first record. */
  lemma OwnCopyStep(env: Env, start: Site, ws: seq<FileWrite>, w: FileWrite)
    requires DiskTracks(env, start, ws, w.target) && WriteOk(w) && NewStamp(start, w)
    requires forall i | 0 <= i < |ws| :: StrLess(ws[i].stamp, w.stamp)
    ensures CopyTracks(ApplyAll(env, start, ws + [w]).disk, start.disk, ws + [w], w.target)
    ensures RecordTracks(env, ApplyAll(env, start, ws + [w]).disk, start.disk, ws + [w], w.target)
  {
    hide Sidecar, ApplyWrite, Stamped, NewStamp, InZone;
    var t, all := w.target, ws + [w];
    assert all[..|ws|] == ws;
    var s, u := ApplyAll(env, start, ws), ApplyAll(env, start, all);
    assert u == ApplyWrite(env, s, w);
    NewestSidecar(env, start, ws, w);
    WriteDisk(env, s, w, Sidecar(t, w.stamp));
    forall p | p in NewSidecars(start.disk, ws, t) ensures At(u.disk, p) == At(s.disk, p) {
      NewIsNotTarget(start.disk, ws, t, p);
      WriteDisk(env, s, w, p);
    }
    if FirstCopy(start.disk, ws, t, false).Some? {
      StrLessAsymmetric(Sidecar(t, FirstCopy(start.disk, ws, t, false).value.stamp), Sidecar(t, w.stamp));
    }
  }

  lemma NewIsNotTarget(disk: Disk, ws: seq<FileWrite>, t: string, p: string)
    requires Stamped(disk, ws, t) && p in NewSidecars(disk, ws, t)
    ensures p != t
  {
    var i :| 0 <= i < |ws| && ws[i].target == t && p == Sidecar(t, ws[i].stamp);
    assert |p| > |t|;
  }

  lemma OwnFileStep(env: Env, start: Site, ws: seq<FileWrite>, w: FileWrite)
    requires DiskTracks(env, start, ws, w.target) && WriteOk(w) && NewStamp(start, w)
    requires forall i | 0 <= i < |ws| :: StrLess(ws[i].stamp, w.stamp)
    ensures DiskTracks(env, start, ws + [w], w.target)
  {
    hide Sidecar, ApplyWrite, NewStamp, InZone, CopyTracks, RecordTracks, Stamped;
    var t, all := w.target, ws + [w];
    assert all[..|ws|] == ws;
    var s, u := ApplyAll(env, start, ws), ApplyAll(env, start, all);
    assert u == ApplyWrite(env, s, w);
    NewestSidecar(env, start, ws, w);
    StampedStep(start.disk, ws, w, t);
    OwnCopyStep(env, start, ws, w);
    WriteDisk(env, s, w, t);
    forall p | InZone(p, t) && p != t && p !in NewSidecars(start.disk, all, t) ensures At(u.disk, p) == At(start.disk, p) {
      WriteDisk(env, s, w, p);
    }
    forall p | p in NewSidecars(start.disk, all, t) ensures p in u.disk && p !in start.disk {
      WriteDisk(env, s, w, p);
      assert At(u.disk, p).Some?;
    }
  }

  // ---------- the whole run ----------

  lemma StartTracks(env: Env, start: Site, t: string)
    ensures LogTracks(env, start, [], t) && DiskTracks(env, start, [], t)
  {
  }

  lemma ValidPrefix(start: Site, ws: seq<FileWrite>, k: nat)
    requires ValidRun(start, ws) && k <= |ws|
    ensures ValidRun(start, ws[..k])
  {
    hide SameOrApart, WriteOk, NewStamp, WriteTargets, TargetsApart;
    forall i, j | 0 <= i < k && 0 <= j < k ensures SameOrApart(ws[..k][i].target, ws[..k][j].target) {
      assert SameOrApart(ws[i].target, ws[j].target);
    }
    forall i, j | 0 <= i < j < k ensures StrLess(ws[..k][i].stamp, ws[..k][j].stamp) {
      assert StrLess(ws[i].stamp, ws[j].stamp);
    }
    forall i, t | 0 <= i < k && t in WriteTargets(start.log) ensures SameOrApart(ws[..k][i].target, t) {
      assert SameOrApart(ws[i].target, t);
    }
  }

  /** `t` is one of the run's targets, or keeps apart from them all. */
  predicate Fits(ws: seq<FileWrite>, t: string) {
    forall i | 0 <= i < |ws| :: SameOrApart(ws[i].target, t)
  }

  lemma {:induction false} RunTracks(env: Env, start: Site, ws: seq<FileWrite>, t: string)
    requires ValidRun(start, ws) && Fits(ws, t)
    ensures LogTracks(env, start, ws, t) && DiskTracks(env, start, ws, t)
  {
    hide LogTracks, DiskTracks, Apart, NestedIn, WriteOk, NewStamp, WriteTargets, TargetsApart;
    if ws == [] {
      StartTracks(env, start, t);
    } else {
      var k := |ws| - 1;
      assert ws == ws[..k] + [ws[k]];
      ValidPrefix(start, ws, k);
      assert SameOrApart(ws[k].target, t);
      forall i | 0 <= i < k ensures SameOrApart(ws[..k][i].target, t) {
        assert SameOrApart(ws[i].target, t);
      }
      RunTracks(env, start, ws[..k], t);
      TrackedTarget(env, start, ws[..k], t);
      LogStep(env, start, ws[..k], ws[k], t);
      if ws[k].target == t {
        OwnFileStep(env, start, ws[..k], ws[k]);
      } else {
        ApartIsSymmetric(ws[k].target, t);
        OtherFileStep(env, start, ws[..k], ws[k], t);
      }
    }
  }

  lemma TrackedTarget(env: Env, start: Site, ws: seq<FileWrite>, t: string)
    requires DiskTracks(env, start, ws, t)
    ensures At(ApplyAll(env, start, ws).disk, t) == Current(start.disk, ws, t)
  {
  }

  /** The run writes exactly its own targets. */
  lemma {:induction false} RunTargets(env: Env, start: Site, ws: seq<FileWrite>, t: string)
    requires forall i | 0 <= i < |ws| :: WriteOk(ws[i])
    ensures t in WriteTargets(ApplyAll(env, start, ws).log) <==> t in WriteTargets(start.log) || Written(ws, t)
  {
    hide ApplyWrite, Written, WriteTargets;
    if ws == [] {
      assert !Written(ws, t) by {
        NothingWritten(t);
      }
    } else {
      var k := |ws| - 1;
      assert ws == ws[..k] + [ws[k]];
      RunTargets(env, start, ws[..k], t);
      WrittenStep(ws[..k], ws[k], t);
      WriteLog(env, ApplyAll(env, start, ws[..k]), ws[k], t);
    }
  }

  lemma NothingWritten(t: string)
    ensures !Written([], t)
  {
  }

  lemma OkStamp(w: FileWrite)
    requires WriteOk(w)
    ensures StampText(w.stamp)
  {
  }

  /** Paths outside every target's zone are never touched by a run. */
  lemma {:induction false} RunElsewhere(env: Env, start: Site, ws: seq<FileWrite>, p: string)
    requires forall i | 0 <= i < |ws| :: WriteOk(ws[i]) && !InZone(p, ws[i].target)
    ensures At(ApplyAll(env, start, ws).disk, p) == At(start.disk, p)
  {
    hide WriteOk, ApplyWrite, InZone;
    if ws != [] {
      var k := |ws| - 1;
      RunElsewhere(env, start, ws[..k], p);
      assert WriteOk(ws[k]) && !InZone(p, ws[k].target);
      SelfInZone(ws[k].target);
      OkStamp(ws[k]);
      SidecarIsNamed(ws[k].target, ws[k].stamp);
      WriteDisk(env, ApplyAll(env, start, ws[..k]), ws[k], p);
    }
  }

  // ---------- what planning finds after the run ----------

  /** The log has closed the book on `t`: it was restored before, or it once had a recorded backup. */
  predicate Settled(log: seq<Record>, t: string) {
    Restored(log, t) || Attested(log, t) != []
  }

  lemma {:induction false} AttestedInLog(log: seq<Record>, t: string, r: Record)
    requires r in Attested(log, t)
    ensures r in log && t + BAK <= r.target
  {
    var k := |log| - 1;
    if r in Attested(log[..k], t) {
      AttestedInLog(log[..k], t, r);
    } else {
      OriginalIsPrefix(r.target);
    }
  }

  lemma {:induction false} ExistingConcat(disk: Disk, a: seq<Record>, b: seq<Record>)
    ensures Existing(disk, a + b) == Existing(disk, a) + Existing(disk, b)
  {
    if a == [] {
      assert a + b == b;
    } else {
      assert (a + b)[1..] == a[1..] + b;
      ExistingConcat(disk, a[1..], b);
    }
  }

  lemma {:induction false} ExistingAgrees(d: Disk, e: Disk, chain: seq<Record>)
    requires forall r | r in chain :: At(d, r.target) == At(e, r.target)
    ensures Existing(d, chain) == Existing(e, chain)
  {
    if chain != [] {
      assert chain[0] in chain;
      ExistingAgrees(d, e, chain[1..]);
    }
  }

  /** No backup of the run reuses the name of a recorded one. */
  lemma NewNames(start: Site, ws: seq<FileWrite>, t: string, r: Record)
    requires ValidRun(start, ws) && Stamped(start.disk, ws, t) && r in start.log
    ensures r.target !in NewSidecars(start.disk, ws, t)
  {
    hide Sidecar, WriteTargets, TargetsApart, NewSidecars;
    forall p | p in NewSidecars(start.disk, ws, t) ensures p != r.target {
      var i :| 0 <= i < |ws| && ws[i].target == t && p == Sidecar(t, ws[i].stamp);
      assert NewStamp(start, ws[i]);
    }
  }

  /** The run leaves the backups recorded before it alone. */
  lemma OldBackupStays(env: Env, start: Site, ws: seq<FileWrite>, t: string, r: Record)
    requires ValidRun(start, ws) && DiskTracks(env, start, ws, t) && r in Attested(start.log, t)
    ensures At(ApplyAll(env, start, ws).disk, r.target) == At(start.disk, r.target)
  {
    hide ApplyAll, CopyTracks, RecordTracks, ValidRun, Stamped;
    AttestedInLog(start.log, t, r);
    NewNames(start, ws, t, r);
    assert InZone(r.target, t) && r.target != t;
  }

  lemma ExistingAfter(env: Env, start: Site, ws: seq<FileWrite>, t: string)
    requires ValidRun(start, ws) && LogTracks(env, start, ws, t) && DiskTracks(env, start, ws, t)
    ensures var s := ApplyAll(env, start, ws);
            Existing(s.disk, Attested(s.log, t))
            == Existing(start.disk, Attested(start.log, t)) + Existing(s.disk, NewRecords(env, start.disk, ws, t))
  {
    hide ApplyAll, Attested, ValidRun, DiskTracks, WriteTargets, LastWrite, Restored, Written;
    var s := ApplyAll(env, start, ws);
    ExistingConcat(s.disk, Attested(start.log, t), NewRecords(env, start.disk, ws, t));
    forall r | r in Attested(start.log, t) ensures At(s.disk, r.target) == At(start.disk, r.target) {
      OldBackupStays(env, start, ws, t, r);
    }
    ExistingAgrees(s.disk, start.disk, Attested(start.log, t));
  }

  lemma SidecarsAfter(env: Env, start: Site, ws: seq<FileWrite>, t: string)
    requires ValidRun(start, ws) && DiskTracks(env, start, ws, t)
    ensures SidecarsOf(ApplyAll(env, start, ws).disk, t) == SidecarsOf(start.disk, t) + NewSidecars(start.disk, ws, t)
  {
    hide ApplyAll, CopyTracks, RecordTracks, Sidecar, WriteTargets, TargetsApart;
    var d := ApplyAll(env, start, ws).disk;
    forall p ensures p in SidecarsOf(d, t) <==> p in SidecarsOf(start.disk, t) || p in NewSidecars(start.disk, ws, t) {
      if p in NewSidecars(start.disk, ws, t) {
        var i :| 0 <= i < |ws| && ws[i].target == t && p == Sidecar(t, ws[i].stamp);
        assert WriteOk(ws[i]);
        SidecarIsNamed(t, ws[i].stamp);
      } else if IsSidecarName(p, t) {
        assert InZone(p, t) && p != t;
        assert At(d, p) == At(start.disk, p);
      }
    }
  }

  lemma FirstSidecarIsFirst(s: set<string>)
    requires s != {}
    ensures IsFirst(FirstSidecar(s), s)
  {
    FirstSidecarExists(s);
  }

  /** The first of two groups of backups is the lesser of their firsts. */
  lemma FirstOfBoth(a: set<string>, b: set<string>, p: string, q: string)
    requires IsFirst(p, a) && IsFirst(q, b)
    ensures FirstSidecar(a + b) == if p == q || StrLess(p, q) then p else q
  {
    StrLessTotal(p, q);
    var first := if p == q || StrLess(p, q) then p else q;
    forall x | x in a + b && x != first ensures StrLess(first, x) {
      if x in a && x != p && first == q && p != q {
        StrLessTransitive(q, p, x);
      }
      if x in b && x != q && first == p && p != q {
        StrLessTransitive(p, q, x);
      }
    }
    FirstSidecarIs(first, a + b);
  }

  // ---------- undoing it ----------

  /** Where a target ends up, and whether its action failed. */
  datatype Fate = Fate(content: Option<string>, failed: bool)

  /** Where an uninstall takes a target that the run wrote, from the files and the log before the run: back to
      the earliest backup recorded before the run that still exists; else to what the first signed overwrite
      displaced; else nowhere, if the log has closed the book on it; else to the first backup file of all, or
      away if there is none. */
  ghost function FateOf(env: Env, start: Site, ws: seq<FileWrite>, t: string, stuck: bool): Fate {
    var cur := Current(start.disk, ws, t);
    var recorded := Existing(start.disk, Attested(start.log, t));
    var strays := SidecarsOf(start.disk, t);
    var copy := FirstCopy(start.disk, ws, t, false);
    if recorded != [] then
      if CanRestore(env, start.disk, t, recorded[0].target, recorded[0].hash) && !stuck
      then Fate(At(start.disk, recorded[0].target), false) else Fate(cur, true)
    else if Recorded(start.disk, ws, t).None? && Settled(start.log, t) then Fate(cur, false)
    else if stuck then Fate(cur, true)
    else if Recorded(start.disk, ws, t).Some? then Fate(Recorded(start.disk, ws, t), false)
    else if strays == {} || (copy.Some? && StrLess(Sidecar(t, copy.value.stamp), FirstSidecar(strays)))
    then Fate(Displaced(start.disk, ws, t), false)
    else Fate(At(start.disk, FirstSidecar(strays)), false)
  }

  /** The planned action, in the same terms. */
  ghost function PlannedFor(env: Env, start: Site, ws: seq<FileWrite>, t: string): Action {
    var recorded := Existing(start.disk, Attested(start.log, t));
    var strays := SidecarsOf(start.disk, t);
    var copy := FirstCopy(start.disk, ws, t, false);
    var signed := FirstCopy(start.disk, ws, t, true);
    if recorded != [] then Restore(recorded[0].target, recorded[0].hash)
    else if signed.Some? then Restore(Sidecar(t, signed.value.stamp), HashOf(env, signed.value.content))
    else if Settled(start.log, t) then Skip
    else if copy.Some? && (strays == {} || StrLess(Sidecar(t, copy.value.stamp), FirstSidecar(strays)))
    then Restore(Sidecar(t, copy.value.stamp), "")
    else if strays != {} then Restore(FirstSidecar(strays), "")
    else Delete
  }

  lemma GlobAfter(env: Env, start: Site, ws: seq<FileWrite>, t: string)
    requires ValidRun(start, ws) && DiskTracks(env, start, ws, t)
    ensures var all := SidecarsOf(ApplyAll(env, start, ws).disk, t);
            var strays, copy := SidecarsOf(start.disk, t), FirstCopy(start.disk, ws, t, false);
            && (all == {} <==> strays == {} && copy.None?)
            && (all == {}
                || FirstSidecar(all)
                   == if copy.Some? && (strays == {} || StrLess(Sidecar(t, copy.value.stamp), FirstSidecar(strays)))
                      then Sidecar(t, copy.value.stamp) else FirstSidecar(strays))
  {
    hide ApplyAll, RecordTracks, Sidecar, ValidRun, Stamped, SidecarsOf, FirstSidecar;
    SidecarsAfter(env, start, ws, t);
    var strays, made := SidecarsOf(start.disk, t), NewSidecars(start.disk, ws, t);
    if strays != {} {
      FirstSidecarIsFirst(strays);
    }
    if copy :| FirstCopy(start.disk, ws, t, false) == Some(copy) {
      var p := Sidecar(t, copy.stamp);
      if strays == {} {
        assert strays + made == made;
        FirstSidecarIs(p, made);
      } else {
        FirstOfBoth(made, strays, p, FirstSidecar(strays));
        assert strays + made == made + strays;
        StraysAreOld(start.disk, t, FirstSidecar(strays));
      }
    } else {
      assert strays + made == strays;
    }
  }

  lemma StraysAreOld(disk: Disk, t: string, p: string)
    requires p in SidecarsOf(disk, t)
    ensures p in disk
  {
  }

  /** The plan for a written target after the run. */
  lemma PlanAfter(env: Env, start: Site, ws: seq<FileWrite>, t: string)
    requires ValidRun(start, ws) && LogTracks(env, start, ws, t) && DiskTracks(env, start, ws, t) && Written(ws, t)
    ensures var s := ApplyAll(env, start, ws); PlanFor(env, s.log, s.disk, t) == PlannedFor(env, start, ws, t)
  {
    hide ApplyAll, Attested, ValidRun, Stamped, WriteTargets, Restored, Written, SidecarsOf, FirstSidecar, Sidecar, CopyTracks;
    var s := ApplyAll(env, start, ws);
    ExistingAfter(env, start, ws, t);
    GlobAfter(env, start, ws, t);
    if FirstCopy(start.disk, ws, t, true).Some? {
      ExistingFirst(s.disk, NewRecords(env, start.disk, ws, t));
    }
  }

  lemma ExistingFirst(disk: Disk, chain: seq<Record>)
    requires chain != [] && chain[0].target in disk
    ensures Existing(disk, chain) != [] && Existing(disk, chain)[0] == chain[0]
  {
  }

  lemma SidecarDir(p: string, t: string)
    requires IsSidecarName(p, t)
    ensures DirOf(p) == DirOf(t)
  {
    assert p == t + (BAK + p[|t| + 5..]);
    DirOfSidecar(t, BAK + p[|t| + 5..]);
  }

  /** A copy made by the run can be restored. */
  lemma CopyRestores(env: Env, start: Site, ws: seq<FileWrite>, t: string, c: Copy, hash: string)
    requires ValidRun(start, ws) && DiskTracks(env, start, ws, t) && Sidecar(t, c.stamp) in NewSidecars(start.disk, ws, t)
    requires At(ApplyAll(env, start, ws).disk, Sidecar(t, c.stamp)) == Some(c.content) && t != "" && t[0] == '/'
    requires hash == "" || hash == HashOf(env, c.content)
    ensures CanRestore(env, ApplyAll(env, start, ws).disk, t, Sidecar(t, c.stamp), hash)
  {
    hide ApplyAll, CopyTracks, RecordTracks, WriteTargets, TargetsApart, Sidecar;
    var i :| 0 <= i < |ws| && ws[i].target == t && Sidecar(t, c.stamp) == Sidecar(t, ws[i].stamp);
    assert WriteOk(ws[i]);
    SidecarIsNamed(t, ws[i].stamp);
    SidecarDir(Sidecar(t, c.stamp), t);
  }

  /** So can a backup file that was there before, exactly when it could before the run. */
  lemma StrayRestores(env: Env, start: Site, ws: seq<FileWrite>, t: string, p: string, hash: string)
    requires DiskTracks(env, start, ws, t) && InZone(p, t) && p != t && p in start.disk
    ensures At(ApplyAll(env, start, ws).disk, p) == At(start.disk, p)
    ensures CanRestore(env, ApplyAll(env, start, ws).disk, t, p, hash) == CanRestore(env, start.disk, t, p, hash)
  {
    hide CopyTracks, RecordTracks, Stamped;
    assert p !in NewSidecars(start.disk, ws, t);
  }

  lemma StrayCanRestore(env: Env, disk: Disk, t: string, p: string)
    requires p in SidecarsOf(disk, t) && t != "" && t[0] == '/'
    ensures CanRestore(env, disk, t, p, "") && InZone(p, t) && p != t && p in disk
  {
    SidecarDir(p, t);
  }

  lemma RecordedInZone(disk: Disk, log: seq<Record>, t: string)
    requires Existing(disk, Attested(log, t)) != []
    ensures var r := Existing(disk, Attested(log, t))[0]; r.target in disk && InZone(r.target, t) && r.target != t
  {
    var r := Existing(disk, Attested(log, t))[0];
    ExistingMember(disk, Attested(log, t), r);
    AttestedInLog(log, t, r);
  }

  /** What the planned action would find: whether it can restore, and the bytes. */
  lemma BackupAfter(env: Env, start: Site, ws: seq<FileWrite>, t: string)
    requires ValidRun(start, ws) && DiskTracks(env, start, ws, t) && t != "" && t[0] == '/'
    requires PlannedFor(env, start, ws, t).Restore?
    ensures var a, d := PlannedFor(env, start, ws, t), ApplyAll(env, start, ws).disk;
            var recorded := Existing(start.disk, Attested(start.log, t));
            && CanRestore(env, d, t, a.backup, a.chainHash)
               == (recorded == [] || CanRestore(env, start.disk, t, recorded[0].target, recorded[0].hash))
            && (CanRestore(env, d, t, a.backup, a.chainHash) ==> At(d, a.backup) == FateOf(env, start, ws, t, false).content)
  {
    hide ApplyAll, ValidRun, Stamped, SidecarsOf, FirstSidecar, CanRestore, DiskTracks, Attested, Restored, Existing, Sidecar;
    var recorded := Existing(start.disk, Attested(start.log, t));
    var strays := SidecarsOf(start.disk, t);
    var copy, signed := FirstCopy(start.disk, ws, t, false), FirstCopy(start.disk, ws, t, true);
    CopiesAre(env, start, ws, t);
    if recorded != [] {
      RecordedInZone(start.disk, start.log, t);
      StrayRestores(env, start, ws, t, recorded[0].target, recorded[0].hash);
    } else if signed.Some? {
      CopyRestores(env, start, ws, t, signed.value, HashOf(env, signed.value.content));
    } else if copy.Some? && (strays == {} || StrLess(Sidecar(t, copy.value.stamp), FirstSidecar(strays))) {
      CopyRestores(env, start, ws, t, copy.value, "");
    } else {
      FirstSidecarIsFirst(strays);
      StrayCanRestore(env, start.disk, t, FirstSidecar(strays));
      StrayRestores(env, start, ws, t, FirstSidecar(strays), "");
    }
  }

  lemma CopiesAre(env: Env, start: Site, ws: seq<FileWrite>, t: string)
    requires DiskTracks(env, start, ws, t)
    ensures forall b | FirstCopy(start.disk, ws, t, b).Some? ::
              var c := FirstCopy(start.disk, ws, t, b).value;
              Sidecar(t, c.stamp) in NewSidecars(start.disk, ws, t) && At(ApplyAll(env, start, ws).disk, Sidecar(t, c.stamp)) == Some(c.content)
  {
    hide Stamped, Sidecar;
  }

  lemma RestoreAt(env: Env, w: World, t: string, a: Action, os: Os, p: string)
    requires a.Restore? && w.failed == {}
    ensures var v := Execute(env, w, t, a, os);
            var ok := CanRestore(env, w.disk, t, a.backup, a.chainHash) && t !in os.stuck;
            && (t in v.failed <==> !ok)
            && At(v.disk, p) == if !ok then At(w.disk, p)
                                else if p == t then At(w.disk, a.backup)
                                else if IsSidecarName(p, t) then None else At(w.disk, p)
  {
    assert !IsSidecarName(t, t);
  }

  /** Alone on the final files, a written target meets its fate; a restore that goes through leaves none of its
      backups, and nothing else of its backup namespace changes. */
  lemma UndoAlone(env: Env, start: Site, ws: seq<FileWrite>, os: Os, t: string)
    requires ValidRun(start, ws) && LogTracks(env, start, ws, t) && DiskTracks(env, start, ws, t) && Written(ws, t)
    requires t != "" && t[0] == '/'
    ensures var s := ApplyAll(env, start, ws);
            var a := PlannedFor(env, start, ws, t);
            var w := Execute(env, World(s.disk, s.log, {}), t, PlanFor(env, s.log, s.disk, t), os);
            var fate := FateOf(env, start, ws, t, t in os.stuck);
            && At(w.disk, t) == fate.content && (t in w.failed <==> fate.failed)
            && forall p | p != t :: At(w.disk, p) == if a.Restore? && !fate.failed && IsSidecarName(p, t) then None else At(s.disk, p)
  {
    hide ApplyAll, ValidRun, Stamped, FirstSidecar, CanRestore, Attested, Restored, Existing, Sidecar, CopyTracks, RecordTracks;
    hide WriteTargets, LastWrite, Written, PlanFor;
    PlanAfter(env, start, ws, t);
    TrackedTarget(env, start, ws, t);
    var s := ApplyAll(env, start, ws);
    if PlannedFor(env, start, ws, t).Restore? {
      BackupAfter(env, start, ws, t);
      hide Execute, IsSidecarName;
      forall p {
        RestoreAt(env, World(s.disk, s.log, {}), t, PlannedFor(env, start, ws, t), os, p);
      }
      RestoreAt(env, World(s.disk, s.log, {}), t, PlannedFor(env, start, ws, t), os, t);
    } else if PlannedFor(env, start, ws, t).Delete? {
      assert FateOf(env, start, ws, t, t in os.stuck) == if t in os.stuck then Fate(Current(start.disk, ws, t), true) else Fate(None, false);
      assert t in ApplyAll(env, start, ws).disk;
    } else {
      assert PlannedFor(env, start, ws, t).Skip?;
      assert FateOf(env, start, ws, t, t in os.stuck) == Fate(Current(start.disk, ws, t), false);
    }
  }

  lemma RunTargetsApart(env: Env, start: Site, ws: seq<FileWrite>)
    requires ValidRun(start, ws)
    ensures TargetsApart(ApplyAll(env, start, ws).log)
  {
    hide ApplyAll, WriteTargets, NestedIn, NewStamp;
    var log := ApplyAll(env, start, ws).log;
    forall t, u | t in WriteTargets(log) && u in WriteTargets(log) && t != u ensures !NestedIn(t, u) {
      RunTargets(env, start, ws, t);
      RunTargets(env, start, ws, u);
      if i :| 0 <= i < |ws| && ws[i].target == t {
        if j :| 0 <= j < |ws| && ws[j].target == u {
          assert SameOrApart(ws[i].target, ws[j].target);
        } else {
          assert SameOrApart(ws[i].target, u);
        }
      } else if j :| 0 <= j < |ws| && ws[j].target == u {
        assert SameOrApart(ws[j].target, t);
      }
    }
  }

  lemma TargetFits(start: Site, ws: seq<FileWrite>, t: string)
    requires ValidRun(start, ws) && (Written(ws, t) || t in WriteTargets(start.log))
    ensures Fits(ws, t)
    ensures Written(ws, t) ==> t != "" && t[0] == '/'
  {
    hide SameOrApart, NewStamp, WriteTargets, TargetsApart;
    if k :| 0 <= k < |ws| && ws[k].target == t {
      assert WriteOk(ws[k]);
      forall i | 0 <= i < |ws| ensures SameOrApart(ws[i].target, t) {
        assert SameOrApart(ws[i].target, ws[k].target);
      }
    }
  }

  /** The round trip: after any run of writes, from any files and any log, an uninstall takes every target the
      run wrote, and that is not excluded, to its fate; if that is a restore its backups are gone, and nothing
      else of its backup namespace changes. */
  lemma WriteThenReverse(env: Env, start: Site, ws: seq<FileWrite>, exclude: set<string>, os: Os, t: string)
    requires ValidRun(start, ws) && Written(ws, t) && t !in exclude
    ensures var s := ApplyAll(env, start, ws);
            var w := Reversed(env, s.log, s.disk, exclude, os);
            var fate := FateOf(env, start, ws, t, t in os.stuck);
            var restored := PlannedFor(env, start, ws, t).Restore? && !fate.failed;
            && At(w.disk, t) == fate.content && (t in w.failed <==> fate.failed)
            && forall p | InZone(p, t) && p != t :: At(w.disk, p) == if restored && IsSidecarName(p, t) then None else At(s.disk, p)
  {
    hide ApplyAll, WriteTargets, Reversed, PlanFor, Execute, TargetsApart, ValidRun, LogTracks, DiskTracks, FateOf, PlannedFor, Written;
    hide IsSidecarName, InZone, Fits;
    var s := ApplyAll(env, start, ws);
    TargetFits(start, ws, t);
    RunTracks(env, start, ws, t);
    RunIsOk(start, ws);
    RunTargets(env, start, ws, t);
    RunTargetsApart(env, start, ws);
    ReversedAt(env, s.log, s.disk, exclude, os, t);
    UndoAlone(env, start, ws, os, t);
    SelfInZone(t);
  }

  lemma RunIsOk(start: Site, ws: seq<FileWrite>)
    requires ValidRun(start, ws)
    ensures forall i | 0 <= i < |ws| :: WriteOk(ws[i])
  {
  }

  /** A target of an earlier install that the run did not write is reversed as if there had been no run. */
  lemma EarlierTargetsAsBefore(env: Env, start: Site, ws: seq<FileWrite>, exclude: set<string>, os: Os, u: string)
    requires ValidRun(start, ws) && u in WriteTargets(start.log) && !Written(ws, u) && u !in exclude
    ensures var s := ApplyAll(env, start, ws);
            && AgreeInZone(Reversed(env, s.log, s.disk, exclude, os).disk, Reversed(env, start.log, start.disk, exclude, os).disk, u)
            && (u in Reversed(env, s.log, s.disk, exclude, os).failed <==> u in Reversed(env, start.log, start.disk, exclude, os).failed)
  {
    hide ApplyAll, WriteTargets, Reversed, Execute, TargetsApart, NestedIn, NewStamp, StrLess, PlanFor;
    var s := ApplyAll(env, start, ws);
    TargetFits(start, ws, u);
    RunTracks(env, start, ws, u);
    RunTargets(env, start, ws, u);
    RunTargetsApart(env, start, ws);
    UnwrittenZone(env, start, ws, u);
    UnwrittenPlan(env, start, ws, u);
    ReversedAt(env, s.log, s.disk, exclude, os, u);
    ReversedAt(env, start.log, start.disk, exclude, os, u);
    PlanInZone(env, start.log, start.disk, u);
    ExecuteLocal(env, World(s.disk, s.log, {}), World(start.disk, start.log, {}), u, PlanFor(env, start.log, start.disk, u), os);
  }

  lemma {:induction false} NothingNew(env: Env, disk: Disk, ws: seq<FileWrite>, u: string)
    requires forall i | 0 <= i < |ws| :: ws[i].target != u
    ensures NewSidecars(disk, ws, u) == {} && NewRecords(env, disk, ws, u) == [] && Current(disk, ws, u) == At(disk, u)
  {
    if ws != [] {
      NothingNew(env, disk, ws[..|ws| - 1], u);
    }
  }

  lemma UnwrittenZone(env: Env, start: Site, ws: seq<FileWrite>, u: string)
    requires DiskTracks(env, start, ws, u) && !Written(ws, u)
    ensures AgreeInZone(ApplyAll(env, start, ws).disk, start.disk, u)
  {
    hide CopyTracks, RecordTracks, Stamped, ApplyAll;
    NothingNew(env, start.disk, ws, u);
  }

  lemma UnwrittenPlan(env: Env, start: Site, ws: seq<FileWrite>, u: string)
    requires LogTracks(env, start, ws, u) && !Written(ws, u) && AgreeInZone(ApplyAll(env, start, ws).disk, start.disk, u)
    ensures var s := ApplyAll(env, start, ws); PlanFor(env, s.log, s.disk, u) == PlanFor(env, start.log, start.disk, u)
  {
    hide ApplyAll, Attested, WriteTargets, Restored, LastWrite, AgreeInZone, PlanTarget;
    var s := ApplyAll(env, start, ws);
    NothingNew(env, start.disk, ws, u);
    assert Attested(start.log, u) + [] == Attested(start.log, u);
    forall r | r in Attested(start.log, u) ensures u + BAK <= r.target {
      AttestedInLog(start.log, u, r);
    }
    PlanLocal(env, s.disk, start.disk, u, Attested(start.log, u), Restored(start.log, u), LastWrite(start.log, u));
  }

  /** Everything else is left as the run left it, and outside the run's own targets and their backups that is
      as it was. */
  lemma ElsewhereUntouched(env: Env, start: Site, ws: seq<FileWrite>, exclude: set<string>, os: Os, p: string)
    requires ValidRun(start, ws)
    requires forall t | (Written(ws, t) || t in WriteTargets(start.log)) && t !in exclude :: !InZone(p, t)
    ensures var s := ApplyAll(env, start, ws);
            && At(Reversed(env, s.log, s.disk, exclude, os).disk, p) == At(s.disk, p)
            && ((forall i | 0 <= i < |ws| :: !InZone(p, ws[i].target)) ==> At(s.disk, p) == At(start.disk, p))
  {
    hide ApplyAll, WriteTargets, Reversed, InZone, TargetsApart, NewStamp, WriteOk, Written;
    var s := ApplyAll(env, start, ws);
    RunIsOk(start, ws);
    forall t | t in WriteTargets(s.log) && t !in exclude ensures !InZone(p, t) {
      RunTargets(env, start, ws, t);
    }
    ReversedElsewhere(env, s.log, s.disk, exclude, os, p);
    if forall i | 0 <= i < |ws| :: !InZone(p, ws[i].target) {
      RunElsewhere(env, start, ws, p);
    }
  }

  // ---------- what was displaced ----------

  function WriteCount(ws: seq<FileWrite>, t: string): nat {
    if ws == [] then 0 else WriteCount(ws[..|ws| - 1], t) + if ws[|ws| - 1].target == t then 1 else 0
  }

  function FirstContent(ws: seq<FileWrite>, t: string): string {
    if ws == [] then ""
    else if ws[0].target == t then ws[0].content
    else FirstContent(ws[1..], t)
  }

  lemma {:induction false} FirstContentStep(ws: seq<FileWrite>, w: FileWrite, t: string)
    ensures FirstContent(ws + [w], t) == if Written(ws, t) || w.target != t then FirstContent(ws, t) else w.content
  {
    if ws == [] {
      assert (ws + [w])[1..] == [];
    } else {
      FirstContentStep(ws[1..], w, t);
      assert (ws + [w])[1..] == ws[1..] + [w];
      assert Written(ws, t) <==> ws[0].target == t || Written(ws[1..], t) by {
        if i :| 1 <= i < |ws| && ws[i].target == t {
          assert ws[1..][i - 1].target == t;
        }
        if i :| 0 <= i < |ws[1..]| && ws[1..][i].target == t {
          assert ws[i + 1].target == t;
        }
      }
    }
  }

  /** What the first overwrite of a written target displaced: its original bytes if it pre-existed; nothing if
      the run created it with a single write; and its own first version if the run created it and wrote it
      again. */
  lemma {:induction false} DisplacedMeaning(disk: Disk, ws: seq<FileWrite>, t: string)
    ensures Displaced(disk, ws, t)
         == if WriteCount(ws, t) == 0 then None
            else if t in disk then Some(disk[t])
            else if WriteCount(ws, t) == 1 then None
            else Some(FirstContent(ws, t))
    ensures WriteCount(ws, t) == 0 ==> Current(disk, ws, t) == At(disk, t)
    ensures WriteCount(ws, t) == 1 ==> Current(disk, ws, t) == Some(FirstContent(ws, t))
    ensures WriteCount(ws, t) > 0 <==> Written(ws, t)
    ensures WriteCount(ws, t) > 0 ==> Current(disk, ws, t).Some?
  {
    if ws != [] {
      var k := |ws| - 1;
      DisplacedMeaning(disk, ws[..k], t);
      FirstContentStep(ws[..k], ws[k], t);
      WrittenStep(ws[..k], ws[k], t);
      assert ws == ws[..k] + [ws[k]];
    }
  }

  // ---------- when a target comes back ----------

  /** No file lives in the backup namespace of `t`. */
  predicate NoStrays(disk: Disk, t: string) {
    forall p | p in disk :: !(t + BAK <= p)
  }

  predicate OneWriter(ws: seq<FileWrite>, t: string, signed: bool) {
    forall i | 0 <= i < |ws| && ws[i].target == t :: ws[i].signed == signed
  }

  lemma {:induction false} OneWriterCopies(disk: Disk, ws: seq<FileWrite>, t: string, signed: bool)
    requires OneWriter(ws, t, signed)
    ensures FirstCopy(disk, ws, t, true) == if signed then FirstCopy(disk, ws, t, false) else None
  {
    if ws != [] {
      OneWriterCopies(disk, ws[..|ws| - 1], t, signed);
    }
  }

  lemma NothingRecorded(disk: Disk, log: seq<Record>, t: string)
    requires NoStrays(disk, t)
    ensures Existing(disk, Attested(log, t)) == [] && SidecarsOf(disk, t) == {}
  {
    if Existing(disk, Attested(log, t)) != [] {
      RecordedInZone(disk, log, t);
    }
  }

  /** Without stray backups, a target that can be changed goes back to what its first overwrite displaced if and
      only if the first signed overwrite displaced the same, or there was no signed overwrite and the log had
      not closed the book on it when the run began, or it holds those bytes anyway. */
  lemma ComesBackIff(env: Env, start: Site, ws: seq<FileWrite>, exclude: set<string>, os: Os, t: string)
    requires ValidRun(start, ws) && Written(ws, t) && t !in exclude && t !in os.stuck && NoStrays(start.disk, t)
    ensures var s := ApplyAll(env, start, ws);
            At(Reversed(env, s.log, s.disk, exclude, os).disk, t) == Displaced(start.disk, ws, t)
            <==> match Recorded(start.disk, ws, t)
                 case Some(c) => Displaced(start.disk, ws, t) == Some(c)
                 case None => !Settled(start.log, t) || Displaced(start.disk, ws, t) == Current(start.disk, ws, t)
  {
    hide ApplyAll, ValidRun, Reversed, Attested, Existing, Current, FirstCopy, Written, Restored;
    WriteThenReverse(env, start, ws, exclude, os, t);
    NothingRecorded(start.disk, start.log, t);
  }

  /** With one kind of writer for the target: a signed target that was there when the run began always comes
      back; a plain one, or one the run created with a single write, does if and only if the log had not closed
      the book on it, or the bytes are the same. */
  lemma OneWriterComesBackIff(env: Env, start: Site, ws: seq<FileWrite>, signed: bool, exclude: set<string>, os: Os, t: string)
    requires ValidRun(start, ws) && Written(ws, t) && t !in exclude && t !in os.stuck && NoStrays(start.disk, t)
    requires OneWriter(ws, t, signed)
    ensures var s := ApplyAll(env, start, ws);
            At(Reversed(env, s.log, s.disk, exclude, os).disk, t) == Displaced(start.disk, ws, t)
            <==> (signed && Displaced(start.disk, ws, t).Some?) || !Settled(start.log, t)
                 || Displaced(start.disk, ws, t) == Current(start.disk, ws, t)
  {
    hide ApplyAll, ValidRun, Reversed, Attested, Current, FirstCopy, Written, Restored;
    ComesBackIff(env, start, ws, exclude, os, t);
    OneWriterCopies(start.disk, ws, t, signed);
  }

  /** What brings a target back to where the run found it. */
  predicate Returns(start: Site, ws: seq<FileWrite>, t: string) {
    && NoStrays(start.disk, t)
    && if t in start.disk then OneWriter(ws, t, true) || (OneWriter(ws, t, false) && !Settled(start.log, t))
       else WriteCount(ws, t) == 1 && !Settled(start.log, t)
  }

  lemma OnlyWriteIsOneWriter(ws: seq<FileWrite>, t: string)
    requires WriteCount(ws, t) == 1
    ensures exists signed :: OneWriter(ws, t, signed)
  {
    var k := |ws| - 1;
    if ws[k].target == t {
      NotWrittenBefore(ws[..k], t);
      assert OneWriter(ws, t, ws[k].signed);
    } else {
      OnlyWriteIsOneWriter(ws[..k], t);
      var signed :| OneWriter(ws[..k], t, signed);
      forall i | 0 <= i < |ws| && ws[i].target == t ensures ws[i].signed == signed {
        assert ws[i] == ws[..k][i];
      }
      assert OneWriter(ws, t, signed);
    }
  }

  lemma {:induction false} NotWrittenBefore(ws: seq<FileWrite>, t: string)
    requires WriteCount(ws, t) == 0
    ensures forall i | 0 <= i < |ws| :: ws[i].target != t
  {
    if ws != [] {
      NotWrittenBefore(ws[..|ws| - 1], t);
    }
  }

  /** Such a target, with its backup namespace, is as the run found it. */
  lemma TargetReturns(env: Env, start: Site, ws: seq<FileWrite>, exclude: set<string>, os: Os, t: string, p: string)
    requires ValidRun(start, ws) && Written(ws, t) && t !in exclude && t !in os.stuck && Returns(start, ws, t) && InZone(p, t)
    ensures var s := ApplyAll(env, start, ws);
            At(Reversed(env, s.log, s.disk, exclude, os).disk, p) == At(start.disk, p)
  {
    hide ApplyAll, ValidRun, Reversed, Attested, Existing, Current, FirstCopy, Written, Restored, WriteCount, Execute, Stamped;
    hide RecordTracks, LogTracks, FirstContent, SidecarsOf, Sidecar, IsSidecarName;
    DisplacedMeaning(start.disk, ws, t);
    NothingRecorded(start.disk, start.log, t);
    WriteThenReverse(env, start, ws, exclude, os, t);
    var signed :| OneWriter(ws, t, signed) && (t in start.disk ==> signed || !Settled(start.log, t)) by {
      if t !in start.disk {
        OnlyWriteIsOneWriter(ws, t);
      }
    }
    OneWriterCopies(start.disk, ws, t, signed);
    if p != t {
      TargetFits(start, ws, t);
      RunTracks(env, start, ws, t);
      if p in NewSidecars(start.disk, ws, t) {
        NewIsNamed(start, ws, t, p);
      }
    }
  }

  lemma NewIsNamed(start: Site, ws: seq<FileWrite>, t: string, p: string)
    requires ValidRun(start, ws) && Stamped(start.disk, ws, t) && p in NewSidecars(start.disk, ws, t)
    ensures IsSidecarName(p, t)
  {
    hide Sidecar, WriteTargets, TargetsApart, NewSidecars, IsSidecarName;
    var i :| 0 <= i < |ws| && ws[i].target == t && p == Sidecar(t, ws[i].stamp);
    assert WriteOk(ws[i]);
    SidecarIsNamed(t, ws[i].stamp);
  }

  // ---------- the whole disk, once and again ----------

  /** Every written target can be changed, is not excluded, and returns. */
  predicate AllReturn(start: Site, ws: seq<FileWrite>, exclude: set<string>, os: Os) {
    forall i | 0 <= i < |ws| :: ws[i].target !in exclude && ws[i].target !in os.stuck && Returns(start, ws, ws[i].target)
  }

  lemma WrittenReturns(start: Site, ws: seq<FileWrite>, exclude: set<string>, os: Os, t: string)
    requires AllReturn(start, ws, exclude, os) && Written(ws, t)
    ensures t !in exclude && t !in os.stuck && Returns(start, ws, t)
  {
  }

  lemma IdleReversal(env: Env, site: Site, exclude: set<string>, os: Os)
    requires Idle(PlanReverse(env, site.log, site.disk, exclude))
    ensures Reversed(env, site.log, site.disk, exclude, os) == World(site.disk, site.log, {})
  {
    hide PlanReverse;
    IdleChangesNothing(env, World(site.disk, site.log, {}), PlanReverse(env, site.log, site.disk, exclude), os);
  }

  lemma PathReturns(env: Env, start: Site, ws: seq<FileWrite>, exclude: set<string>, os: Os, p: string)
    requires ValidRun(start, ws) && AllReturn(start, ws, exclude, os)
    requires Idle(PlanReverse(env, start.log, start.disk, exclude))
    ensures var s := ApplyAll(env, start, ws);
            At(Reversed(env, s.log, s.disk, exclude, os).disk, p) == At(start.disk, p)
  {
    hide ApplyAll, ValidRun, Reversed, PlanReverse, Idle, Returns, WriteTargets, InZone;
    if i :| 0 <= i < |ws| && InZone(p, ws[i].target) {
      assert Written(ws, ws[i].target);
      TargetReturns(env, start, ws, exclude, os, ws[i].target, p);
    } else if u :| u in WriteTargets(start.log) && u !in exclude && InZone(p, u) {
      EarlierTargetsAsBefore(env, start, ws, exclude, os, u);
      IdleReversal(env, start, exclude, os);
    } else {
      ElsewhereUntouched(env, start, ws, exclude, os, p);
    }
  }

  /** From any files and any log with nothing left to reverse, an uninstall after the run gives back the very
      disk the run started from, when every written target returns. */
  lemma UninstallRestoresDisk(env: Env, start: Site, ws: seq<FileWrite>, exclude: set<string>, os: Os)
    requires ValidRun(start, ws) && AllReturn(start, ws, exclude, os)
    requires Idle(PlanReverse(env, start.log, start.disk, exclude))
    ensures var s := ApplyAll(env, start, ws); Reversed(env, s.log, s.disk, exclude, os).disk == start.disk
  {
    hide ApplyAll, Reversed, ValidRun, AllReturn, PlanReverse, Idle;
    var s := ApplyAll(env, start, ws);
    var after := Reversed(env, s.log, s.disk, exclude, os).disk;
    forall p ensures At(after, p) == At(start.disk, p) {
      PathReturns(env, start, ws, exclude, os, p);
    }
    forall p ensures p in after <==> p in start.disk {
      assert At(after, p) == At(start.disk, p);
    }
    forall p | p in start.disk ensures after[p] == start.disk[p] {
      assert At(after, p) == At(start.disk, p);
    }
  }

  /** Install, then uninstall. */
  ghost function Cycle(env: Env, start: Site, ws: seq<FileWrite>, exclude: set<string>, os: Os): Site {
    var s := ApplyAll(env, start, ws);
    var w := Reversed(env, s.log, s.disk, exclude, os);
    Site(w.disk, w.log)
  }

  ghost predicate AllNamed(log: seq<Record>) {
    forall t :: BackupsNamed(log, t)
  }

  lemma {:induction false} AttestedAfter(env: Env, start: Site, ws: seq<FileWrite>, t: string)
    requires forall i | 0 <= i < |ws| :: WriteOk(ws[i])
    ensures forall r | r in Attested(ApplyAll(env, start, ws).log, t) :: r in Attested(start.log, t) || IsSidecarName(r.target, t)
  {
    hide Attested, ApplyWrite, Sidecar, IsSidecarName, WriteOk;
    if ws != [] {
      var k := |ws| - 1;
      AttestedAfter(env, start, ws[..k], t);
      assert WriteOk(ws[k]);
      OkStamp(ws[k]);
      SidecarIsNamed(ws[k].target, ws[k].stamp);
      WriteLog(env, ApplyAll(env, start, ws[..k]), ws[k], t);
    }
  }

  lemma NothingFails(env: Env, start: Site, ws: seq<FileWrite>, exclude: set<string>, os: Os)
    requires ValidRun(start, ws) && AllReturn(start, ws, exclude, os)
    requires Idle(PlanReverse(env, start.log, start.disk, exclude))
    ensures var s := ApplyAll(env, start, ws); Reversed(env, s.log, s.disk, exclude, os).failed == {}
  {
    hide ApplyAll, Reversed, ValidRun, AllReturn, PlanReverse, Idle, Returns, WriteTargets, Written, Attested, Restored, Existing, FirstCopy;
    var s := ApplyAll(env, start, ws);
    forall u ensures u !in Reversed(env, s.log, s.disk, exclude, os).failed {
      RunIsOk(start, ws);
      RunTargets(env, start, ws, u);
      if u in exclude || u !in WriteTargets(s.log) {
        UnplannedNeverFails(env, s, exclude, os, u);
      } else if Written(ws, u) {
        WrittenReturns(start, ws, exclude, os, u);
        ReturnsClean(start, ws, u);
        NothingRecorded(start.disk, start.log, u);
        WriteThenReverse(env, start, ws, exclude, os, u);
      } else {
        EarlierTargetsAsBefore(env, start, ws, exclude, os, u);
        IdleReversal(env, start, exclude, os);
      }
    }
  }

  lemma ReturnsClean(start: Site, ws: seq<FileWrite>, t: string)
    requires Returns(start, ws, t)
    ensures NoStrays(start.disk, t)
  {
  }

  lemma UnplannedNeverFails(env: Env, s: Site, exclude: set<string>, os: Os, u: string)
    requires u in exclude || u !in WriteTargets(s.log)
    ensures u !in Reversed(env, s.log, s.disk, exclude, os).failed
  {
    hide WriteTargets, ExecuteAll, PlanFor;
    var kept := Excluding(WriteTargets(s.log), exclude);
    forall i | 0 <= i < |kept| ensures kept[i] != u {
      assert kept[i] in kept;
    }
    FailedOnlyPlanned(env, World(s.disk, s.log, {}), PlanReverse(env, s.log, s.disk, exclude), os, u);
  }

  /** Signed writes to files that were there. */
  predicate SignedOnly(disk: Disk, ws: seq<FileWrite>) {
    forall i | 0 <= i < |ws| :: ws[i].signed && ws[i].target in disk && NoStrays(disk, ws[i].target)
  }

  predicate Changeable(ws: seq<FileWrite>, exclude: set<string>, os: Os) {
    forall i | 0 <= i < |ws| :: ws[i].target !in exclude && ws[i].target !in os.stuck
  }

  /** A signed install and uninstall leaves the disk as it was and nothing to reverse. */
  lemma SignedCycleReturns(env: Env, start: Site, ws: seq<FileWrite>, exclude: set<string>, os: Os)
    requires ValidRun(start, ws) && SignedOnly(start.disk, ws) && Changeable(ws, exclude, os)
    requires Idle(PlanReverse(env, start.log, start.disk, exclude)) && AllNamed(start.log)
    ensures var after := Cycle(env, start, ws, exclude, os);
            after.disk == start.disk && Idle(PlanReverse(env, after.log, after.disk, exclude)) && AllNamed(after.log)
  {
    hide ApplyAll, Reversed, ValidRun, PlanReverse, Idle, TargetsApart, NoStrays, LeavesNoTrace, AllReturn, WriteTargets;
    hide PlanFor, BackupDiffers, Attested;
    var s := ApplyAll(env, start, ws);
    SignedReturn(start, ws, exclude, os);
    RunIsOk(start, ws);
    UninstallRestoresDisk(env, start, ws, exclude, os);
    NothingFails(env, start, ws, exclude, os);
    RunTargetsApart(env, start, ws);
    forall t ensures BackupsNamed(s.log, t) {
      assert BackupsNamed(start.log, t);
      AttestedAfter(env, start, ws, t);
    }
    forall t | t in WriteTargets(s.log) && t !in exclude ensures !LeavesNoTrace(s.log, t, PlanFor(env, s.log, s.disk, t), os) {
      SignedLeavesTrace(env, start, ws, exclude, os, t);
    }
    SecondPlanIdle(env, s.log, s.disk, exclude, os);
    ReversedWrites(env, s.log, s.disk, exclude, os);
    forall t ensures BackupsNamed(Reversed(env, s.log, s.disk, exclude, os).log, t) {
      assert BackupsNamed(s.log, t);
    }
  }

  lemma SignedReturn(start: Site, ws: seq<FileWrite>, exclude: set<string>, os: Os)
    requires SignedOnly(start.disk, ws) && Changeable(ws, exclude, os)
    ensures AllReturn(start, ws, exclude, os)
  {
    hide NoStrays;
    assert forall i | 0 <= i < |ws| :: OneWriter(ws, ws[i].target, true);
  }

  lemma SignedLeavesTrace(env: Env, start: Site, ws: seq<FileWrite>, exclude: set<string>, os: Os, t: string)
    requires ValidRun(start, ws) && SignedOnly(start.disk, ws)
    requires Idle(PlanReverse(env, start.log, start.disk, exclude))
    requires t in WriteTargets(ApplyAll(env, start, ws).log) && t !in exclude
    ensures var s := ApplyAll(env, start, ws); !LeavesNoTrace(s.log, t, PlanFor(env, s.log, s.disk, t), os)
  {
    hide ApplyAll, ValidRun, PlanReverse, WriteTargets, PlanFor, Attested, NoStrays, DiskTracks, LastWrite, Restored;
    var s := ApplyAll(env, start, ws);
    RunIsOk(start, ws);
    RunTargets(env, start, ws, t);
    TargetFits(start, ws, t);
    RunTracks(env, start, ws, t);
    if Written(ws, t) {
      SignedIsRecorded(env, start.disk, ws, t);
    } else {
      UnwrittenZone(env, start, ws, t);
      UnwrittenPlan(env, start, ws, t);
      var i := PlannedAt(env, start.log, start.disk, exclude, t);
      assert PlanReverse(env, start.log, start.disk, exclude)[i].1 == PlanFor(env, start.log, start.disk, t);
    }
  }

  lemma {:induction false} SignedIsRecorded(env: Env, disk: Disk, ws: seq<FileWrite>, t: string)
    requires Written(ws, t) && SignedOnly(disk, ws)
    ensures NewRecords(env, disk, ws, t) != []
  {
    hide NoStrays;
    var k := |ws| - 1;
    if Written(ws[..k], t) {
      SignedIsRecorded(env, disk, ws[..k], t);
    } else {
      assert ws == ws[..k] + [ws[k]];
      WrittenStep(ws[..k], ws[k], t);
      NothingNew(env, disk, ws[..k], t);
    }
  }

  /** One install and uninstall after another, each a run from where the last one ended. */
  ghost predicate SignedCycles(env: Env, start: Site, runs: seq<(seq<FileWrite>, Os)>, exclude: set<string>)
    decreases |runs|
  {
    if runs == [] then true
    else
      var (ws, os) := runs[0];
      && ValidRun(start, ws) && SignedOnly(start.disk, ws) && Changeable(ws, exclude, os)
      && SignedCycles(env, Cycle(env, start, ws, exclude, os), runs[1..], exclude)
  }

  ghost function AfterCycles(env: Env, start: Site, runs: seq<(seq<FileWrite>, Os)>, exclude: set<string>): Site
    decreases |runs|
  {
    if runs == [] then start
    else AfterCycles(env, Cycle(env, start, runs[0].0, exclude, runs[0].1), runs[1..], exclude)
  }

  /** Any number of signed installs and uninstalls leaves the disk as it was in the beginning, whatever the log
      accepted of the reversals' own records. */
  lemma {:induction false} SignedCyclesReturn(env: Env, start: Site, runs: seq<(seq<FileWrite>, Os)>, exclude: set<string>)
    requires SignedCycles(env, start, runs, exclude)
    requires Idle(PlanReverse(env, start.log, start.disk, exclude)) && AllNamed(start.log)
    ensures AfterCycles(env, start, runs, exclude).disk == start.disk
    decreases |runs|
  {
    hide ValidRun, PlanReverse, Idle, SignedOnly, Changeable, Cycle, AllNamed;
    if runs != [] {
      var (ws, os) := runs[0];
      SignedCycleReturns(env, start, ws, exclude, os);
      SignedCyclesReturn(env, Cycle(env, start, ws, exclude, os), runs[1..], exclude);
    }
  }

  // ---------- where it fails ----------

  /** One write to one file, on a log that holds nothing else. */
  lemma OneWriteRun(start: Site, w: FileWrite)
    requires WriteOk(w) && NewStamp(start, w) && (forall u | u in WriteTargets(start.log) :: u == w.target)
    ensures ValidRun(start, [w]) && Written([w], w.target)
    ensures Current(start.disk, [w], w.target) == Some(w.content)
    ensures Displaced(start.disk, [w], w.target) == At(start.disk, w.target)
    ensures FirstCopy(start.disk, [w], w.target, false)
         == if w.target in start.disk then Some(Copy(w.stamp, start.disk[w.target])) else None
  {
    hide Sidecar, WriteTargets, NestedIn, NewStamp;
    assert [w][..0] == [] && [w][0] == w;
    assert FirstCopy(start.disk, [], w.target, false) == None;
    assert Current(start.disk, [], w.target) == At(start.disk, w.target);
  }

  /** The files and the log after a first plain write to an existing file. */
  lemma FirstPlainInstall(env: Env, w: FileWrite, orig: string)
    requires WriteOk(w) && !w.signed
    ensures var start := Site(map[w.target := orig], []);
            var s := ApplyAll(env, start, [w]);
            && ValidRun(start, [w])
            && s.log == [Record("write", w.target, HashOf(env, w.content), false)] && WriteTargets(s.log) == [w.target]
            && Attested(s.log, w.target) == [] && LastWrite(s.log, w.target) == HashOf(env, w.content)
            && PlanFor(env, s.log, s.disk, w.target) == Restore(Sidecar(w.target, w.stamp), "")
            && At(s.disk, Sidecar(w.target, w.stamp)) == Some(orig)
            && Idle(PlanReverse(env, start.log, start.disk, {}))
  {
    hide Sidecar, PlanFor;
    var t := w.target;
    var start := Site(map[t := orig], []);
    OkStamp(w);
    SidecarIsNamed(t, w.stamp);
    OneWriteRun(start, w);
    assert [w][..0] == [] && ApplyAll(env, start, [w]) == ApplyWrite(env, start, w);
    WriteDisk(env, start, w, Sidecar(t, w.stamp));
    assert ApplyWrite(env, start, w).log[..0] == [];
    TargetFits(start, [w], t);
    RunTracks(env, start, [w], t);
    NoStraysAlone(t, orig);
    NothingRecorded(start.disk, [], t);
    OneWriterCopies(start.disk, [w], t, false);
    PlanAfter(env, start, [w], t);
  }

  lemma NoStraysAlone(t: string, orig: string)
    ensures NoStrays(map[t := orig], t)
  {
  }

  /** The first uninstall of a plain write: the file is back, and the log says it was restored when it accepts
      that record. */
  lemma FirstPlainCycle(env: Env, w: FileWrite, orig: string, os: Os)
    requires WriteOk(w) && !w.signed && w.target !in os.stuck
    ensures var start := Site(map[w.target := orig], []);
            var after := Cycle(env, start, [w], {}, os);
            && after.disk == start.disk
            && after.log == [Record("write", w.target, HashOf(env, w.content), false)]
               + if w.target in os.logged then [Record("restore", w.target, HashOf(env, orig), false)] else []
  {
    hide Sidecar, PlanFor, ApplyAll, ValidRun, Idle, PlanReverse, WriteTargets, CanRestore;
    var t := w.target;
    var start := Site(map[t := orig], []);
    FirstPlainInstall(env, w, orig);
    var s := ApplyAll(env, start, [w]);
    NoStraysAlone(t, orig);
    assert AllReturn(start, [w], {}, os) by {
      assert [w][0] == w && !Settled([], t) && OneWriter([w], t, false);
    }
    UninstallRestoresDisk(env, start, [w], {}, os);
    OnePlan(env, s, t);
    var plan := PlanReverse(env, s.log, s.disk, {});
    assert plan[..0] == [];
    assert ExecuteAll(env, World(s.disk, s.log, {}), plan, os) == Execute(env, World(s.disk, s.log, {}), t, plan[0].1, os);
  }

  lemma OnePlan(env: Env, s: Site, t: string)
    requires WriteTargets(s.log) == [t]
    ensures PlanReverse(env, s.log, s.disk, {}) == [(t, PlanFor(env, s.log, s.disk, t))]
  {
    hide PlanFor, WriteTargets;
    assert [t][..0] == [];
    assert Excluding([t], {}) == [t];
  }

  /** A plain reinstall is never undone: after an uninstall whose restore record reached the log, the same file
      written again keeps what abysslink wrote through every later uninstall. */
  lemma PlainReinstallStays(env: Env, w: FileWrite, again: FileWrite, orig: string, os: Os)
    requires WriteOk(w) && WriteOk(again) && !w.signed && !again.signed && again.target == w.target
    requires w.target in os.logged && w.target !in os.stuck && again.content != orig
    ensures var start := Cycle(env, Site(map[w.target := orig], []), [w], {}, os);
            && start.disk == map[w.target := orig] && ValidRun(start, [again])
            && At(Cycle(env, start, [again], {}, os).disk, w.target) == Some(again.content)
            && Displaced(start.disk, [again], w.target) == Some(orig)
  {
    hide Sidecar, ApplyAll, PlanFor, Cycle, CanRestore;
    var t := w.target;
    FirstPlainCycle(env, w, orig, os);
    var start := Cycle(env, Site(map[t := orig], []), [w], {}, os);
    OkStamp(again);
    SidecarIsNamed(t, again.stamp);
    OnlyTarget(start.log, t);
    OneWriteRun(start, again);
    NoStraysAlone(t, orig);
    assert Restores(start.log[1], t);
    WriteThenReverseAll(env, start, [again], os, t);
    NothingRecorded(start.disk, start.log, t);
    OneWriterCopies(start.disk, [again], t, false);
  }

  lemma {:induction false} OnlyTarget(log: seq<Record>, t: string)
    requires forall r | r in log :: r.target == t
    ensures forall u | u in WriteTargets(log) :: u == t
  {
    if log != [] {
      var k := |log| - 1;
      OnlyTarget(log[..k], t);
      assert log[k] in log;
    }
  }

  lemma WriteThenReverseAll(env: Env, start: Site, ws: seq<FileWrite>, os: Os, t: string)
    requires ValidRun(start, ws) && Written(ws, t)
    ensures At(Cycle(env, start, ws, {}, os).disk, t) == FateOf(env, start, ws, t, t in os.stuck).content
  {
    hide ValidRun, ApplyAll, Reversed, FateOf, PlannedFor;
    WriteThenReverse(env, start, ws, {}, os, t);
  }

  /** A second uninstall can delete a file that was there all along: a plain write of the bytes already in it,
      an uninstall whose record the log refuses, and another uninstall. */
  lemma SecondUninstallDeletes(env: Env, w: FileWrite, os: Os)
    requires WriteOk(w) && !w.signed && w.target !in os.logged && w.target !in os.stuck
    ensures var start := Site(map[w.target := w.content], []);
            var once := Cycle(env, start, [w], {}, os);
            && once.disk == start.disk
            && PlanFor(env, once.log, once.disk, w.target) == Delete
            && At(Reversed(env, once.log, once.disk, {}, os).disk, w.target) == None
  {
    hide Sidecar, Cycle, CanRestore, ApplyAll;
    var t := w.target;
    var start := Site(map[t := w.content], []);
    FirstPlainInstall(env, w, w.content);
    FirstPlainCycle(env, w, w.content, os);
    var once := Cycle(env, start, [w], {}, os);
    NoStraysAlone(t, w.content);
    NothingRecorded(once.disk, once.log, t);
    assert !Restored(once.log, t);
    OnePlan(env, once, t);
    var plan := PlanReverse(env, once.log, once.disk, {});
    assert plan[..0] == [];
    assert ExecuteAll(env, World(once.disk, once.log, {}), plan, os) == Execute(env, World(once.disk, once.log, {}), t, Delete, os);
  }
}
