/** One audited file write: the file, its backup, and the log entries that record it. */
module FileWrites {
  import opened Text
  import opened Chain
  import opened Sidecars
  import opened ReversePlan
  import opened Writers

  /** `signed` tells the signing writer from the plain one, `stamp` is the clock's text. */
  datatype FileWrite = FileWrite(target: string, content: string, stamp: string, signed: bool)

  /** The files of one machine. */
  class Files {
    var disk: Disk

    constructor (disk: Disk)
      ensures this.disk == disk
    {
      this.disk := disk;
    }
  }

  // ---------- what a write does, to the files and to what planning reads of the log ----------

  datatype Site = Site(disk: Disk, log: seq<Record>)

  function BackupDisk(disk: Disk, w: FileWrite): Disk {
    if w.target in disk then disk[Sidecar(w.target, w.stamp) := disk[w.target]] else disk
  }

  function BackupLog(env: Env, s: Site, w: FileWrite): seq<Record> {
    if w.signed && w.target in s.disk
    then s.log + [Record("backup", Sidecar(w.target, w.stamp), HashOf(env, s.disk[w.target]), false)]
    else s.log
  }

  /** A write by either writer: an existing file is copied to a sidecar first; only the signing writer
      records that copy in the log. */
  function ApplyWrite(env: Env, s: Site, w: FileWrite): Site {
    Site(BackupDisk(s.disk, w)[w.target := w.content],
         BackupLog(env, s, w) + [Record("write", w.target, HashOf(env, w.content), false)])
  }

  // ---------- the entries behind it ----------

  function RecordOf(e: Entry): Record {
    Record(e.op, e.target, e.hash, e.dryRun)
  }

  function Records(log: seq<Entry>): (r: seq<Record>)
    ensures |r| == |log|
  {
    seq(|log|, i requires 0 <= i < |log| => RecordOf(log[i]))
  }

  function IntentRecords(todo: seq<Intent>): (r: seq<Record>)
    ensures |r| == |todo|
  {
    seq(|todo|, i requires 0 <= i < |todo| => Record(todo[i].op, todo[i].target, HexEncode(todo[i].digest), todo[i].dryRun))
  }

  function BackupIntent(env: Env, disk: Disk, w: FileWrite): Intent
    requires w.target in disk
  {
    Intent("backup", Sidecar(w.target, w.stamp), env.sha(disk[w.target]), false)
  }

  function WriteIntent(env: Env, w: FileWrite): Intent {
    Intent("write", w.target, env.sha(w.content), false)
  }

  /** The batch a signed write appends: a backup entry when the target existed, then the write entry. */
  function WriteBatch(env: Env, disk: Disk, w: FileWrite): seq<Intent> {
    if w.target in disk then [BackupIntent(env, disk, w), WriteIntent(env, w)] else [WriteIntent(env, w)]
  }

  lemma RecordsOfMore(log: seq<Entry>, e: Entry)
    ensures Records(log + [e]) == Records(log) + [RecordOf(e)]
  {
  }

  lemma RefreshTickKeepsLog(env: Env, l: Local, task: Task, now: Time, newKey: string)
    requires task.Anchoring? || task.Counting?
    ensures var p := Tick(env, l, task, now, newKey);
            p.l.store.log == l.store.log && (p.phase.Running? ==> p.phase.task.Counting?)
  {
    hide UnsealedAnchor;
  }

  lemma RefreshKeepsLog(env: Env, l: Local, task: Task, now: Time, newKey: string, budget: nat)
    requires task.Anchoring? || task.Counting?
    ensures RunTask(env, l, task, now, newKey, budget).l.store.log == l.store.log
    decreases TaskRank(task)
  {
    hide RunTask, Tick;
    if budget == 0 {
      BudgetSpent(env, l, task, now, newKey);
    } else {
      RunTaskOnce(env, l, task, now, newKey, budget);
      RefreshTickKeepsLog(env, l, task, now, newKey);
      TickProgresses(env, l, task, now, newKey);
      var p := Tick(env, l, task, now, newKey);
      if p.phase.Running? {
        RefreshKeepsLog(env, p.l, p.phase.task, now, newKey, budget - 1);
      }
    }
  }

  /** One append records its intent, or nothing when it is refused. */
  lemma AppendRecords(env: Env, l: Local, x: Intent, now: Time, next: Task)
    ensures var p := TryAppend(env, l, x, now, next);
            if p.phase.Running? then Records(p.l.store.log) == Records(l.store.log) + IntentRecords([x]) && p.phase.task == next
            else p.l.store == l.store && p.phase == Returned(false)
  {
    hide SignedInput, Chain.TailEpoch;
    var p := TryAppend(env, l, x, now, next);
    if p.phase.Running? {
      RecordsOfMore(l.store.log, p.l.store.log[|l.store.log|]);
    }
  }

  lemma IntentRecordsSplit(todo: seq<Intent>, k: nat)
    requires 0 < k <= |todo|
    ensures IntentRecords(todo[..k]) == IntentRecords([todo[0]]) + IntentRecords(todo[1..][..k - 1])
  {
  }

  /** Whatever store write a batch fails at, the log has gained the records of the first `k` of its entries,
      and of all of them when it succeeds. */
  lemma {:induction false} BatchRecords(env: Env, l: Local, todo: seq<Intent>, done: nat, now: Time, newKey: string, budget: nat)
    returns (k: nat)
    ensures k <= |todo|
    ensures var p := RunTask(env, l, Appending(todo, done), now, newKey, budget);
            && Records(p.l.store.log) == Records(l.store.log) + IntentRecords(todo[..k])
            && (p.phase == Returned(true) ==> k == |todo|)
    decreases |todo|
  {
    hide RunTask, TryAppend, Records, IntentRecords;
    var task := Appending(todo, done);
    k := 0;
    assert Records(l.store.log) + IntentRecords(todo[..0]) == Records(l.store.log);
    if budget == 0 {
      BudgetSpent(env, l, task, now, newKey);
    } else {
      RunTaskOnce(env, l, task, now, newKey, budget);
      if todo == [] {
        RefreshKeepsLog(env, l, Anchoring(done), now, newKey, budget - 1);
      } else {
        AppendRecords(env, l, todo[0], now, Appending(todo[1..], done + 1));
        var t := TryAppend(env, l, todo[0], now, Appending(todo[1..], done + 1));
        if t.phase.Running? {
          var j := BatchRecords(env, t.l, todo[1..], done + 1, now, newKey, budget - 1);
          k := j + 1;
          IntentRecordsSplit(todo, k);
        }
      }
    }
  }

  lemma BatchIsApplyWrite(env: Env, log: seq<Record>, disk: Disk, w: FileWrite)
    requires w.signed
    ensures ApplyWrite(env, Site(disk, log), w).log == log + IntentRecords(WriteBatch(env, disk, w))
  {
  }

  /** A signed batch that succeeds records exactly what `ApplyWrite` says; one that fails, a prefix of it. */
  lemma SignedBatchRecords(env: Env, l: Local, disk: Disk, w: FileWrite, now: Time, newKey: string, budget: nat)
    requires w.signed
    ensures var p := RunTask(env, l, Secure(WriteBatch(env, disk, w), true), now, newKey, budget);
            var after := ApplyWrite(env, Site(disk, Records(l.store.log)), w).log;
            && Records(l.store.log) <= Records(p.l.store.log) <= after
            && (p.phase == Returned(true) ==> Records(p.l.store.log) == after)
  {
    hide RunTask, ApplyWrite, WriteBatch, Records, TryAppend;
    var todo := WriteBatch(env, disk, w);
    BatchIsApplyWrite(env, Records(l.store.log), disk, w);
    if budget == 0 {
      BudgetSpent(env, l, Secure(todo, true), now, newKey);
    } else {
      RunTaskOnce(env, l, Secure(todo, true), now, newKey, budget);
      var t := SecureKey(l, todo, true, newKey);
      if t.phase.Running? {
        var k := BatchRecords(env, t.l, todo, 0, now, newKey, budget - 1);
        assert IntentRecords(todo[..k]) == IntentRecords(todo)[..k];
        assert todo[..|todo|] == todo;
      }
    }
  }
}
