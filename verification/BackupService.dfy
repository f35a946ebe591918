/** The backup service object: policies and jobs in one stored document, changed by backup runs,
    the scheduler and retention. */
module BackupService {
  import opened Prelude
  import opened Text
  import opened Assoc
  import opened BackupSpec
  import Runs = BackupRuns

  /** The fields a policy payload names. */
  datatype PolicyChanges = PolicyChanges(enabled: Option<bool>, schedule: Option<string>, retention: Option<Retention>,
                                         lastBackup: Option<string>)

  /** An empty `last_backup` in the payload counts as none. */
  function Sanitized(changes: PolicyChanges, current: Policy): Policy {
    current.(
      enabled := changes.enabled.GetOr(current.enabled),
      schedule := if changes.schedule.Some? then NormalSchedule(changes.schedule.value) else current.schedule,
      retention := if changes.retention.Some?
                   then Days(RetentionDays(Some(current.(retention := changes.retention.value))))
                   else current.retention,
      lastBackup := if changes.lastBackup.GetOr([]) != [] then changes.lastBackup.value else current.lastBackup)
  }

  /** A policy as the service stores it: a schedule it knows, and between one day and ten years of retention. */
  predicate Normal(p: Policy) {
    && (p.schedule == "hourly" || p.schedule == "daily" || p.schedule == "weekly")
    && p.retention.Days? && 1 <= p.retention.n <= 3650
  }

  ghost predicate AllNormal(ps: Policies) {
    forall i :: 0 <= i < |ps| ==> Normal(ps[i].value)
  }

  /** What a payload makes of a stored policy: the named fields are set to normal values, the others keep. */
  lemma SanitizedIsNormal(changes: PolicyChanges, current: Policy)
    ensures Normal(current) ==> Normal(Sanitized(changes, current))
    ensures changes.retention.Some? ==>
              var r := Sanitized(changes, current).retention;
              r.Days? && 1 <= r.n <= 3650
              && (changes.retention.value.Days? && 1 <= changes.retention.value.n <= 3650 ==> r == changes.retention.value)
    ensures changes == PolicyChanges(None, None, None, None) ==> Sanitized(changes, current) == current
  {
  }

  /** What a payload does not name keeps, what it names is taken; normalising a schedule changes nothing about
      when the policy is due. */
  lemma SanitizedTakesTheNamed(changes: PolicyChanges, current: Policy, now: string)
    ensures var p := Sanitized(changes, current);
            && p.enabled == changes.enabled.GetOr(current.enabled)
            && (changes.schedule.None? ==> p.schedule == current.schedule)
            && (changes.schedule.Some? ==> Due(p, now) == Due(p.(schedule := changes.schedule.value), now))
            && (changes.retention.None? ==> p.retention == current.retention)
            && (changes.retention.Some? ==>
                  p.retention == Days(RetentionDays(Some(p.(retention := changes.retention.value)))))
            && (p.lastBackup == current.lastBackup || changes.lastBackup == Some(p.lastBackup))
            && (forall last :: changes.lastBackup == Some(last) && last != [] ==> p.lastBackup == last)
  {
    hide ScheduleDue;
    if changes.schedule.Some? {
      NormalTwice(changes.schedule.value);
    }
  }

  lemma NormalTwice(schedule: string)
    ensures NormalSchedule(NormalSchedule(schedule)) == NormalSchedule(schedule)
  {
    hide Fold, NormalSchedule;
    Runs.CadenceOf(schedule);
    Runs.CadenceOf(NormalSchedule(schedule));
    CadencesAreFolded();
  }

  lemma CadencesAreFolded()
    ensures Fold("hourly") == "hourly" && Fold("weekly") == "weekly" && Fold("daily") == "daily"
  {
    StripOfStripped("hourly");
    StripOfStripped("weekly");
    StripOfStripped("daily");
  }

  lemma PutNormal(ps: Policies, key: string, p: Policy)
    requires AllNormal(ps) && Normal(p)
    ensures AllNormal(Put(ps, key, p))
  {
  }

  ghost predicate StoreNormal(st: Store) {
    AllNormal(st.pools) && AllNormal(st.vms)
  }

  lemma BackupKeepsNormal(w: World, st: Store, kind: string, id: string)
    requires StoreNormal(st)
    ensures StoreNormal(Backup(w, st, kind, id).store)
  {
    hide Put, Get, Normal;
    var ps := PoliciesOf(st, kind);
    CurrentIsNormal(ps, id);
    var current := Get(ps, id).GetOr(DEFAULT_POLICY);
    var marked := current.(lastBackup := w.clock(st.ticks + 2));
    MarkKeepsNormal(current, w.clock(st.ticks + 2));
    PutNormal(ps, id, current);
    PutNormal(ps, id, marked);
  }

  lemma MarkKeepsNormal(p: Policy, stamp: string)
    ensures Normal(p) ==> Normal(p.(lastBackup := stamp))
  {
  }

  lemma SamePolicies(st: Store, other: Store)
    requires StoreNormal(st) && other.pools == st.pools && other.vms == st.vms
    ensures StoreNormal(other)
  {
  }

  /** No scheduler run or manual backup stores an abnormal policy. */
  lemma {:induction false} BackupsKeepNormal(w: World, st: Store, scopes: seq<Scope>)
    requires StoreNormal(st)
    ensures StoreNormal(BackupAll(w, st, scopes).store)
    decreases |scopes|
  {
    hide Backup, StoreNormal;
    if scopes != [] {
      BackupKeepsNormal(w, st, scopes[0].kind, scopes[0].id);
      BackupsKeepNormal(w, Backup(w, st, scopes[0].kind, scopes[0].id).store, scopes[1..]);
    }
  }

  lemma CurrentIsNormal(ps: Policies, key: string)
    requires AllNormal(ps)
    ensures Normal(Get(ps, key).GetOr(DEFAULT_POLICY))
  {
  }

  /** The days stored for a scope, or zero when no number is. */
  function RetentionOf(ps: Policies, key: string): int {
    match Get(ps, key)
    case Some(p) => if p.retention.Days? then p.retention.n else 0
    case None => 0
  }

  lemma NumeralIsStripped(n: int)
    ensures IntToString(n) != [] && Stripped(IntToString(n))
  {
    var s := IntToString(n);
    assert s[0] in s && Last(s) in s;
    forall c | c in s
      ensures IsDigit(c) || c == '-'
    {
    }
  }

  class BackupService {
    const world: World
    var pools: Policies
    var vms: Policies
    var jobs: seq<Item>
    var ticks: nat

    ghost function Stored(): Store
      reads this
    {
      Store(pools, vms, jobs, ticks)
    }

    ghost predicate Valid()
      reads this
    {
      Runs.Valid(Stored())
    }

    constructor (world: World)
      ensures this.world == world && Stored() == Store([], [], [], 0) && Valid() && Normalized()
    {
      this.world := world;
      pools, vms, jobs, ticks := [], [], [], 0;
    }

    method UtcNow() returns (reading: string)
      modifies this`ticks
      ensures reading == world.clock(old(ticks)) && ticks == old(ticks) + 1
    {
      reading := world.clock(ticks);
      ticks := ticks + 1;
    }

    ghost predicate Normalized()
      reads this
    {
      StoreNormal(Stored())
    }

    method UpdatePoolPolicy(poolId: string, changes: PolicyChanges) returns (error: Option<BackupError>)
      requires Valid()
      modifies this`pools
      ensures Valid() && (old(Normalized()) ==> Normalized())
      ensures error.Some? <==> Strip(poolId) == []
      ensures error.Some? ==> pools == old(pools)
      ensures error.None? ==>
                && pools == Put(old(pools), Strip(poolId), Sanitized(changes, Get(old(pools), Strip(poolId)).GetOr(DEFAULT_POLICY)))
                && (changes.retention.Some? ==> 1 <= RetentionOf(pools, Strip(poolId)) <= 3650)
    {
      hide Strip, Sanitized, Put, Get, Normal;
      var key := Strip(poolId);
      if key == [] {
        return Some(MissingScopeId);
      }
      StripIsStripped(poolId);
      var current := Get(pools, key).GetOr(DEFAULT_POLICY);
      var next := Sanitized(changes, current);
      GoodKeyPut(pools, key, next);
      SanitizedIsNormal(changes, current);
      PutProperties(pools, key, next);
      if Normalized() {
        CurrentIsNormal(pools, key);
        PutNormal(pools, key, next);
      }
      pools := Put(pools, key, next);
      error := None;
    }

    method UpdateVmPolicy(vmid: int, changes: PolicyChanges)
      requires Valid()
      modifies this`vms
      ensures Valid() && (old(Normalized()) ==> Normalized())
      ensures vms == Put(old(vms), IntToString(vmid), Sanitized(changes, Get(old(vms), IntToString(vmid)).GetOr(DEFAULT_POLICY)))
      ensures changes.retention.Some? ==> 1 <= RetentionOf(vms, IntToString(vmid)) <= 3650
    {
      hide IntToString, Sanitized, Put, Get, Normal;
      var key := IntToString(vmid);
      NumeralIsStripped(vmid);
      var current := Get(vms, key).GetOr(DEFAULT_POLICY);
      var next := Sanitized(changes, current);
      GoodKeyPut(vms, key, next);
      SanitizedIsNormal(changes, current);
      PutProperties(vms, key, next);
      if Normalized() {
        CurrentIsNormal(vms, key);
        PutNormal(vms, key, next);
      }
      vms := Put(vms, key, next);
    }

    method SetPolicy(kind: string, id: string, policy: Policy)
      requires Valid() && (kind == "pool" || kind == "vm") && id != [] && Stripped(id)
      modifies this`pools, this`vms
      ensures Valid()
      ensures Stored() == WithPolicies(old(Stored()), kind, Put(PoliciesOf(old(Stored()), kind), id, policy))
    {
      hide Put, Runs.GoodKeys;
      if kind == "pool" {
        GoodKeyPut(pools, id, policy);
        pools := Put(pools, id, policy);
      } else {
        GoodKeyPut(vms, id, policy);
        vms := Put(vms, id, policy);
      }
    }

    /** A job is recorded as running before the archive is attempted and finished whatever comes of it. */
    method RunBackupNow(scopeType: string, scopeId: string) returns (r: Result<Job, BackupError>)
      requires Valid()
      modifies this
      ensures Valid() && (old(Normalized()) ==> Normalized())
      ensures RunNow(world, old(Stored()), scopeType, scopeId) == Attempt(Stored(), r)
    {
      hide Fold, Strip, Put, Get, Runs.GoodKeys, StoreNormal;
      var kind, id := Fold(scopeType), Strip(scopeId);
      if kind != "pool" && kind != "vm" {
        return Err(UnknownScopeType);
      }
      if id == [] {
        return Err(MissingScopeId);
      }
      StripIsStripped(scopeId);
      var current := Get(if kind == "pool" then pools else vms, id).GetOr(DEFAULT_POLICY);
      var created := UtcNow();
      var started := UtcNow();
      var job := Job(kind, id, "running", created, started, None, "", "");
      jobs := jobs + [Record(job)];
      var attempt := world.archive(ticks);
      if attempt.Ok? {
        job := job.(status := "success", archive := attempt.value);
        var stamp := UtcNow();
        current := current.(lastBackup := stamp);
      } else {
        job := job.(status := "error", error := attempt.error);
      }
      SetPolicy(kind, id, current);
      var finished := UtcNow();
      job := job.(finishedAt := Some(finished));
      jobs := jobs[|jobs| - 1 := Record(job)];
      assert jobs == old(jobs) + [Record(job)];
      r := Ok(job);
      if old(Normalized()) { BackupKeepsNormal(world, old(Stored()), kind, id); }
    }

    method RunScheduledBackups() returns (triggered: seq<Job>)
      requires Valid()
      modifies this
      ensures Valid() && (old(Normalized()) ==> Normalized())
      ensures RunScheduled(world, old(Stored())) == Batch(Stored(), triggered)
    {
      hide Due, DueFrom, BackupAll, StoreNormal, Runs.GoodKeys;
      var poolSnapshot, vmSnapshot := pools, vms;
      var now := UtcNow();
      ghost var start := Stored();
      var poolJobs := BackupDue("pool", poolSnapshot, now);
      var vmJobs := BackupDue("vm", vmSnapshot, now);
      triggered := poolJobs + vmJobs;
      Runs.BackupAllAppend(world, start, DueFrom("pool", poolSnapshot, 0, now), DueFrom("vm", vmSnapshot, 0, now));
      if old(Normalized()) {
        SamePolicies(old(Stored()), start);
        BackupsKeepNormal(world, start, AllDue(old(Stored()), now));
      }
    }

    /** One table: every due scope of the snapshot is backed up in turn. */
    method BackupDue(kind: string, snapshot: Policies, now: string) returns (triggered: seq<Job>)
      requires Valid() && Runs.GoodKeys(snapshot) && (kind == "pool" || kind == "vm")
      modifies this
      ensures Valid()
      ensures BackupAll(world, old(Stored()), DueFrom(kind, snapshot, 0, now)) == Batch(Stored(), triggered)
    {
      hide Due, DueFrom, BackupAll, Progress, Backup;
      ghost var start, all := Stored(), DueFrom(kind, snapshot, 0, now);
      triggered := [];
      NoProgress(start, all);
      for i := 0 to |snapshot|
        invariant Valid() && Progress(start, all, Stored(), triggered, DueFrom(kind, snapshot, i, now))
      {
        Runs.DueFromStep(kind, snapshot, i, now);
        if Due(snapshot[i].value, now) {
          ghost var before := Stored();
          var job := RunKnown(kind, snapshot[i].key);
          Advance(start, all, before, triggered, Scope(kind, snapshot[i].key), DueFrom(kind, snapshot, i + 1, now));
          triggered := triggered + [job];
        }
      }
      NothingLeft(kind, snapshot, now);
      Finished(start, all, Stored(), triggered);
    }

    /** A backup of a scope taken from the stored policies. */
    method RunKnown(kind: string, id: string) returns (job: Job)
      requires Valid() && (kind == "pool" || kind == "vm") && id != [] && Stripped(id)
      modifies this
      ensures Valid()
      ensures Backup(world, old(Stored()), kind, id) == Single(Stored(), job)
    {
      hide Backup;
      StripOfStripped(id);
      KindFolds(kind);
      var r := RunBackupNow(kind, id);
      job := r.value;
    }

    /** The work of `all` started at `start` has come to `now_` with `jobs`, and `rest` is still to do. */
    ghost predicate Progress(start: Store, all: seq<Scope>, now_: Store, done: seq<Job>, rest: seq<Scope>) {
      var tail := BackupAll(world, now_, rest);
      BackupAll(world, start, all) == Batch(tail.store, done + tail.jobs)
    }

    lemma NoProgress(start: Store, all: seq<Scope>)
      ensures Progress(start, all, start, [], all)
    {
    }

    lemma Advance(start: Store, all: seq<Scope>, st: Store, done: seq<Job>, scope: Scope, rest: seq<Scope>)
      requires Progress(start, all, st, done, [scope] + rest)
      ensures var one := Backup(world, st, scope.kind, scope.id);
              Progress(start, all, one.store, done + [one.job], rest)
    {
      hide Backup, BackupAll;
      var one := Backup(world, st, scope.kind, scope.id);
      Runs.BackupAllStep(world, st, [scope] + rest);
      assert ([scope] + rest)[1..] == rest;
      var tail := BackupAll(world, one.store, rest);
      assert done + ([one.job] + tail.jobs) == done + [one.job] + tail.jobs;
    }

    lemma Finished(start: Store, all: seq<Scope>, end: Store, done: seq<Job>)
      requires Progress(start, all, end, done, [])
      ensures BackupAll(world, start, all) == Batch(end, done)
    {
      assert done + [] == done;
    }

    /** Deletion of a pruned job's archive is attempted, and its failure ignored: `deletions` lists the
        attempts. */
    method PruneOldSnapshots(scopeType: string, scopeId: string) returns (pruned: seq<Job>, deletions: seq<string>)
      requires Valid()
      modifies this
      ensures Valid() && pools == old(pools) && vms == old(vms)
      ensures var now := world.clock(old(ticks));
              && jobs == Pruned(pools, vms, scopeType, scopeId, now, old(jobs))
              && Runs.Records(pruned) == PrunedItems(pools, vms, scopeType, scopeId, now, old(jobs))
              && deletions == Archives(PrunedItems(pools, vms, scopeType, scopeId, now, old(jobs)))
    {
      hide GoverningDays, Age;
      var now := UtcNow();
      var all := jobs;
      var kept: seq<Item> := [];
      pruned, deletions := [], [];
      ghost var prune := PruneRule(pools, vms, scopeType, scopeId, now);
      ghost var keep := KeepRule(pools, vms, scopeType, scopeId, now);
      for i := 0 to |all|
        invariant Stored() == old(Stored()).(ticks := ticks)
        invariant kept == Filter(all[..i], keep)
        invariant Runs.Records(pruned) == Filter(all[..i], prune)
        invariant deletions == Archives(Filter(all[..i], prune))
      {
        assert all[..i + 1] == all[..i] + [all[i]];
        FilterAppend(all[..i], all[i], keep);
        FilterAppend(all[..i], all[i], prune);
        if all[i].Other? {
          continue;
        }
        var job := all[i].job;
        if scopeType != [] && job.scopeType != scopeType {
          kept := kept + [all[i]];
          continue;
        }
        if scopeId != [] && job.scopeId != scopeId {
          kept := kept + [all[i]];
          continue;
        }
        if job.status != "success" {
          kept := kept + [all[i]];
          continue;
        }
        var days := GoverningDays(pools, vms, job);
        if days.None? {
          kept := kept + [all[i]];
          continue;
        }
        var age := Age(job, now);
        if age.None? || age.value < days.value {
          kept := kept + [all[i]];
          continue;
        }
        Runs.JobsAppend(pruned, [job]);
        RecordsOne(job);
        ArchivesAppend(Filter(all[..i], prune), all[i]);
        if job.archive != [] {
          deletions := deletions + [job.archive];
        }
        pruned := pruned + [job];
      }
      assert all[..|all|] == all;
      if pruned != [] {
        jobs := kept;
      }
    }
  }

  lemma GoodKeyPut(ps: Policies, key: string, p: Policy)
    requires Runs.GoodKeys(ps) && key != [] && Stripped(key)
    ensures Runs.GoodKeys(Put(ps, key, p))
  {
    PutProperties(ps, key, p);
  }

  lemma KindFolds(kind: string)
    requires kind == "pool" || kind == "vm"
    ensures Fold(kind) == kind
  {
    StripOfStripped(kind);
  }

  lemma NothingLeft(kind: string, ps: Policies, now: string)
    ensures DueFrom(kind, ps, |ps|, now) == []
  {
  }

  lemma RecordsOne(job: Job)
    ensures Runs.Records([job]) == [Record(job)]
  {
    assert [job][1..] == [];
    assert Runs.Records([job]) == [Record(job)] + Runs.Records([job][1..]);
  }

  lemma {:induction false} ArchivesAppend(items: seq<Item>, x: Item)
    ensures Archives(items + [x]) == Archives(items) + if x.Record? && x.job.archive != [] then [x.job.archive] else []
  {
    if items == [] {
      assert [x][1..] == [] && items + [x] == [x];
    } else {
      assert (items + [x])[1..] == items[1..] + [x];
      ArchivesAppend(items[1..], x);
    }
  }
}
