/** Scheduled backups over time, whatever the archive attempts yield. */
module BackupRuns {
  import opened Prelude
  import opened Text
  import opened Assoc
  import opened Calendar
  import opened BackupSpec

  ghost predicate GoodKeys(ps: Policies) {
    DistinctKeys(ps) && forall i :: 0 <= i < |ps| ==> ps[i].key != [] && Stripped(ps[i].key)
  }

  /** Policy keys are distinct, nonempty and stripped: every writer strips and checks them. */
  ghost predicate Valid(st: Store) {
    GoodKeys(st.pools) && GoodKeys(st.vms)
  }

  predicate Ended(j: Job) {
    (j.status == "success" || j.status == "error") && j.finishedAt.Some?
  }

  predicate IsFailed(j: Job) {
    j.status == "error"
  }

  function Failed(jobs: seq<Job>): seq<Job> {
    Filter(jobs, IsFailed)
  }

  function Scopes(jobs: seq<Job>): seq<Scope> {
    if jobs == [] then [] else [Scope(jobs[0].scopeType, jobs[0].scopeId)] + Scopes(jobs[1..])
  }

  function Records(jobs: seq<Job>): seq<Item> {
    if jobs == [] then [] else [Record(jobs[0])] + Records(jobs[1..])
  }

  // ----- one backup -----

  ghost predicate OthersUnchanged(before: Store, after: Store, kind: string) {
    if kind == "pool" then after.vms == before.vms else after.pools == before.pools
  }

  /** One backup of a scope that has a policy: the job has ended, it is appended, and only that policy's
      `last_backup` may have moved, which it does exactly on success. */
  ghost predicate OneBackup(w: World, st: Store, kind: string, i: nat, after: Store, job: Job)
    requires i < |PoliciesOf(st, kind)|
  {
    var ps := PoliciesOf(st, kind);
    && Ended(job) && job.scopeType == kind && job.scopeId == ps[i].key
    && after.jobs == st.jobs + [Record(job)]
    && PoliciesOf(after, kind) ==
       ps[i := Entry(ps[i].key, if IsFailed(job) then ps[i].value else ps[i].value.(lastBackup := w.clock(st.ticks + 2)))]
    && OthersUnchanged(st, after, kind)
  }

  lemma BackupEffect(w: World, st: Store, kind: string, i: nat)
    requires DistinctKeys(PoliciesOf(st, kind)) && i < |PoliciesOf(st, kind)|
    ensures var one := Backup(w, st, kind, PoliciesOf(st, kind)[i].key);
            OneBackup(w, st, kind, i, one.store, one.job)
  {
    IndexIs(PoliciesOf(st, kind), PoliciesOf(st, kind)[i].key, i);
  }

  // ----- within one hour -----

  predicate InHour(t: string, hour: string) {
    |hour| == 13 && |t| >= 13 && t[..13] == hour
  }

  /** Every clock reading falls into the hour `hour`. */
  ghost predicate ClockInHour(w: World, hour: string) {
    forall n :: InHour(w.clock(n), hour)
  }

  lemma SameHour(s: string, t: string, hour: string)
    requires InHour(s, hour) && InHour(t, hour)
    ensures Prefix(s, 13) == Prefix(t, 13) && Prefix(s, 10) == Prefix(t, 10)
  {
    assert s[..10] == s[..13][..10] && t[..10] == t[..13][..10];
    if |s| == 13 { assert s[..13] == s; }
    if |t| == 13 { assert t[..13] == t; }
  }

  /** Within an hour a policy is due at one reading exactly when it is due at another, and a policy
      backed up in that hour is not. */
  lemma DueWithinHour(p: Policy, s: string, t: string, hour: string)
    requires InHour(s, hour) && InHour(t, hour)
    ensures Due(p, s) == Due(p, t)
    ensures !Due(p.(lastBackup := s), t)
  {
    hide Prefix, LexLess, NormalSchedule;
    SameHour(s, t, hour);
  }

  // ----- from one period to the next -----

  /** The day number of a clock reading, if it begins with a date. */
  function DayNumber(t: string): Option<int> {
    FromIso(Prefix(t, 10))
  }

  /** The hour of a reading of the form `YYYY-MM-DDThh...`. */
  function HourOf(t: string): Option<int> {
    if |t| >= 13 && t[10] == 'T' && IsDigit(t[11]) && IsDigit(t[12]) then
      Some(10 * DigitValue(t[11]) + DigitValue(t[12]))
    else None
  }

  /** A clock reading as the service writes it: a date, the letter T, the hour, and the rest. */
  function StampText(d: Date, hour: nat, rest: string): string {
    IsoText(d) + ['T'] + Padded(hour, 2) + rest
  }

  lemma StampReads(d: Date, hour: nat, rest: string)
    requires ValidDate(d) && hour < 24
    ensures var t := StampText(d, hour, rest);
            DayNumber(t) == Some(Ordinal(d)) && HourOf(t) == Some(hour) && InHour(t, Prefix(t, 13))
  {
    hide Ordinal, FromIso, IsoText;
    var t := StampText(d, hour, rest);
    IsoTextReads(d);
    FromIsoExactly(IsoText(d), Ordinal(d));
    TwoDigits(hour);
    assert t[..10] == IsoText(d) && t[10] == 'T';
    assert t[11] == Padded(hour, 2)[0] && t[12] == Padded(hour, 2)[1];
    assert t[11] in Padded(hour, 2) && t[12] in Padded(hour, 2);
  }

  lemma CadenceOf(schedule: string)
    ensures NormalSchedule(schedule) ==
            if Fold(schedule) == "hourly" then "hourly" else if Fold(schedule) == "weekly" then "weekly" else "daily"
  {
    hide Lower;
    if schedule == [] {
      StripOfStripped("daily");
      StripOfStripped([]);
      assert Lower("daily") == "daily";
      assert |Lower([])| == 0;
    }
  }

  lemma SameHourSameText(s: string, t: string)
    requires DayNumber(s).Some? && DayNumber(t).Some? && HourOf(s).Some? && HourOf(t).Some?
    ensures Prefix(s, 13) == Prefix(t, 13) <==> DayNumber(s) == DayNumber(t) && HourOf(s) == HourOf(t)
  {
    hide FromIso;
    SameDaySameText(Prefix(s, 10), Prefix(t, 10));
    assert Prefix(s, 13) == Prefix(s, 10) + [s[10], s[11], s[12]];
    assert Prefix(t, 13) == Prefix(t, 10) + [t[10], t[11], t[12]];
    assert |Prefix(s, 10)| == |Prefix(t, 10)| == 10;
  }

  /** When a policy is due: never while disabled, at once when it was never backed up, and otherwise by its
      cadence, where anything but hourly and weekly counts as daily. */
  lemma DueByCadence(p: Policy, now: string)
    requires p.lastBackup != [] ==> DayNumber(p.lastBackup).Some? && DayNumber(now).Some?
    requires p.lastBackup != [] && Fold(p.schedule) == "hourly" ==> HourOf(p.lastBackup).Some? && HourOf(now).Some?
    ensures Due(p, now) <==>
              && p.enabled
              && (|| p.lastBackup == []
                  || (if Fold(p.schedule) == "hourly" then
                        DayNumber(now) != DayNumber(p.lastBackup) || HourOf(now) != HourOf(p.lastBackup)
                      else if Fold(p.schedule) == "weekly" then DayNumber(p.lastBackup).value < DayNumber(now).value
                      else DayNumber(now) != DayNumber(p.lastBackup)))
  {
    hide FromIso, Fold, LexLess, NormalSchedule, Prefix, HourOf;
    CadenceOf(p.schedule);
    if p.lastBackup != [] {
      SameDaySameText(Prefix(now, 10), Prefix(p.lastBackup, 10));
      SameDaySameText(Prefix(p.lastBackup, 10), Prefix(now, 10));
      if Fold(p.schedule) == "hourly" {
        SameHourSameText(now, p.lastBackup);
      }
    }
  }

  /** A table after backing up its due entries from position `k` on. */
  ghost predicate Swept(before: Policies, after: Policies, k: nat) {
    && |after| == |before| && k <= |before|
    && (forall i :: 0 <= i < |before| ==>
          after[i].key == before[i].key && after[i].value == before[i].value.(lastBackup := after[i].value.lastBackup))
    && (forall i :: 0 <= i < k ==> after[i] == before[i])
  }

  /** What a run leaves of the due policy a job was run for: its `last_backup` moves exactly when the job
      succeeded, to a clock reading of the run. */
  ghost predicate MarkedBy(w: World, before: Policy, after: Policy, job: Job) {
    && (IsFailed(job) <==> after == before)
    && (!IsFailed(job) ==> exists n: nat :: after == before.(lastBackup := w.clock(n)))
  }

  /** Policy `i` was due and `job` is its job. */
  ghost predicate JobOf(w: World, before: Policies, after: Policies, job: Job, i: nat, now: string)
    requires |after| == |before|
  {
    && i < |before| && Due(before[i].value, now) && before[i].key == job.scopeId
    && MarkedBy(w, before[i].value, after[i].value, job)
  }

  ghost predicate HasJob(w: World, before: Policies, after: Policies, jobs: seq<Job>, kind: string, i: nat, now: string)
    requires |after| == |before|
  {
    exists j :: j in jobs && j.scopeType == kind && JobOf(w, before, after, j, i, now)
  }

  ghost predicate HasEntry(w: World, before: Policies, after: Policies, j: Job, k: nat, now: string)
    requires |after| == |before|
  {
    exists i: nat :: k <= i && JobOf(w, before, after, j, i, now)
  }

  /** From position `k` on: an entry that was not due is unchanged, each due one has a job that marked it,
      and each job of the table is the job of a due entry. */
  ghost predicate Marks(w: World, before: Policies, after: Policies, jobs: seq<Job>, kind: string, k: nat, now: string)
    requires |after| == |before|
  {
    && (forall i: nat :: k <= i < |before| && !Due(before[i].value, now) ==> after[i] == before[i])
    && (forall i: nat :: k <= i < |before| && Due(before[i].value, now) ==> HasJob(w, before, after, jobs, kind, i, now))
    && (forall j :: j in jobs && j.scopeType == kind ==> HasEntry(w, before, after, j, k, now))
  }

  lemma JobAmongMore(w: World, before: Policies, mid: Policies, after: Policies, jobs: seq<Job>, all: seq<Job>, kind: string, i: nat, now: string)
    requires |after| == |before| == |mid| && i < |before| && mid[i] == before[i] && forall j :: j in jobs ==> j in all
    requires HasJob(w, mid, after, jobs, kind, i, now)
    ensures HasJob(w, before, after, all, kind, i, now)
  {
    hide Due, MarkedBy;
    var j :| j in jobs && j.scopeType == kind && JobOf(w, mid, after, j, i, now);
    assert j in all && JobOf(w, before, after, j, i, now);
  }

  lemma EntryFromEarlier(w: World, before: Policies, mid: Policies, after: Policies, j: Job, k: nat, now: string)
    requires |after| == |before| == |mid| && forall i :: k < i < |before| ==> mid[i] == before[i]
    requires HasEntry(w, mid, after, j, k + 1, now)
    ensures HasEntry(w, before, after, j, k, now)
  {
    hide Due, MarkedBy;
    var i: nat :| k + 1 <= i && JobOf(w, mid, after, j, i, now);
    assert JobOf(w, before, after, j, i, now);
  }

  lemma MarksNone(w: World, before: Policies, after: Policies, kind: string, now: string)
    requires |after| == |before|
    ensures Marks(w, before, after, [], kind, |before|, now)
  {
  }

  lemma MarksSkip(w: World, before: Policies, after: Policies, jobs: seq<Job>, kind: string, k: nat, now: string)
    requires |after| == |before| && k < |before| && Marks(w, before, after, jobs, kind, k + 1, now)
    requires !Due(before[k].value, now) && after[k] == before[k]
    ensures Marks(w, before, after, jobs, kind, k, now)
  {
    hide HasJob, HasEntry, Due;
    forall j | j in jobs && j.scopeType == kind
      ensures HasEntry(w, before, after, j, k, now)
    {
      EntryFromEarlier(w, before, before, after, j, k, now);
    }
  }

  lemma JobAtHand(w: World, before: Policies, after: Policies, job: Job, all: seq<Job>, kind: string, k: nat, now: string)
    requires |after| == |before| && k < |before| && job in all
    requires job.scopeType == kind && JobOf(w, before, after, job, k, now)
    ensures HasJob(w, before, after, all, kind, k, now) && HasEntry(w, before, after, job, k, now)
    ensures Due(before[k].value, now)
  {
    hide Due, MarkedBy;
  }

  lemma MarksStep(w: World, before: Policies, mid: Policies, after: Policies, job: Job, jobs: seq<Job>, kind: string, k: nat, now: string)
    requires |after| == |before| == |mid| && k < |before| && forall i :: k < i < |before| ==> mid[i] == before[i]
    requires Marks(w, mid, after, jobs, kind, k + 1, now)
    requires job.scopeType == kind && JobOf(w, before, after, job, k, now)
    ensures Marks(w, before, after, [job] + jobs, kind, k, now)
  {
    hide HasJob, HasEntry, JobOf, Due;
    var all := [job] + jobs;
    assert forall j :: j in all <==> j == job || j in jobs;
    JobAtHand(w, before, after, job, all, kind, k, now);
    forall i: nat | k < i < |before| && Due(before[i].value, now)
      ensures HasJob(w, before, after, all, kind, i, now)
    {
      JobAmongMore(w, before, mid, after, jobs, all, kind, i, now);
    }
    forall j | j in jobs && j.scopeType == kind
      ensures HasEntry(w, before, after, j, k, now)
    {
      EntryFromEarlier(w, before, mid, after, j, k, now);
    }
  }

  /** Backing up every due entry of one table, in order. `later` is any reading of the same hour: the
      entries due then are those whose backup failed. */
  lemma {:induction false} Sweep(w: World, st: Store, kind: string, k: nat, now: string, later: string, hour: string)
    requires kind == "pool" || kind == "vm"
    requires DistinctKeys(PoliciesOf(st, kind)) && k <= |PoliciesOf(st, kind)|
    requires ClockInHour(w, hour) && InHour(now, hour) && InHour(later, hour)
    ensures var ps := PoliciesOf(st, kind);
            var batch := BackupAll(w, st, DueFrom(kind, ps, k, now));
            var after := PoliciesOf(batch.store, kind);
            && Swept(ps, after, k) && Marks(w, ps, after, batch.jobs, kind, k, now)
            && OthersUnchanged(st, batch.store, kind)
            && Scopes(batch.jobs) == DueFrom(kind, ps, k, now)
            && DueFrom(kind, after, k, later) == Scopes(Failed(batch.jobs))
            && (forall j :: j in batch.jobs ==> Ended(j) && j.scopeType == kind)
            && batch.store.jobs == st.jobs + Records(batch.jobs)
    decreases |PoliciesOf(st, kind)| - k
  {
    hide Backup, Due, Ended, InHour, Marks;
    var ps := PoliciesOf(st, kind);
    if k == |ps| {
      assert st.jobs + [] == st.jobs;
      MarksNone(w, ps, ps, kind, now);
    } else if Due(ps[k].value, now) {
      SweepDue(w, st, kind, k, now, later, hour);
    } else {
      Sweep(w, st, kind, k + 1, now, later, hour);
      DueWithinHour(ps[k].value, now, later, hour);
      var batch := BackupAll(w, st, DueFrom(kind, ps, k, now));
      MarksSkip(w, ps, PoliciesOf(batch.store, kind), batch.jobs, kind, k, now);
    }
  }

  lemma {:induction false} SweepDue(w: World, st: Store, kind: string, k: nat, now: string, later: string, hour: string)
    requires kind == "pool" || kind == "vm"
    requires DistinctKeys(PoliciesOf(st, kind)) && k < |PoliciesOf(st, kind)|
    requires ClockInHour(w, hour) && InHour(now, hour) && InHour(later, hour)
    requires Due(PoliciesOf(st, kind)[k].value, now)
    ensures var ps := PoliciesOf(st, kind);
            var batch := BackupAll(w, st, DueFrom(kind, ps, k, now));
            var after := PoliciesOf(batch.store, kind);
            && Swept(ps, after, k) && Marks(w, ps, after, batch.jobs, kind, k, now)
            && OthersUnchanged(st, batch.store, kind)
            && Scopes(batch.jobs) == DueFrom(kind, ps, k, now)
            && DueFrom(kind, after, k, later) == Scopes(Failed(batch.jobs))
            && (forall j :: j in batch.jobs ==> Ended(j) && j.scopeType == kind)
            && batch.store.jobs == st.jobs + Records(batch.jobs)
    decreases |PoliciesOf(st, kind)| - k, 0
  {
    hide Backup, Due, Ended, InHour, DueFrom, BackupAll, Scopes, Records, Failed, DistinctKeys, Marks;
    var ps := PoliciesOf(st, kind);
    var one := Backup(w, st, kind, ps[k].key);
    BackupEffect(w, st, kind, k);
    var ps' := PoliciesOf(one.store, kind);
    KeysStayDistinct(ps, ps');
    Sweep(w, one.store, kind, k + 1, now, later, hour);
    DueFromLocal(kind, ps, ps', k + 1, now);
    var scopes, rest := DueFrom(kind, ps, k, now), DueFrom(kind, ps, k + 1, now);
    assert scopes == [Scope(kind, ps[k].key)] + rest by { DueFromStep(kind, ps, k, now); }
    var tail := BackupAll(w, one.store, rest);
    var batch := BackupAll(w, st, scopes);
    assert scopes[1..] == rest;
    assert batch == Batch(tail.store, [one.job] + tail.jobs) by { BackupAllStep(w, st, scopes); }
    JobsStep(one.job, tail.jobs);
    var after := PoliciesOf(batch.store, kind);
    assert after[k] == ps'[k];
    DueFromStep(kind, after, k, later);
    DueWithinHour(ps[k].value, now, later, hour);
    var stamp := w.clock(st.ticks + 2);
    assert InHour(stamp, hour);
    DueWithinHour(ps[k].value, stamp, later, hour);
    assert JobOf(w, ps, after, one.job, k, now);
    MarksStep(w, ps, ps', after, one.job, tail.jobs, kind, k, now);
    assert st.jobs + [Record(one.job)] + Records(tail.jobs) == st.jobs + ([Record(one.job)] + Records(tail.jobs));
  }

  lemma KeysStayDistinct(ps: Policies, ps': Policies)
    requires DistinctKeys(ps) && |ps'| == |ps| && forall i :: 0 <= i < |ps| ==> ps'[i].key == ps[i].key
    ensures DistinctKeys(ps')
  {
  }

  lemma DueFromStep(kind: string, ps: Policies, k: nat, now: string)
    requires k < |ps|
    ensures DueFrom(kind, ps, k, now) ==
            if Due(ps[k].value, now) then [Scope(kind, ps[k].key)] + DueFrom(kind, ps, k + 1, now)
            else DueFrom(kind, ps, k + 1, now)
  {
  }

  lemma BackupAllStep(w: World, st: Store, scopes: seq<Scope>)
    requires scopes != []
    ensures var one := Backup(w, st, scopes[0].kind, scopes[0].id);
            var rest := BackupAll(w, one.store, scopes[1..]);
            BackupAll(w, st, scopes) == Batch(rest.store, [one.job] + rest.jobs)
  {
    hide Backup;
  }

  lemma JobsStep(job: Job, jobs: seq<Job>)
    ensures Scopes([job] + jobs) == [Scope(job.scopeType, job.scopeId)] + Scopes(jobs)
    ensures Records([job] + jobs) == [Record(job)] + Records(jobs)
    ensures Scopes(Failed([job] + jobs)) ==
            if IsFailed(job) then [Scope(job.scopeType, job.scopeId)] + Scopes(Failed(jobs)) else Scopes(Failed(jobs))
  {
    assert ([job] + jobs)[1..] == jobs;
    if IsFailed(job) {
      var failed := Failed([job] + jobs);
      assert failed == [job] + Failed(jobs) && failed[1..] == Failed(jobs);
    }
  }

  lemma {:induction false} DueFromLocal(kind: string, ps: Policies, ps': Policies, k: nat, now: string)
    requires k <= |ps| == |ps'| && forall i :: k <= i < |ps| ==> ps'[i] == ps[i]
    ensures DueFrom(kind, ps, k, now) == DueFrom(kind, ps', k, now)
    decreases |ps| - k
  {
    hide Due;
    if k < |ps| {
      DueFromLocal(kind, ps, ps', k + 1, now);
    }
  }

  lemma {:induction false} BackupAllAppend(w: World, st: Store, a: seq<Scope>, b: seq<Scope>)
    ensures var left := BackupAll(w, st, a);
            var right := BackupAll(w, left.store, b);
            BackupAll(w, st, a + b) == Batch(right.store, left.jobs + right.jobs)
    decreases |a|
  {
    hide Backup;
    if a == [] {
      assert a + b == b;
      var right := BackupAll(w, st, b);
      assert [] + right.jobs == right.jobs;
    } else {
      assert (a + b)[0] == a[0] && (a + b)[1..] == a[1..] + b;
      var one := Backup(w, st, a[0].kind, a[0].id);
      BackupAllAppend(w, one.store, a[1..], b);
      var left := BackupAll(w, one.store, a[1..]);
      var right := BackupAll(w, left.store, b);
      assert [one.job] + (left.jobs + right.jobs) == [one.job] + left.jobs + right.jobs;
    }
  }

  lemma {:induction false} ScopesAppend(a: seq<Job>, b: seq<Job>)
    ensures Scopes(a + b) == Scopes(a) + Scopes(b)
    decreases |a|
  {
    if a == [] {
      assert a + b == b;
    } else {
      assert (a + b)[0] == a[0] && (a + b)[1..] == a[1..] + b;
      ScopesAppend(a[1..], b);
    }
  }

  lemma {:induction false} RecordsAppend(a: seq<Job>, b: seq<Job>)
    ensures Records(a + b) == Records(a) + Records(b)
    decreases |a|
  {
    if a == [] {
      assert a + b == b;
    } else {
      assert (a + b)[0] == a[0] && (a + b)[1..] == a[1..] + b;
      RecordsAppend(a[1..], b);
    }
  }

  lemma {:induction false} FailedAppend(a: seq<Job>, b: seq<Job>)
    ensures Failed(a + b) == Failed(a) + Failed(b)
    decreases |a|
  {
    if a == [] {
      assert a + b == b;
    } else {
      assert (a + b)[0] == a[0] && (a + b)[1..] == a[1..] + b;
      FailedAppend(a[1..], b);
    }
  }

  lemma JobsAppend(a: seq<Job>, b: seq<Job>)
    ensures Scopes(a + b) == Scopes(a) + Scopes(b)
    ensures Records(a + b) == Records(a) + Records(b)
    ensures Scopes(Failed(a + b)) == Scopes(Failed(a)) + Scopes(Failed(b))
  {
    hide Scopes, Records, Failed;
    ScopesAppend(a, b);
    RecordsAppend(a, b);
    FailedAppend(a, b);
    ScopesAppend(Failed(a), Failed(b));
  }

  lemma MarksAmongMore(w: World, before: Policies, after: Policies, jobs: seq<Job>, all: seq<Job>, kind: string, now: string)
    requires |after| == |before| && Marks(w, before, after, jobs, kind, 0, now)
    requires forall j :: j in jobs ==> j in all
    requires forall j :: j in all && j.scopeType == kind ==> j in jobs
    ensures Marks(w, before, after, all, kind, 0, now)
  {
    hide HasJob, HasEntry, Due;
    forall i: nat | 0 <= i < |before| && Due(before[i].value, now)
      ensures HasJob(w, before, after, all, kind, i, now)
    {
      JobAmongMore(w, before, before, after, jobs, all, kind, i, now);
    }
  }

  /** What a scheduler run does to both tables: only `last_backup` marks move, those of the due policies
      whose job succeeded. */
  ghost predicate Marked(w: World, st: Store, after: Store, jobs: seq<Job>, now: string) {
    && Swept(st.pools, after.pools, 0) && Marks(w, st.pools, after.pools, jobs, "pool", 0, now)
    && Swept(st.vms, after.vms, 0) && Marks(w, st.vms, after.vms, jobs, "vm", 0, now)
  }

  /** One scheduler run, and what would be due at a later reading of the hour. */
  lemma OneRun(w: World, st: Store, later: string, hour: string)
    requires Valid(st) && ClockInHour(w, hour) && InHour(later, hour)
    ensures var batch := RunScheduled(w, st);
            && Valid(batch.store)
            && Scopes(batch.jobs) == AllDue(st, w.clock(st.ticks))
            && batch.store.jobs == st.jobs + Records(batch.jobs)
            && (forall j :: j in batch.jobs ==> Ended(j))
            && Marked(w, st, batch.store, batch.jobs, w.clock(st.ticks))
            && AllDue(batch.store, later) == Scopes(Failed(batch.jobs))
  {
    hide Due, Ended, BackupAll, DueFrom, Scopes, Records, Failed, Marks;
    var now := w.clock(st.ticks);
    var start := st.(ticks := st.ticks + 1);
    Sweep(w, start, "pool", 0, now, later, hour);
    var left := BackupAll(w, start, DueFrom("pool", st.pools, 0, now));
    assert left.store.vms == st.vms;
    Sweep(w, left.store, "vm", 0, now, later, hour);
    var right := BackupAll(w, left.store, DueFrom("vm", st.vms, 0, now));
    assert right.store.pools == left.store.pools;
    BackupAllAppend(w, start, DueFrom("pool", st.pools, 0, now), DueFrom("vm", st.vms, 0, now));
    JobsAppend(left.jobs, right.jobs);
    MarksAmongMore(w, st.pools, left.store.pools, left.jobs, left.jobs + right.jobs, "pool", now);
    MarksAmongMore(w, st.vms, right.store.vms, right.jobs, left.jobs + right.jobs, "vm", now);
    assert st.jobs + Records(left.jobs) + Records(right.jobs) == st.jobs + (Records(left.jobs) + Records(right.jobs));
  }

  /** While the clock stays in one hour: a scheduler run backs up each due enabled scope once, every job
      it appends has ended, `last_backup` moves exactly where the job succeeded, and running it again backs
      up exactly the scopes whose first job failed. */
  lemma SecondRunRetriesFailures(w: World, st: Store, hour: string)
    requires Valid(st) && ClockInHour(w, hour)
    ensures var first := RunScheduled(w, st);
            var second := RunScheduled(w, first.store);
            && Scopes(first.jobs) == AllDue(st, w.clock(st.ticks))
            && first.store.jobs == st.jobs + Records(first.jobs)
            && (forall j :: j in first.jobs ==> Ended(j))
            && Marked(w, st, first.store, first.jobs, w.clock(st.ticks))
            && Scopes(second.jobs) == Scopes(Failed(first.jobs))
  {
    hide RunScheduled, Ended, AllDue, Scopes, Records, Failed, Valid, InHour, Marked;
    var first := RunScheduled(w, st);
    var later := w.clock(first.store.ticks);
    assert InHour(later, hour);
    OneRun(w, st, later, hour);
    OneRun(w, first.store, later, hour);
  }

  // ----- from one day to the next -----

  /** Every scope handed to the backups gets one job, in order, whatever the archives yield. */
  lemma {:induction false} EachScopeGetsAJob(w: World, st: Store, scopes: seq<Scope>)
    ensures Scopes(BackupAll(w, st, scopes).jobs) == scopes
    decreases |scopes|
  {
    hide Backup, Failed, Records;
    if scopes != [] {
      hide BackupAll, Scopes;
      var s := scopes[0];
      var one := Backup(w, st, s.kind, s.id);
      EachScopeGetsAJob(w, one.store, scopes[1..]);
      BackupAllStep(w, st, scopes);
      BackupNames(w, st, s.kind, s.id);
      JobsStep(one.job, BackupAll(w, one.store, scopes[1..]).jobs);
      assert scopes == [Scope(s.kind, s.id)] + scopes[1..];
    }
  }

  lemma BackupNames(w: World, st: Store, kind: string, id: string)
    ensures Backup(w, st, kind, id).job.scopeType == kind && Backup(w, st, kind, id).job.scopeId == id
  {
  }

  lemma {:induction false} DueFromMembers(kind: string, ps: Policies, k: nat, now: string, s: Scope)
    requires k <= |ps|
    ensures s in DueFrom(kind, ps, k, now) <==>
              s.kind == kind && exists i :: k <= i < |ps| && ps[i].key == s.id && Due(ps[i].value, now)
    decreases |ps| - k
  {
    hide Due;
    if k < |ps| {
      DueFromMembers(kind, ps, k + 1, now, s);
    }
  }

  lemma RunsAllDue(w: World, st: Store)
    ensures Scopes(RunScheduled(w, st).jobs) == AllDue(st, w.clock(st.ticks))
  {
    hide AllDue, BackupAll, Scopes;
    EachScopeGetsAJob(w, st.(ticks := st.ticks + 1), AllDue(st, w.clock(st.ticks)));
  }

  /** A scheduler run backs up a scope exactly when its policy is due at the reading the run began with. */
  lemma RunsWhatIsDue(w: World, st: Store, kind: string, id: string)
    requires kind == "pool" || kind == "vm"
    ensures var policy := Get(PoliciesOf(st, kind), id);
            var backedUp := Scope(kind, id) in Scopes(RunScheduled(w, st).jobs);
            && (policy.Some? && Due(policy.value, w.clock(st.ticks)) ==> backedUp)
            && (Valid(st) && backedUp ==> policy.Some? && Due(policy.value, w.clock(st.ticks)))
  {
    hide Due, BackupAll, DueFrom, Scopes, RunScheduled;
    var now, ps := w.clock(st.ticks), PoliciesOf(st, kind);
    RunsAllDue(w, st);
    DueFromMembers("pool", st.pools, 0, now, Scope(kind, id));
    DueFromMembers("vm", st.vms, 0, now, Scope(kind, id));
    if Valid(st) {
      forall i | 0 <= i < |ps| && ps[i].key == id
        ensures i == IndexOfKey(ps, id)
      {
        IndexIs(ps, id, i);
      }
    }
  }

  /** What backups leave of a policy: everything but its mark, which stays or is a clock reading they took. */
  ghost predicate Carried(w: World, st: Store, after: Store) {
    && st.ticks <= after.ticks
    && forall kind, id ::
         StillThere(w, st.ticks, after.ticks, Get(PoliciesOf(st, kind), id), Get(PoliciesOf(after, kind), id))
  }

  ghost predicate StillThere(w: World, from: nat, until: nat, before: Option<Policy>, after: Option<Policy>) {
    before.Some? ==>
      && after.Some? && after.value == before.value.(lastBackup := after.value.lastBackup)
      && (after.value.lastBackup == before.value.lastBackup
          || exists n: nat :: from <= n < until && after.value.lastBackup == w.clock(n))
  }

  lemma BackupCarries(w: World, st: Store, kind: string, id: string)
    ensures Carried(w, st, Backup(w, st, kind, id).store)
  {
    hide Get, Put;
    var ps, after := PoliciesOf(st, kind), Backup(w, st, kind, id).store;
    var current := Get(ps, id).GetOr(DEFAULT_POLICY);
    var left := if w.archive(st.ticks + 2).Ok? then current.(lastBackup := w.clock(st.ticks + 2)) else current;
    PutProperties(ps, id, left);
    forall k, x
      ensures StillThere(w, st.ticks, after.ticks, Get(PoliciesOf(st, k), x), Get(PoliciesOf(after, k), x))
    {
    }
  }

  lemma CarriedOn(w: World, a: Store, b: Store, c: Store)
    requires Carried(w, a, b) && Carried(w, b, c)
    ensures Carried(w, a, c)
  {
    hide Get, PoliciesOf;
    forall kind, id
      ensures StillThere(w, a.ticks, c.ticks, Get(PoliciesOf(a, kind), id), Get(PoliciesOf(c, kind), id))
    {
      assert StillThere(w, a.ticks, b.ticks, Get(PoliciesOf(a, kind), id), Get(PoliciesOf(b, kind), id));
      assert StillThere(w, b.ticks, c.ticks, Get(PoliciesOf(b, kind), id), Get(PoliciesOf(c, kind), id));
    }
  }

  lemma {:induction false} BackupsCarry(w: World, st: Store, scopes: seq<Scope>)
    ensures Carried(w, st, BackupAll(w, st, scopes).store)
    decreases |scopes|
  {
    if scopes != [] {
      hide Backup, Carried;
      var one := Backup(w, st, scopes[0].kind, scopes[0].id);
      BackupCarries(w, st, scopes[0].kind, scopes[0].id);
      BackupsCarry(w, one.store, scopes[1..]);
      CarriedOn(w, st, one.store, BackupAll(w, one.store, scopes[1..]).store);
    }
  }

  /** What may happen to the store: the scheduler runs, or somebody asks for a backup. */
  datatype Event = Scheduler | Asked(scopeType: string, scopeId: string)

  function Happen(w: World, st: Store, e: Event): Store {
    match e
    case Scheduler => RunScheduled(w, st).store
    case Asked(scopeType, scopeId) => RunNow(w, st, scopeType, scopeId).store
  }

  function After(w: World, st: Store, events: seq<Event>): Store {
    if events == [] then st else Happen(w, After(w, st, events[..|events| - 1]), Last(events))
  }

  lemma {:induction false} EventsCarry(w: World, st: Store, events: seq<Event>)
    ensures Carried(w, st, After(w, st, events))
  {
    hide Backup, BackupAll, Carried, AllDue, Fold, Strip;
    if events != [] {
      var before := After(w, st, events[..|events| - 1]);
      EventsCarry(w, st, events[..|events| - 1]);
      match Last(events) {
        case Scheduler =>
          var started := before.(ticks := before.ticks + 1);
          StartCarries(w, before);
          BackupsCarry(w, started, AllDue(before, w.clock(before.ticks)));
          CarriedOn(w, before, started, RunScheduled(w, before).store);
        case Asked(scopeType, scopeId) =>
          BackupCarries(w, before, Fold(scopeType), Strip(scopeId));
          NothingCarries(w, before);
      }
      CarriedOn(w, st, before, After(w, st, events));
    } else {
      NothingCarries(w, st);
    }
  }

  lemma NothingCarries(w: World, st: Store)
    ensures Carried(w, st, st)
  {
  }

  lemma StartCarries(w: World, st: Store)
    ensures Carried(w, st, st.(ticks := st.ticks + 1))
  {
  }

  /** A policy that was never backed up, or last on a day before the reading `now`. */
  predicate MarkedBefore(mark: string, now: string) {
    mark == [] || (DayNumber(mark).Some? && DayNumber(now).Some? && DayNumber(mark).value < DayNumber(now).value)
  }

  lemma LaterDayIsDue(p: Policy, now: string)
    requires p.enabled && MarkedBefore(p.lastBackup, now)
    ensures Due(p, now)
  {
    hide FromIso, LexLess, NormalSchedule;
    if p.lastBackup != [] {
      var last, today := Prefix(p.lastBackup, 10), Prefix(now, 10);
      SameDaySameText(last, today);
      assert last == Prefix(Prefix(p.lastBackup, 13), 10) && today == Prefix(Prefix(now, 13), 10);
    }
  }

  /** Whatever happened in between: an enabled policy last backed up on an earlier day, if ever, is among the
      scopes of the next scheduler run, on every cadence. */
  lemma DueAgainOnALaterDay(w: World, st: Store, events: seq<Event>, kind: string, id: string)
    requires kind == "pool" || kind == "vm"
    ensures var policy := Get(PoliciesOf(st, kind), id);
            var end := After(w, st, events);
            var now := w.clock(end.ticks);
            && policy.Some? && policy.value.enabled && MarkedBefore(policy.value.lastBackup, now)
            && (forall n: nat :: st.ticks <= n < end.ticks ==> MarkedBefore(w.clock(n), now))
            ==> Scope(kind, id) in Scopes(RunScheduled(w, end).jobs)
  {
    hide Due, RunScheduled, Scopes, MarkedBefore, Get, After, PoliciesOf;
    var end := After(w, st, events);
    EventsCarry(w, st, events);
    var before, after := Get(PoliciesOf(st, kind), id), Get(PoliciesOf(end, kind), id);
    assert StillThere(w, st.ticks, end.ticks, before, after);
    if before.Some? && before.value.enabled && MarkedBefore(after.value.lastBackup, w.clock(end.ticks)) {
      LaterDayIsDue(after.value, w.clock(end.ticks));
    }
    RunsWhatIsDue(w, end, kind, id);
  }
}
