/** Backup jobs and policies: retention, scheduling, and what pruning and backup runs do to them. */
module BackupSpec {
  import opened Prelude
  import opened Text
  import opened Assoc
  import opened Calendar

  /** The stored `retention_days`: absent, something `int` rejects, or a number. */
  datatype Retention = Unset | Unreadable | Days(n: int)

  datatype Policy = Policy(enabled: bool, schedule: string, retention: Retention, lastBackup: string)

  const DEFAULT_POLICY := Policy(false, "daily", Days(7), "")

  datatype Job = Job(
    scopeType: string,
    scopeId: string,
    status: string,
    createdAt: string,
    startedAt: string,
    finishedAt: Option<string>,
    archive: string,
    error: string)

  /** An element of the stored job list; only records are looked at. */
  datatype Item = Record(job: Job) | Other

  type Policies = seq<Entry<Policy>>

  // ----- retention -----

  function RetentionDays(p: Option<Policy>): (days: int)
    ensures 1 <= days <= 3650
  {
    if p.Some? && p.value.retention.Days? then Max(1, Min(p.value.retention.n, 3650)) else 7
  }

  /** The retention that governs a job, unless no policy can be looked up for its scope. */
  function GoverningDays(pools: Policies, vms: Policies, job: Job): Option<int> {
    if job.scopeType == "pool" then
      if Strip(job.scopeId) == [] then None else Some(RetentionDays(Get(pools, Strip(job.scopeId))))
    else if job.scopeId != [] && AllDigits(job.scopeId) then
      Some(RetentionDays(Get(vms, NatToString(StringToNat(job.scopeId)))))
    else None
  }

  function Distance(a: int, b: int): int {
    Max(a - b, b - a)
  }

  /** Retention is the number of days between one and ten years that comes nearest to the one stored, and that of
      the default policy when none is. */
  lemma RetentionIsNearest(p: Option<Policy>, days: int)
    requires 1 <= days <= 3650
    ensures p.Some? && p.value.retention.Days? ==>
              Distance(RetentionDays(p), p.value.retention.n) <= Distance(days, p.value.retention.n)
    ensures p.None? || !p.value.retention.Days? ==> Days(RetentionDays(p)) == DEFAULT_POLICY.retention
  {
  }

  /** A job is governed by the policy of its own pool, or of its own machine, whose number may be written with
      leading zeros; other jobs by none. */
  lemma GovernedByItsOwn(pools: Policies, vms: Policies, job: Job, id: nat)
    ensures job.scopeType == "pool" && Strip(job.scopeId) != [] ==>
              GoverningDays(pools, vms, job) == Some(RetentionDays(Get(pools, Strip(job.scopeId))))
    ensures job.scopeType != "pool" && Numbers(job.scopeId, id) ==>
              GoverningDays(pools, vms, job) == Some(RetentionDays(Get(vms, NatToString(id))))
    ensures GoverningDays(pools, vms, job) == None <==>
              if job.scopeType == "pool" then Strip(job.scopeId) == [] else forall n :: !Numbers(job.scopeId, n)
  {
    hide Strip, RetentionDays, Get, NatToString, StringToNat;
    forall n
      ensures Numbers(job.scopeId, n) <==> job.scopeId != [] && AllDigits(job.scopeId) && StringToNat(job.scopeId) == n
    {
      NumbersExactly(job.scopeId, n);
    }
    if job.scopeId != [] && AllDigits(job.scopeId) {
      assert Numbers(job.scopeId, StringToNat(job.scopeId));
    }
  }

  predicate InScope(job: Job, scopeType: string, scopeId: string) {
    (scopeType == [] || job.scopeType == scopeType) && (scopeId == [] || job.scopeId == scopeId)
  }

  /** Calendar days from the job's creation date to `now`. */
  function Age(job: Job, now: string): Option<int> {
    var today, created := FromIso(Prefix(now, 10)), FromIso(Prefix(job.createdAt, 10));
    if today.None? || created.None? then None else Some(today.value - created.value)
  }

  /** What retention may remove. */
  predicate Outlived(pools: Policies, vms: Policies, scopeType: string, scopeId: string, now: string, job: Job) {
    && InScope(job, scopeType, scopeId) && job.status == "success"
    && GoverningDays(pools, vms, job).Some? && Age(job, now).Some?
    && Age(job, now).value >= GoverningDays(pools, vms, job).value
  }

  predicate Prunable(pools: Policies, vms: Policies, scopeType: string, scopeId: string, now: string, item: Item) {
    item.Record? && Outlived(pools, vms, scopeType, scopeId, now, item.job)
  }

  predicate Keepable(pools: Policies, vms: Policies, scopeType: string, scopeId: string, now: string, item: Item) {
    item.Record? && !Outlived(pools, vms, scopeType, scopeId, now, item.job)
  }

  function PruneRule(pools: Policies, vms: Policies, scopeType: string, scopeId: string, now: string): Item -> bool {
    x => Prunable(pools, vms, scopeType, scopeId, now, x)
  }

  function KeepRule(pools: Policies, vms: Policies, scopeType: string, scopeId: string, now: string): Item -> bool {
    x => Keepable(pools, vms, scopeType, scopeId, now, x)
  }

  function PrunedItems(pools: Policies, vms: Policies, scopeType: string, scopeId: string, now: string, items: seq<Item>): seq<Item> {
    Filter(items, PruneRule(pools, vms, scopeType, scopeId, now))
  }

  function KeptItems(pools: Policies, vms: Policies, scopeType: string, scopeId: string, now: string, items: seq<Item>): seq<Item> {
    Filter(items, KeepRule(pools, vms, scopeType, scopeId, now))
  }

  /** The job list after pruning; it is written back only when something was pruned. */
  function Pruned(pools: Policies, vms: Policies, scopeType: string, scopeId: string, now: string, items: seq<Item>): seq<Item> {
    if PrunedItems(pools, vms, scopeType, scopeId, now, items) == [] then items
    else KeptItems(pools, vms, scopeType, scopeId, now, items)
  }

  /** The archives whose deletion is attempted, in order. */
  function Archives(items: seq<Item>): seq<string> {
    if items == [] then []
    else (if items[0].Record? && items[0].job.archive != [] then [items[0].job.archive] else []) + Archives(items[1..])
  }

  /** `a` and `b` merge back into `all` without reordering. */
  ghost predicate Interleave(all: seq<Item>, a: seq<Item>, b: seq<Item>) {
    if all == [] then a == [] && b == []
    else
      || (a != [] && a[0] == all[0] && Interleave(all[1..], a[1..], b))
      || (b != [] && b[0] == all[0] && Interleave(all[1..], a, b[1..]))
  }

  predicate IsRecord(x: Item) {
    x.Record?
  }

  /** Kept and pruned records are the records, in their order. */
  lemma {:induction false} PruneSplits(pools: Policies, vms: Policies, scopeType: string, scopeId: string, now: string, items: seq<Item>)
    ensures Interleave(Filter(items, IsRecord), KeptItems(pools, vms, scopeType, scopeId, now, items),
                       PrunedItems(pools, vms, scopeType, scopeId, now, items))
  {
    SplitInterleaves(items, KeepRule(pools, vms, scopeType, scopeId, now), PruneRule(pools, vms, scopeType, scopeId, now));
  }

  lemma {:induction false} SplitInterleaves(items: seq<Item>, keep: Item -> bool, prune: Item -> bool)
    requires forall x :: IsRecord(x) <==> keep(x) || prune(x)
    requires forall x :: !(keep(x) && prune(x))
    ensures Interleave(Filter(items, IsRecord), Filter(items, keep), Filter(items, prune))
  {
    if items != [] {
      SplitInterleaves(items[1..], keep, prune);
      var x := items[0];
      assert IsRecord(x) <==> keep(x) || prune(x);
      var records, kept, pruned := Filter(items, IsRecord), Filter(items, keep), Filter(items, prune);
      if keep(x) {
        assert records[1..] == Filter(items[1..], IsRecord) && kept[1..] == Filter(items[1..], keep);
      } else if prune(x) {
        assert records[1..] == Filter(items[1..], IsRecord) && pruned[1..] == Filter(items[1..], prune);
      }
    }
  }

  /** The day a text begins with. */
  function DayOf(s: string): Date
    requires FromIso(Prefix(s, 10)).Some?
  {
    DateOf(Prefix(s, 10))
  }

  /** A job's age is how often the page of the calendar was turned since it was created. */
  lemma AgeCountsDays(job: Job, now: string, n: nat)
    requires FromIso(Prefix(job.createdAt, 10)).Some? && FromIso(Prefix(now, 10)).Some?
    ensures Age(job, now) == Some(n) <==> DayOf(now) == DaysLater(DayOf(job.createdAt), n)
  {
    hide Ordinal, DaysLater, Prefix;
    DifferenceCountsDays(DayOf(job.createdAt), DayOf(now), n);
  }

  /** Retention may remove a successful job from the day on that lies as many days after its creation as its
      policy says, and not before. */
  lemma OutlivedFromThatDayOn(pools: Policies, vms: Policies, scopeType: string, scopeId: string, now: string, job: Job, days: nat)
    requires FromIso(Prefix(job.createdAt, 10)).Some? && FromIso(Prefix(now, 10)).Some?
    requires InScope(job, scopeType, scopeId) && job.status == "success" && GoverningDays(pools, vms, job) == Some(days)
    ensures Outlived(pools, vms, scopeType, scopeId, now, job) <==>
              !Earlier(DayOf(now), DaysLater(DayOf(job.createdAt), days))
  {
    hide Ordinal, DaysLater, Prefix, GoverningDays, Earlier;
    DifferenceCountsDays(DayOf(job.createdAt), DayOf(now), days);
  }

  /** What outlived its retention once has outlived it at every later clock reading. */
  lemma OutlivedStays(pools: Policies, vms: Policies, scopeType: string, scopeId: string, t1: string, t2: string, job: Job)
    requires AtMost(t1, t2) && FromIso(Prefix(t1, 10)).Some? && FromIso(Prefix(t2, 10)).Some?
    ensures Outlived(pools, vms, scopeType, scopeId, t1, job) ==> Outlived(pools, vms, scopeType, scopeId, t2, job)
  {
    hide FromIso, Prefix, GoverningDays;
    LaterReadingLaterDay(t1, t2);
  }

  /** Pruning now and again later leaves what pruning later alone leaves. */
  lemma PruneComposes(pools: Policies, vms: Policies, scopeType: string, scopeId: string, t1: string, t2: string, items: seq<Item>)
    requires AtMost(t1, t2) && FromIso(Prefix(t1, 10)).Some? && FromIso(Prefix(t2, 10)).Some?
    ensures Pruned(pools, vms, scopeType, scopeId, t2, Pruned(pools, vms, scopeType, scopeId, t1, items))
            == Pruned(pools, vms, scopeType, scopeId, t2, items)
  {
    hide Outlived;
    var keep1 := KeepRule(pools, vms, scopeType, scopeId, t1);
    var keep2 := KeepRule(pools, vms, scopeType, scopeId, t2);
    var prune1 := PruneRule(pools, vms, scopeType, scopeId, t1);
    var prune2 := PruneRule(pools, vms, scopeType, scopeId, t2);
    forall x: Item
      ensures prune1(x) ==> prune2(x)
      ensures keep2(x) ==> keep1(x)
    {
      if x.Record? { OutlivedStays(pools, vms, scopeType, scopeId, t1, t2, x.job); }
    }
    if Filter(items, prune1) != [] {
      var mid := Filter(items, keep1);
      FilterCompose(items, keep1, keep2);
      FilterMembers(items, prune1);
      FilterMembers(items, prune2);
      FilterMembers(items, keep1);
      FilterMembers(mid, prune2);
      assert Filter(items, prune1)[0] in Filter(items, prune1);
      assert Filter(items, prune1)[0] in Filter(items, prune2);
      if Filter(mid, prune2) == [] {
        forall x | x in mid
          ensures keep2(x)
        {
          assert x !in Filter(mid, prune2);
        }
        FilterAll(mid, keep2);
      }
    }
  }

  // ----- scheduling -----

  function NormalSchedule(s: string): string {
    var n := Fold(if s == [] then "daily" else s);
    if n == "hourly" || n == "daily" || n == "weekly" then n else "daily"
  }

  predicate ScheduleDue(last: string, schedule: string, now: string) {
    || last == []
    || (if schedule == "hourly" then Prefix(now, 13) != Prefix(last, 13)
        else if schedule == "weekly" then
          Prefix(now, 10) != Prefix(last, 10) && LexLess(Prefix(last, 10), Prefix(now, 10))
        else Prefix(now, 10) != Prefix(last, 10))
  }

  predicate Due(p: Policy, now: string) {
    p.enabled && ScheduleDue(p.lastBackup, NormalSchedule(p.schedule), now)
  }

  /** The outside world: the n-th clock reading, and what an archive attempt begun after n readings yields. */
  datatype World = World(clock: nat -> string, archive: nat -> Result<string, string>)

  datatype Store = Store(pools: Policies, vms: Policies, jobs: seq<Item>, ticks: nat)

  function PoliciesOf(st: Store, kind: string): Policies {
    if kind == "pool" then st.pools else st.vms
  }

  function WithPolicies(st: Store, kind: string, ps: Policies): Store {
    if kind == "pool" then st.(pools := ps) else st.(vms := ps)
  }

  datatype Single = Single(store: Store, job: Job)

  /** One backup of a known scope. The policy's `last_backup` moves only when the archive was made. */
  function Backup(w: World, st: Store, kind: string, id: string): Single {
    var current := Get(PoliciesOf(st, kind), id).GetOr(DEFAULT_POLICY);
    var n := st.ticks;
    var created, started := w.clock(n), w.clock(n + 1);
    match w.archive(n + 2)
    case Ok(name) =>
      var job := Job(kind, id, "success", created, started, Some(w.clock(n + 3)), name, "");
      var ps := Put(PoliciesOf(st, kind), id, current.(lastBackup := w.clock(n + 2)));
      Single(WithPolicies(st, kind, ps).(jobs := st.jobs + [Record(job)], ticks := n + 4), job)
    case Err(e) =>
      var job := Job(kind, id, "error", created, started, Some(w.clock(n + 2)), "", e);
      var ps := Put(PoliciesOf(st, kind), id, current);
      Single(WithPolicies(st, kind, ps).(jobs := st.jobs + [Record(job)], ticks := n + 3), job)
  }

  datatype BackupError = UnknownScopeType | MissingScopeId

  datatype Attempt = Attempt(store: Store, result: Result<Job, BackupError>)

  function RunNow(w: World, st: Store, scopeType: string, scopeId: string): Attempt {
    var kind, id := Fold(scopeType), Strip(scopeId);
    if kind != "pool" && kind != "vm" then Attempt(st, Err(UnknownScopeType))
    else if id == [] then Attempt(st, Err(MissingScopeId))
    else
      var one := Backup(w, st, kind, id);
      Attempt(one.store, Ok(one.job))
  }

  datatype Scope = Scope(kind: string, id: string)

  /** The due scopes among the policies from position `k` on, in order. */
  function DueFrom(kind: string, ps: Policies, k: nat, now: string): seq<Scope>
    requires k <= |ps|
    decreases |ps| - k
  {
    if k == |ps| then []
    else if Due(ps[k].value, now) then [Scope(kind, ps[k].key)] + DueFrom(kind, ps, k + 1, now)
    else DueFrom(kind, ps, k + 1, now)
  }

  function AllDue(st: Store, now: string): seq<Scope> {
    DueFrom("pool", st.pools, 0, now) + DueFrom("vm", st.vms, 0, now)
  }

  datatype Batch = Batch(store: Store, jobs: seq<Job>)

  function BackupAll(w: World, st: Store, scopes: seq<Scope>): Batch
    decreases |scopes|
  {
    if scopes == [] then Batch(st, [])
    else
      var one := Backup(w, st, scopes[0].kind, scopes[0].id);
      var rest := BackupAll(w, one.store, scopes[1..]);
      Batch(rest.store, [one.job] + rest.jobs)
  }

  /** The scheduler reads the clock and the policies once, then backs up every due scope in turn. */
  function RunScheduled(w: World, st: Store): Batch {
    BackupAll(w, st.(ticks := st.ticks + 1), AllDue(st, w.clock(st.ticks)))
  }
}
