/** Session records and what each session operation does to the list of records. */
module SessionSpec {
  import opened Prelude
  import opened Text

  /** The normalised limits of the service; `cap` 0 means no cap. */
  datatype Limits = Limits(accessTtl: int, refreshTtl: int, idle: int, absolute: int, cap: int)

  function MakeLimits(accessTtl: int, refreshTtl: int, idle: int, absolute: int, cap: int): Limits {
    var a := Max(60, accessTtl);
    var r := Max(a, refreshTtl);
    Limits(a, r, Max(60, idle), Max(r, absolute), Max(0, cap))
  }

  predicate Sane(l: Limits) {
    60 <= l.accessTtl <= l.refreshTtl <= l.absolute && 60 <= l.idle && 0 <= l.cap
  }

  datatype Session = Session(
    id: string,
    username: string,
    role: string,
    tenant: Option<string>,
    access: string,
    refresh: string,
    created: int,
    lastSeen: int,
    accessExpires: int,
    refreshExpires: int,
    absoluteExpires: int,
    remoteAddr: string,
    userAgent: string,
    revoked: bool)

  function Seen(s: Session): int {
    if s.lastSeen != 0 then s.lastSeen else s.created
  }

  /** A zero limit means the limit is not set. */
  predicate Expired(l: Limits, s: Session, now: int, withAccess: bool) {
    || s.revoked
    || (withAccess && s.accessExpires != 0 && now > s.accessExpires)
    || (s.refreshExpires != 0 && now > s.refreshExpires)
    || (s.absoluteExpires != 0 && now > s.absoluteExpires)
    || now - Seen(s) > l.idle
  }

  lemma RevokedIsExpired(l: Limits, s: Session, now: int)
    ensures s.revoked ==> Expired(l, s, now, true) && Expired(l, s, now, false)
  {
  }

  function NewSession(l: Limits, id: string, username: string, role: string, tenant: Option<string>,
                      access: string, refresh: string, remoteAddr: string, userAgent: string, now: int): Session {
    Session(id, username, role, tenant, access, refresh, now, now,
            now + l.accessTtl, now + l.refreshTtl, now + l.absolute, remoteAddr, userAgent, false)
  }

  function Touch(l: Limits, s: Session, now: int): Session {
    s.(lastSeen := now, accessExpires := now + l.accessTtl)
  }

  function Revoke(s: Session): Session {
    s.(revoked := true)
  }

  /** The first index satisfying `p`, or the length of the list. */
  function FirstIndex(ss: seq<Session>, p: Session -> bool): (i: nat)
    ensures i <= |ss|
    ensures forall j :: 0 <= j < i ==> !p(ss[j])
    ensures i < |ss| ==> p(ss[i])
  {
    if ss == [] || p(ss[0]) then 0 else 1 + FirstIndex(ss[1..], p)
  }

  function RevokeWhere(ss: seq<Session>, p: Session -> bool): (r: seq<Session>)
    ensures |r| == |ss|
    ensures forall i :: 0 <= i < |ss| ==> r[i] == if p(ss[i]) then Revoke(ss[i]) else ss[i]
  {
    seq(|ss|, i requires 0 <= i < |ss| => if p(ss[i]) then Revoke(ss[i]) else ss[i])
  }

  // ----- resolving an access token -----

  predicate MatchesAccess(s: Session, token: string) {
    !s.revoked && s.access == token
  }

  function ResolveHit(l: Limits, ss: seq<Session>, token: string, now: int): (i: nat)
    ensures i <= |ss|
  {
    FirstIndex(ss, s => MatchesAccess(s, token) && !Expired(l, s, now, true))
  }

  /** Expired matches before the hit are revoked, the hit is touched, and the rest is left alone. */
  function Resolved(l: Limits, ss: seq<Session>, token: string, now: int): (r: seq<Session>)
    ensures |r| == |ss|
  {
    var hit := ResolveHit(l, ss, token, now);
    seq(|ss|, i requires 0 <= i < |ss| =>
      if i < hit && MatchesAccess(ss[i], token) then Revoke(ss[i])
      else if i == hit then Touch(l, ss[i], now)
      else ss[i])
  }

  // ----- refreshing -----

  function RefreshHit(ss: seq<Session>, token: string): (i: nat)
    ensures i <= |ss|
  {
    FirstIndex(ss, (s: Session) => !s.revoked && s.refresh == token)
  }

  /** Whether the matching session may be continued; `userOk`: its user exists and is enabled. */
  predicate RefreshAccepts(l: Limits, ss: seq<Session>, token: string, now: int, userOk: string -> bool) {
    var hit := RefreshHit(ss, token);
    token != [] && hit < |ss| && !Expired(l, ss[hit], now, false) && userOk(Strip(ss[hit].username))
  }

  function Refreshed(l: Limits, ss: seq<Session>, token: string, now: int, userOk: string -> bool, access: string): (r: seq<Session>)
    ensures |r| == |ss|
  {
    var hit := RefreshHit(ss, token);
    if token == [] || hit == |ss| then ss
    else if RefreshAccepts(l, ss, token, now, userOk) then
      ss[hit := Touch(l, ss[hit], now).(access := access)]
    else
      ss[hit := Revoke(ss[hit])]
  }

  // ----- revoking -----

  predicate RevokeTargets(s: Session, at: string, rt: string) {
    !s.revoked && ((at != [] && s.access == at) || (rt != [] && s.refresh == rt))
  }

  predicate OfUser(s: Session, user: string) {
    Fold(s.username) == user
  }

  // ----- the per-user cap -----

  /** Age order: last seen, then created. */
  predicate NotNewer(ss: seq<Session>, i: nat, j: nat)
    requires i < |ss| && j < |ss|
  {
    Seen(ss[i]) < Seen(ss[j]) || (Seen(ss[i]) == Seen(ss[j]) && ss[i].created <= ss[j].created)
  }

  /** Age order with the position in the list as the last resort, which makes it total. */
  predicate Older(ss: seq<Session>, i: nat, j: nat)
    requires i < |ss| && j < |ss|
  {
    NotNewer(ss, i, j) && (NotNewer(ss, j, i) ==> i < j)
  }

  predicate Positions(ss: seq<Session>, idx: seq<nat>) {
    forall k :: 0 <= k < |idx| ==> idx[k] < |ss|
  }

  ghost predicate Increasing(idx: seq<nat>) {
    forall a, b :: 0 <= a < b < |idx| ==> idx[a] < idx[b]
  }

  ghost predicate SortedByAge(ss: seq<Session>, idx: seq<nat>)
    requires Positions(ss, idx)
  {
    forall a, b :: 0 <= a < b < |idx| ==> Older(ss, idx[a], idx[b])
  }

  function InsertByAge(ss: seq<Session>, k: nat, sorted: seq<nat>): (r: seq<nat>)
    requires k < |ss| && Positions(ss, sorted)
    ensures Positions(ss, r) && multiset(r) == multiset(sorted) + multiset{k}
  {
    if sorted == [] || NotNewer(ss, k, sorted[0]) then [k] + sorted
    else
      assert sorted == [sorted[0]] + sorted[1..];
      [sorted[0]] + InsertByAge(ss, k, sorted[1..])
  }

  /** The stable sort by (last seen, created). */
  function SortByAge(ss: seq<Session>, idx: seq<nat>): (r: seq<nat>)
    requires Positions(ss, idx)
    ensures Positions(ss, r) && multiset(r) == multiset(idx) && |r| == |idx|
  {
    if idx == [] then []
    else
      assert idx == [idx[0]] + idx[1..];
      var r := InsertByAge(ss, idx[0], SortByAge(ss, idx[1..]));
      assert |multiset(r)| == |r| && |multiset(idx)| == |idx|;
      r
  }

  lemma {:induction false} InsertByAgeSorts(ss: seq<Session>, k: nat, sorted: seq<nat>)
    requires k < |ss| && Positions(ss, sorted) && SortedByAge(ss, sorted)
    requires forall x :: x in sorted ==> k < x
    ensures SortedByAge(ss, InsertByAge(ss, k, sorted))
  {
    if sorted == [] {
    } else if NotNewer(ss, k, sorted[0]) {
      forall b | 0 <= b < |sorted|
        ensures Older(ss, k, sorted[b])
      {
        assert sorted[b] in sorted;
      }
    } else {
      var tail := InsertByAge(ss, k, sorted[1..]);
      assert forall x :: x in sorted[1..] ==> x in sorted;
      InsertByAgeSorts(ss, k, sorted[1..]);
      forall b | 0 <= b < |tail|
        ensures Older(ss, sorted[0], tail[b])
      {
        assert tail[b] in multiset(tail);
        assert tail[b] == k || tail[b] in sorted[1..];
        assert sorted[0] in sorted;
      }
    }
  }

  lemma {:induction false} SortByAgeSorts(ss: seq<Session>, idx: seq<nat>)
    requires Positions(ss, idx) && Increasing(idx)
    ensures SortedByAge(ss, SortByAge(ss, idx))
  {
    if idx != [] {
      var tail := SortByAge(ss, idx[1..]);
      SortByAgeSorts(ss, idx[1..]);
      forall x | x in tail
        ensures idx[0] < x
      {
        assert x in multiset(tail);
        assert x in idx[1..];
      }
      InsertByAgeSorts(ss, idx[0], tail);
    }
  }

  /** The positions of the user's sessions that are still usable at `now`, in list order. */
  function ActiveFrom(l: Limits, ss: seq<Session>, user: string, now: int, from: nat): (r: seq<nat>)
    requires from <= |ss|
    ensures Positions(ss, r)
    decreases |ss| - from
  {
    if from == |ss| then []
    else
      (if OfUser(ss[from], user) && !Expired(l, ss[from], now, false) then [from] else [])
      + ActiveFrom(l, ss, user, now, from + 1)
  }

  lemma {:induction false} ActiveFromMembers(l: Limits, ss: seq<Session>, user: string, now: int, from: nat)
    requires from <= |ss|
    ensures forall i :: i in ActiveFrom(l, ss, user, now, from) <==>
              from <= i < |ss| && OfUser(ss[i], user) && !Expired(l, ss[i], now, false)
    decreases |ss| - from
  {
    if from < |ss| {
      hide Expired, OfUser;
      ActiveFromMembers(l, ss, user, now, from + 1);
    }
  }

  lemma {:induction false} ActiveFromIncreases(l: Limits, ss: seq<Session>, user: string, now: int, from: nat)
    requires from <= |ss|
    ensures Increasing(ActiveFrom(l, ss, user, now, from))
    decreases |ss| - from
  {
    if from < |ss| {
      hide Expired, OfUser;
      ActiveFromIncreases(l, ss, user, now, from + 1);
      ActiveFromMembers(l, ss, user, now, from + 1);
      var tail := ActiveFrom(l, ss, user, now, from + 1);
      forall k | 0 <= k < |tail|
        ensures from < tail[k]
      {
        assert tail[k] in tail;
      }
    }
  }

  /** How many sessions must go so that one more fits under the cap. */
  function Excess(l: Limits, active: nat): nat {
    if active < l.cap then 0 else active - l.cap + 1
  }

  /** The user's usable sessions, oldest first. */
  function SortedActive(l: Limits, ss: seq<Session>, user: string, now: int): (r: seq<nat>)
    ensures Positions(ss, r)
  {
    SortByAge(ss, ActiveFrom(l, ss, user, now, 0))
  }

  lemma SortedActiveProperties(l: Limits, ss: seq<Session>, user: string, now: int)
    ensures SortedByAge(ss, SortedActive(l, ss, user, now)) && Distinct(SortedActive(l, ss, user, now))
    ensures forall i :: i in SortedActive(l, ss, user, now) <==>
              0 <= i < |ss| && OfUser(ss[i], user) && !Expired(l, ss[i], now, false)
  {
    hide ActiveFrom, SortByAge, Expired;
    var found := ActiveFrom(l, ss, user, now, 0);
    var sorted := SortByAge(ss, found);
    ActiveFromMembers(l, ss, user, now, 0);
    ActiveFromIncreases(l, ss, user, now, 0);
    SortByAgeSorts(ss, found);
    forall x
      ensures x in sorted <==> x in found
    {
      assert x in sorted <==> x in multiset(sorted);
      assert x in found <==> x in multiset(found);
    }
  }

  function Evicted(l: Limits, ss: seq<Session>, user: string, now: int): (r: seq<nat>)
    requires 0 < l.cap
    ensures Positions(ss, r)
  {
    var sorted := SortedActive(l, ss, user, now);
    sorted[..Excess(l, |sorted|)]
  }

  /** The list after the cap was enforced for `user`, before the new session is appended. */
  function Enforced(l: Limits, ss: seq<Session>, username: string, now: int): (r: seq<Session>)
    ensures |r| == |ss|
  {
    var user := Fold(username);
    if l.cap <= 0 || user == [] then ss
    else
      var evicted := Evicted(l, ss, user, now);
      seq(|ss|, i requires 0 <= i < |ss| =>
        if OfUser(ss[i], user) && (Expired(l, ss[i], now, false) || i in evicted) then Revoke(ss[i]) else ss[i])
  }
}
