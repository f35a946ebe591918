/** The catalog updater's bisecting batch lookup, match selection and de-duplication. */
module CatalogLookup {
  import opened Prelude

  /** What one multi-query request yields: one result per query (None when it is no dictionary with a
      list of hits), an HTTP error, or any other exception. */
  datatype Reply<H> = Results(hits: seq<Option<seq<H>>>) | HttpError | OtherError

  /** The n-th request, asking about games `lo` up to `hi`. */
  type Api<!H> = (nat, nat, nat) -> Reply<H>

  /** One request and its reply. */
  datatype Call<H> = Call(lo: nat, hi: nat, reply: Reply<H>)

  /** Slots for the games of a batch, or None when an exception escaped, and every request made. */
  datatype Lookup<H> = Lookup(slots: Option<seq<seq<H>>>, log: seq<Call<H>>)

  function SlotOf<H>(hits: seq<Option<seq<H>>>, offset: nat): seq<H> {
    if offset < |hits| then hits[offset].GetOr([]) else []
  }

  /** The request settles game `i`: it asked about it and was answered, or it asked about it alone and
      was refused. */
  predicate Settles<H>(c: Call<H>, i: nat) {
    c.lo <= i < c.hi && (c.reply.Results? || (c.reply.HttpError? && c.hi - c.lo == 1))
  }

  /** What the settling request says about game `i`: the answer at its own offset, or nothing. */
  function Yield<H>(c: Call<H>, i: nat): seq<H>
    requires Settles(c, i)
  {
    if c.reply.Results? then SlotOf(c.reply.hits, i - c.lo) else []
  }

  ghost predicate OwnSlot<H>(slot: seq<H>, i: nat, log: seq<Call<H>>) {
    exists k :: 0 <= k < |log| && Settles(log[k], i) && slot == Yield(log[k], i)
  }

  /** The log is the requests numbered from `first` on, all about games in the range. */
  ghost predicate Logged<H>(api: Api<H>, log: seq<Call<H>>, first: nat, lo: nat, hi: nat) {
    forall k: nat :: k < |log| ==>
      lo <= log[k].lo < log[k].hi <= hi && log[k].reply == api(first + k, log[k].lo, log[k].hi)
  }

  ghost predicate SettledOnce<H>(log: seq<Call<H>>) {
    forall i: nat, j: nat, k: nat :: j < |log| && k < |log| && Settles(log[j], i) && Settles(log[k], i) ==> j == k
  }

  ghost predicate Aligned<H>(r: Lookup<H>, lo: nat, hi: nat)
    requires lo <= hi
  {
    r.slots.Some? ==>
      && |r.slots.value| == hi - lo
      && forall i: nat :: i < hi - lo ==> OwnSlot(r.slots.value[i], lo + i, r.log)
  }

  ghost predicate Escaped<H>(log: seq<Call<H>>) {
    exists k :: 0 <= k < |log| && log[k].reply.OtherError?
  }

  /** A refused batch is split in two; a refused single lookup gives an empty slot. Whatever is refused,
      the recursion ends, each game is settled by one request, and its slot is what that request says
      about it. Only an exception other than an HTTP error leaves no result. */
  method SearchGmgHits<H>(api: Api<H>, lo: nat, hi: nat, first: nat) returns (r: Lookup<H>)
    requires lo <= hi
    ensures Aligned(r, lo, hi) && Logged(api, r.log, first, lo, hi) && SettledOnce(r.log)
    ensures r.slots.None? <==> Escaped(r.log)
    ensures |r.log| <= if lo == hi then 0 else 2 * (hi - lo) - 1
    decreases hi - lo
  {
    if lo == hi {
      return Lookup(Some([]), []);
    }
    var reply := api(first, lo, hi);
    var call := Call(lo, hi, reply);
    if reply.OtherError? {
      r := Lookup(None, [call]);
      assert r.log[0].reply.OtherError?;
      return;
    }
    if reply.HttpError? {
      if hi - lo == 1 {
        r := Lookup(Some([[]]), [call]);
        assert Settles(r.log[0], lo) && Yield(r.log[0], lo) == [];
        return;
      }
      var mid := lo + Max(1, (hi - lo) / 2);
      var left := SearchGmgHits(api, lo, mid, first + 1);
      if left.slots.None? {
        r := Lookup(None, [call] + left.log);
        LogAfter(api, call, left.log, first, lo, mid, hi);
        return;
      }
      var right := SearchGmgHits(api, mid, hi, first + 1 + |left.log|);
      r := Joined(api, call, lo, mid, hi, first, left, right);
      return;
    }
    var slots: seq<seq<H>> := [];
    for offset := 0 to hi - lo
      invariant |slots| == offset
      invariant forall i: nat :: i < offset ==> slots[i] == SlotOf(reply.hits, i)
    {
      var hits: seq<H> := [];
      if offset < |reply.hits| && reply.hits[offset].Some? {
        hits := reply.hits[offset].value;
      }
      slots := slots + [hits];
    }
    r := Lookup(Some(slots), [call]);
    forall i: nat | i < hi - lo
      ensures OwnSlot(slots[i], lo + i, r.log)
    {
      assert Settles(r.log[0], lo + i) && slots[i] == Yield(r.log[0], lo + i);
    }
  }

  method Joined<H>(api: Api<H>, call: Call<H>, lo: nat, mid: nat, hi: nat, first: nat, left: Lookup<H>, right: Lookup<H>)
    returns (r: Lookup<H>)
    requires lo < mid < hi && call == Call(lo, hi, HttpError) && api(first, lo, hi) == HttpError
    requires Aligned(left, lo, mid) && Logged(api, left.log, first + 1, lo, mid) && SettledOnce(left.log)
    requires left.slots.Some? && !Escaped(left.log)
    requires Aligned(right, mid, hi) && Logged(api, right.log, first + 1 + |left.log|, mid, hi) && SettledOnce(right.log)
    requires right.slots.None? <==> Escaped(right.log)
    ensures r.log == [call] + left.log + right.log
    ensures r.slots == if right.slots.None? then None else Some(left.slots.value + right.slots.value)
    ensures Aligned(r, lo, hi) && Logged(api, r.log, first, lo, hi) && SettledOnce(r.log)
    ensures r.slots.None? <==> Escaped(r.log)
  {
    hide Settles, Yield, SettledOnce, Logged, Escaped;
    var slots := if right.slots.None? then None else Some(left.slots.value + right.slots.value);
    r := Lookup(slots, [call] + left.log + right.log);
    JoinedLog(api, call, left.log, right.log, first, lo, mid, hi);
    JoinedEscapes(call, left.log, right.log);
    if slots.Some? {
      forall i: nat | i < hi - lo
        ensures OwnSlot(slots.value[i], lo + i, r.log)
      {
        if i < mid - lo {
          LongerLog(left.slots.value[i], lo + i, left.log, [call], right.log);
        } else {
          var j: nat := i - (mid - lo);
          assert OwnSlot(right.slots.value[j], mid + j, right.log);
          LongerLog(right.slots.value[j], lo + i, right.log, [call] + left.log, []);
          assert [call] + left.log + right.log + [] == r.log;
        }
      }
    }
  }

  lemma LogAfter<H>(api: Api<H>, call: Call<H>, left: seq<Call<H>>, first: nat, lo: nat, mid: nat, hi: nat)
    requires lo < mid < hi && call == Call(lo, hi, HttpError) && api(first, lo, hi) == HttpError
    requires Logged(api, left, first + 1, lo, mid) && SettledOnce(left)
    ensures Logged(api, [call] + left, first, lo, hi) && SettledOnce([call] + left)
    ensures Escaped([call] + left) <==> Escaped(left)
  {
    JoinedEscapes(call, left, []);
    JoinedLog(api, call, left, [], first, lo, mid, hi);
    assert [call] + left + [] == [call] + left;
  }

  lemma JoinedEscapes<H>(call: Call<H>, left: seq<Call<H>>, right: seq<Call<H>>)
    requires !call.reply.OtherError?
    ensures Escaped([call] + left + right) <==> Escaped(left) || Escaped(right)
  {
    var all := [call] + left + right;
    assert forall k :: 0 <= k < |left| ==> all[1 + k] == left[k];
    assert forall k :: 0 <= k < |right| ==> all[1 + |left| + k] == right[k];
  }

  lemma JoinedLog<H>(api: Api<H>, call: Call<H>, left: seq<Call<H>>, right: seq<Call<H>>, first: nat, lo: nat, mid: nat, hi: nat)
    requires lo < mid < hi && call == Call(lo, hi, HttpError) && api(first, lo, hi) == HttpError
    requires Logged(api, left, first + 1, lo, mid) && SettledOnce(left)
    requires Logged(api, right, first + 1 + |left|, mid, hi) && SettledOnce(right)
    ensures Logged(api, [call] + left + right, first, lo, hi) && SettledOnce([call] + left + right)
  {
    var all := [call] + left + right;
    forall k: nat | k < |all|
      ensures lo <= all[k].lo < all[k].hi <= hi && all[k].reply == api(first + k, all[k].lo, all[k].hi)
      ensures k == 0 ==> forall i: nat :: !Settles(all[k], i)
      ensures 1 <= k <= |left| ==> all[k] == left[k - 1] && all[k].hi <= mid
      ensures |left| < k ==> all[k] == right[k - 1 - |left|] && mid <= all[k].lo
    {
    }
  }

  lemma LongerLog<H>(slot: seq<H>, i: nat, log: seq<Call<H>>, before: seq<Call<H>>, after: seq<Call<H>>)
    requires OwnSlot(slot, i, log)
    ensures OwnSlot(slot, i, before + log + after)
  {
    var k :| 0 <= k < |log| && Settles(log[k], i) && slot == Yield(log[k], i);
    assert (before + log + after)[|before| + k] == log[k];
  }

  // ----- selection -----

  /** `r` is the first hit of greatest score, provided that score reaches 500. */
  ghost predicate BestMatch<H>(hits: seq<H>, score: H -> int, r: Option<H>) {
    match r
    case None => forall i :: 0 <= i < |hits| ==> score(hits[i]) < 500
    case Some(h) =>
      exists b :: 0 <= b < |hits| && hits[b] == h && score(h) >= 500
        && (forall i :: 0 <= i < |hits| ==> score(hits[i]) <= score(h))
        && (forall i :: 0 <= i < b ==> score(hits[i]) < score(h))
  }

  method SelectGmgMatch<H>(hits: seq<H>, score: H -> int) returns (r: Option<H>)
    ensures BestMatch(hits, score, r)
  {
    var bestHit: Option<H> := None;
    var bestScore := -1;
    ghost var best := -1;
    for i := 0 to |hits|
      invariant -1 <= best < i && -1 <= bestScore
      invariant forall j :: 0 <= j < i ==> score(hits[j]) <= bestScore
      invariant best == -1 ==> bestHit == None && bestScore == -1
      invariant best >= 0 ==> bestHit == Some(hits[best]) && bestScore == score(hits[best])
      invariant forall j :: 0 <= j < best ==> score(hits[j]) < bestScore
    {
      var currentScore := score(hits[i]);
      if currentScore > bestScore {
        bestScore := currentScore;
        bestHit := Some(hits[i]);
        best := i;
      }
    }
    r := if bestScore < 500 then None else bestHit;
  }

  // ----- de-duplication -----

  /** Position `i` is the first with its key. */
  predicate FirstOfKey<T>(items: seq<T>, key: T -> string, i: nat)
    requires i < |items|
  {
    forall j :: 0 <= j < i ==> key(items[j]) != key(items[i])
  }

  function Deduped<T>(items: seq<T>, key: T -> string, n: nat): seq<T>
    requires n <= |items|
  {
    if n == 0 then []
    else if FirstOfKey(items, key, n - 1) then Deduped(items, key, n - 1) + [items[n - 1]]
    else Deduped(items, key, n - 1)
  }

  method Dedupe<T>(items: seq<T>, key: T -> string) returns (r: seq<T>)
    ensures r == Deduped(items, key, |items|)
  {
    r := [];
    var seen: set<string> := {};
    for i := 0 to |items|
      invariant r == Deduped(items, key, i)
      invariant forall k :: k in seen <==> exists j :: 0 <= j < i && key(items[j]) == k
    {
      if key(items[i]) !in seen {
        seen := seen + {key(items[i])};
        r := r + [items[i]];
      }
    }
  }

  lemma {:induction false} DedupedOrigin<T>(items: seq<T>, key: T -> string, n: nat, a: nat) returns (i: nat)
    requires n <= |items| && a < |Deduped(items, key, n)|
    ensures i < n && Deduped(items, key, n)[a] == items[i] && FirstOfKey(items, key, i)
  {
    hide FirstOfKey;
    if FirstOfKey(items, key, n - 1) && a == |Deduped(items, key, n - 1)| {
      i := n - 1;
    } else {
      i := DedupedOrigin(items, key, n - 1, a);
    }
  }

  lemma {:induction false} DedupedCovers<T>(items: seq<T>, key: T -> string, n: nat, i: nat) returns (a: nat)
    requires i < n <= |items|
    ensures a < |Deduped(items, key, n)| && key(Deduped(items, key, n)[a]) == key(items[i])
  {
    if i < n - 1 {
      a := DedupedCovers(items, key, n - 1, i);
    } else if FirstOfKey(items, key, n - 1) {
      a := |Deduped(items, key, n - 1)|;
    } else {
      var j: nat :| j < n - 1 && key(items[j]) == key(items[n - 1]);
      a := DedupedCovers(items, key, n - 1, j);
    }
  }

  /** The result has one entry per key, each the first item of its key, in order of first appearance. */
  lemma {:induction false} DedupedInOrder<T>(items: seq<T>, key: T -> string, n: nat, a: nat, b: nat) returns (i: nat, j: nat)
    requires n <= |items| && a < b < |Deduped(items, key, n)|
    ensures i < j < n && Deduped(items, key, n)[a] == items[i] && Deduped(items, key, n)[b] == items[j]
    ensures FirstOfKey(items, key, i) && FirstOfKey(items, key, j) && key(items[i]) != key(items[j])
    decreases n
  {
    hide FirstOfKey;
    var before := Deduped(items, key, n - 1);
    if b < |before| {
      i, j := DedupedInOrder(items, key, n - 1, a, b);
    } else {
      i := DedupedOrigin(items, key, n - 1, a);
      j := n - 1;
      EarlierKeyDiffers(items, key, i, n - 1);
    }
  }

  lemma EarlierKeyDiffers<T>(items: seq<T>, key: T -> string, i: nat, n: nat)
    requires i < n < |items| && FirstOfKey(items, key, n)
    ensures key(items[i]) != key(items[n])
  {
  }

  // ----- the whole catalog -----

  /** The entry built for a game, from its match or from the search fallback. */
  datatype CatalogEntry<H> = CatalogEntry(game: nat, hit: Option<H>)

  /** Entry `k` is for game `k`, with the best match among the hits of that game's own query. */
  ghost predicate Built<H>(found: seq<CatalogEntry<H>>, score: (nat, H) -> int, log: seq<Call<H>>) {
    forall k: nat :: k < |found| ==> found[k].game == k && BuiltFrom(found[k], score, log)
  }

  ghost predicate BuiltFrom<H>(e: CatalogEntry<H>, score: (nat, H) -> int, log: seq<Call<H>>) {
    exists k :: 0 <= k < |log| && Settles(log[k], e.game) && BestMatch(Yield(log[k], e.game), h => score(e.game, h), e.hit)
  }

  /** The limit is looked at after an entry was added, and zero means none. */
  predicate Full<H>(found: seq<CatalogEntry<H>>, limit: int) {
    limit != 0 && |found| >= Max(1, limit)
  }

  /** What is returned of the entries found: the duplicates go only when the limit was not reached. */
  function Listed<H>(found: seq<CatalogEntry<H>>, key: CatalogEntry<H> -> string, limit: int): seq<CatalogEntry<H>> {
    if Full(found, limit) then found else Deduped(found, key, |found|)
  }

  /** The key of an entry is made from its game's title alone. */
  function ByGame<H>(keyOf: nat -> string): CatalogEntry<H> -> string {
    (e: CatalogEntry<H>) => keyOf(e.game)
  }

  ghost predicate KeysDiffer<H>(entries: seq<CatalogEntry<H>>, key: CatalogEntry<H> -> string) {
    forall a, b :: 0 <= a < b < |entries| ==> key(entries[a]) != key(entries[b])
  }

  lemma ListedDiffer<H>(found: seq<CatalogEntry<H>>, key: CatalogEntry<H> -> string, limit: int)
    ensures KeysDiffer(Listed(found, key, limit), key) <==> !Full(found, limit) || KeysDiffer(found, key)
  {
    var kept := Deduped(found, key, |found|);
    forall a, b | 0 <= a < b < |kept|
      ensures key(kept[a]) != key(kept[b])
    {
      var i, j := DedupedInOrder(found, key, |found|, a, b);
    }
  }

  /** How many entries a call finds: one per game, up to the limit. */
  function Reach(games: nat, limit: int): nat {
    if limit == 0 then games else Min(games, Max(1, limit))
  }

  ghost predicate FirstDiffer(keyOf: nat -> string, n: int) {
    forall a: nat, b: nat :: a < b < n ==> keyOf(a) != keyOf(b)
  }

  /** The returned entries have distinct keys exactly when there is no limit, there are fewer games than the
      limit, or the first games up to the limit have distinct keys. */
  lemma DistinctExactly<H>(found: seq<CatalogEntry<H>>, keyOf: nat -> string, games: nat, limit: int)
    requires |found| == Reach(games, limit) && forall k: nat :: k < |found| ==> found[k].game == k
    ensures KeysDiffer(Listed(found, ByGame(keyOf), limit), ByGame(keyOf)) <==>
              limit == 0 || games < Max(1, limit) || FirstDiffer(keyOf, Max(1, limit))
  {
    var key := ByGame<H>(keyOf);
    ListedDiffer(found, key, limit);
    assert forall k: nat :: k < |found| ==> key(found[k]) == keyOf(k);
    if Full(found, limit) {
      if KeysDiffer(found, key) {
        forall a: nat, b: nat | a < b < Max(1, limit)
          ensures keyOf(a) != keyOf(b)
        {
          assert key(found[a]) != key(found[b]);
        }
      }
    }
  }

  /** Two games of one key and a limit of two: both are returned. */
  method DuplicatesAtTheLimit() returns (r: Option<seq<CatalogEntry<int>>>)
    ensures r == Some([CatalogEntry(0, None), CatalogEntry(1, None)])
    ensures !KeysDiffer(r.value, ByGame(_ => "same"))
  {
    var silent: Api<int> := (n, lo, hi) => Results([]);
    var found, log;
    r, found, log := BuildCatalog(silent, 2, 24, 2, (game, hit) => 0, _ => "same");
    assert !Escaped(log);
    assert BuiltFrom(found[0], (game, hit) => 0, log) && BuiltFrom(found[1], (game, hit) => 0, log);
    assert r.value == found == [found[0], found[1]];
  }

  lemma BuiltLater<H>(found: seq<CatalogEntry<H>>, score: (nat, H) -> int, log: seq<Call<H>>, more: seq<Call<H>>)
    requires Built(found, score, log)
    ensures Built(found, score, log + more)
  {
    forall k: nat | k < |found|
      ensures BuiltFrom(found[k], score, log + more)
    {
      var e := found[k];
      assert BuiltFrom(e, score, log);
      var c :| 0 <= c < |log| && Settles(log[c], e.game) && BestMatch(Yield(log[c], e.game), h => score(e.game, h), e.hit);
      assert (log + more)[c] == log[c];
    }
  }

  lemma LaterBatch<H>(log: seq<Call<H>>, batch: Lookup<H>, lo: nat, hi: nat)
    requires lo <= hi && Aligned(batch, lo, hi)
    ensures Escaped(log + batch.log) <==> Escaped(log) || Escaped(batch.log)
    ensures batch.slots.Some? ==>
              forall i: nat :: i < hi - lo ==> OwnSlot(batch.slots.value[i], lo + i, log + batch.log)
  {
    assert forall k :: 0 <= k < |log| ==> (log + batch.log)[k] == log[k];
    assert forall k :: 0 <= k < |batch.log| ==> (log + batch.log)[|log| + k] == batch.log[k];
    if batch.slots.Some? {
      forall i: nat | i < hi - lo
        ensures OwnSlot(batch.slots.value[i], lo + i, log + batch.log)
      {
        LongerLog(batch.slots.value[i], lo + i, batch.log, log, []);
        assert log + batch.log + [] == log + batch.log;
      }
    }
  }

  lemma LoggedLater<H>(api: Api<H>, log: seq<Call<H>>, more: seq<Call<H>>, lo: nat, hi: nat)
    requires lo <= hi && Logged(api, log, 0, 0, lo) && SettledOnce(log)
    requires Logged(api, more, |log|, lo, hi) && SettledOnce(more)
    ensures Logged(api, log + more, 0, 0, hi) && SettledOnce(log + more)
  {
    var all := log + more;
    forall k: nat | k < |all|
      ensures all[k].lo < all[k].hi <= hi && all[k].reply == api(k, all[k].lo, all[k].hi)
      ensures k < |log| ==> all[k] == log[k] && all[k].hi <= lo
      ensures |log| <= k ==> all[k] == more[k - |log|] && lo <= all[k].lo
    {
    }
  }

  /** One batch of games, up to the limit. */
  method AddBatch<H>(found: seq<CatalogEntry<H>>, results: seq<seq<H>>, score: (nat, H) -> int, limit: int, ghost log: seq<Call<H>>)
    returns (r: seq<CatalogEntry<H>>)
    requires Built(found, score, log) && !Full(found, limit)
    requires forall i: nat :: i < |results| ==> OwnSlot(results[i], |found| + i, log)
    ensures Built(r, score, log)
    ensures |r| == if limit == 0 then |found| + |results| else Min(|found| + |results|, Max(1, limit))
  {
    hide BestMatch, Settles, Yield;
    r := found;
    for offset := 0 to |results|
      invariant |r| == |found| + offset && Built(r, score, log) && !Full(r, limit)
    {
      var game := |r|;
      var hit := SelectGmgMatch(results[offset], h => score(game, h));
      var e := CatalogEntry(game, hit);
      assert BuiltFrom(e, score, log) by { assert OwnSlot(results[offset], e.game, log); }
      r := r + [e];
      if Full(r, limit) {
        return;
      }
    }
  }

  lemma InGameOrder<H>(found: seq<CatalogEntry<H>>, score: (nat, H) -> int, log: seq<Call<H>>)
    requires Built(found, score, log)
    ensures forall k: nat :: k < |found| ==> found[k].game == k
  {
  }

  lemma LoggedWithin<H>(api: Api<H>, log: seq<Call<H>>, hi: nat, games: nat)
    requires Logged(api, log, 0, 0, hi) && hi <= games
    ensures Logged(api, log, 0, 0, games)
  {
  }

  lemma NothingBuilt<H>(api: Api<H>, score: (nat, H) -> int)
    ensures Built([], score, []) && Logged(api, [], 0, 0, 0) && SettledOnce<H>([]) && !Escaped<H>([])
    ensures forall games: nat :: Logged(api, [], 0, 0, games)
  {
  }

  /** The catalog, None when an exception escapes: entry by entry it is aligned with the games. It is
      de-duplicated by key exactly when the limit was not reached. */
  method BuildCatalog<H>(api: Api<H>, games: nat, batchSize: int, limit: int, score: (nat, H) -> int, keyOf: nat -> string)
    returns (r: Option<seq<CatalogEntry<H>>>, found: seq<CatalogEntry<H>>, log: seq<Call<H>>)
    ensures Built(found, score, log)
    ensures r.Some? ==> r.value == Listed(found, ByGame(keyOf), limit)
    ensures r.Some? && 0 < batchSize ==> |found| == Reach(games, limit)
    ensures r.Some? && 0 < batchSize ==>
              (KeysDiffer(r.value, ByGame(keyOf)) <==>
                 limit == 0 || games < Max(1, limit) || FirstDiffer(keyOf, Max(1, limit)))
    ensures r.Some? && batchSize < 0 ==> r.value == []
    ensures 0 < games ==> (r.None? <==> batchSize == 0 || Escaped(log))
    ensures Logged(api, log, 0, 0, games) && SettledOnce(log)
  {
    hide KeysDiffer, FirstDiffer, Aligned, OwnSlot, Built, Logged, SettledOnce, Escaped;
    var catalog: seq<CatalogEntry<H>> := [];
    found, log := [], [];
    NothingBuilt(api, score);
    if games == 0 {
      DistinctExactly(found, keyOf, games, limit);
      return Some([]), found, log;
    }
    if batchSize == 0 {
      return None, found, log;
    }
    var batchStart := 0;
    var requests := 0;
    while 0 < batchSize && batchStart < games
      invariant batchStart <= games && |catalog| == batchStart && found == catalog
      invariant batchSize < 0 ==> batchStart == 0
      invariant requests == |log| && !Escaped(log) && SettledOnce(log)
      invariant Logged(api, log, 0, 0, batchStart) && Logged(api, log, 0, 0, games)
      invariant Built(catalog, score, log) && !Full(catalog, limit)
      decreases games - batchStart
    {
      var end := Min(games, batchStart + batchSize);
      var batch := SearchGmgHits(api, batchStart, end, requests);
      BuiltLater(catalog, score, log, batch.log);
      LaterBatch(log, batch, batchStart, end);
      LoggedLater(api, log, batch.log, batchStart, end);
      log := log + batch.log;
      LoggedWithin(api, log, end, games);
      requests := requests + |batch.log|;
      if batch.slots.None? {
        return None, found, log;
      }
      catalog := AddBatch(catalog, batch.slots.value, score, limit, log);
      found := catalog;
      if Full(catalog, limit) {
        InGameOrder(found, score, log);
        DistinctExactly(found, keyOf, games, limit);
        return Some(catalog), found, log;
      }
      batchStart := end;
    }
    InGameOrder(found, score, log);
    if 0 < batchSize { DistinctExactly(found, keyOf, games, limit); }
    var deduped := Dedupe(catalog, ByGame(keyOf));
    r := Some(deduped);
  }
}
