/** Anti-affinity placement: which node a group member may go to, and what any sequence of placements keeps. */
module AntiAffinity {
  import opened Prelude
  import opened Text

  datatype NodeItem = NodeItem(name: string, node: string, status: string)

  /** `group` is the configured group, or None when reading the configuration fails. */
  datatype Vm = Vm(vmid: int, node: string, group: Option<string>)

  datatype PlacementError = GroupRequired | NoOnlineNodes | AllOccupied

  // ----- sorted names -----

  ghost predicate SortedNames(s: seq<string>) {
    forall i, j :: 0 <= i < j < |s| ==> !LexLess(s[j], s[i])
  }

  function InsertName(x: string, s: seq<string>): (r: seq<string>)
    ensures multiset(r) == multiset(s) + multiset{x}
  {
    if s == [] || !LexLess(s[0], x) then [x] + s
    else
      assert s == [s[0]] + s[1..];
      [s[0]] + InsertName(x, s[1..])
  }

  function SortNames(s: seq<string>): (r: seq<string>)
    ensures multiset(r) == multiset(s)
  {
    if s == [] then []
    else
      assert s == [s[0]] + s[1..];
      InsertName(s[0], SortNames(s[1..]))
  }

  lemma NotLessTransitive(a: string, b: string, c: string)
    requires !LexLess(b, a) && !LexLess(c, b)
    ensures !LexLess(c, a)
  {
    LexTotal(a, b);
    LexTotal(b, c);
    LexTotal(a, c);
    if LexLess(a, b) && LexLess(b, c) { LexTransitive(a, b, c); }
  }

  lemma {:induction false} InsertSorts(x: string, s: seq<string>)
    requires SortedNames(s)
    ensures SortedNames(InsertName(x, s))
  {
    hide LexLess;
    if s == [] {
    } else if !LexLess(s[0], x) {
      forall j | 0 <= j < |s|
        ensures !LexLess(s[j], x)
      {
        if j > 0 { NotLessTransitive(x, s[0], s[j]); }
      }
    } else {
      InsertSorts(x, s[1..]);
      var tail := InsertName(x, s[1..]);
      forall j | 0 <= j < |tail|
        ensures !LexLess(tail[j], s[0])
      {
        assert tail[j] in multiset(tail);
        assert tail[j] == x || tail[j] in s[1..];
        LexTotal(s[0], x);
      }
    }
  }

  lemma {:induction false} SortSorts(s: seq<string>)
    ensures SortedNames(SortNames(s))
    ensures forall x :: x in SortNames(s) <==> x in s
  {
    hide LexLess;
    if s != [] {
      SortSorts(s[1..]);
      InsertSorts(s[0], SortNames(s[1..]));
    }
    var r := SortNames(s);
    forall x
      ensures x in r <==> x in s
    {
      assert x in r <==> x in multiset(r);
      assert x in s <==> x in multiset(s);
    }
  }

  // ----- what the scheduler reads -----

  function ItemName(item: NodeItem): string {
    Strip(if item.name != [] then item.name else item.node)
  }

  predicate Usable(item: NodeItem, maintenance: set<string>) {
    var status := Fold(if item.status == [] then "unknown" else item.status);
    ItemName(item) != [] && (status == "online" || status == "active") && ItemName(item) !in maintenance
  }

  function Eligible(items: seq<NodeItem>, maintenance: set<string>): set<string> {
    set item | item in items && Usable(item, maintenance) :: ItemName(item)
  }

  predicate Member(vm: Vm, group: string) {
    vm.group.Some? && Strip(vm.group.value) == group
  }

  function Occupied(vms: seq<Vm>, group: string, exclude: Option<int>): set<string> {
    set vm | vm in vms && exclude != Some(vm.vmid) && Strip(vm.node) != [] && Member(vm, Strip(group)) && Strip(group) != []
      :: Strip(vm.node)
  }

  method OnlineNodes(items: seq<NodeItem>, maintenance: set<string>) returns (r: seq<string>)
    ensures SortedNames(r) && forall x :: x in r <==> x in Eligible(items, maintenance)
  {
    hide ItemName, LexLess, Fold;
    r := [];
    for i := 0 to |items|
      invariant forall x :: x in r <==> exists j :: 0 <= j < i && Usable(items[j], maintenance) && ItemName(items[j]) == x
    {
      var name := ItemName(items[i]);
      var status := Fold(if items[i].status == [] then "unknown" else items[i].status);
      if name == [] {
        continue;
      }
      if status != "online" && status != "active" {
        continue;
      }
      if name in maintenance {
        continue;
      }
      r := r + [name];
    }
    SortSorts(r);
    r := SortNames(r);
  }

  method OccupiedNodes(vms: seq<Vm>, group: string, exclude: Option<int>) returns (occupied: set<string>)
    ensures occupied == Occupied(vms, group, exclude)
  {
    hide Strip;
    occupied := {};
    var g := Strip(group);
    if g == [] {
      return;
    }
    for i := 0 to |vms|
      invariant forall x :: x in occupied <==>
                  exists j :: 0 <= j < i && exclude != Some(vms[j].vmid) && Strip(vms[j].node) != [] && Member(vms[j], g)
                              && Strip(vms[j].node) == x
    {
      var vm := vms[i];
      if exclude == Some(vm.vmid) {
        continue;
      }
      var node := Strip(vm.node);
      if node == [] || vm.group.None? {
        continue;
      }
      if Strip(vm.group.value) == g {
        occupied := occupied + {node};
      }
    }
  }

  // ----- the choice -----

  /** The nodes a member may go to. */
  function Free(items: seq<NodeItem>, maintenance: set<string>, vms: seq<Vm>, vmid: int, group: string): set<string> {
    Eligible(items, maintenance) - Occupied(vms, group, Some(vmid))
  }

  ghost predicate Least(x: string, s: set<string>) {
    x in s && forall y :: y in s ==> !LexLess(y, x)
  }

  /** What `pick_node` answers, said without its lists. */
  ghost predicate Picks(items: seq<NodeItem>, maintenance: set<string>, vms: seq<Vm>, vmid: int, group: string,
                        r: Result<string, PlacementError>) {
    match r
    case Err(GroupRequired) => Strip(group) == []
    case Err(NoOnlineNodes) => Strip(group) != [] && Eligible(items, maintenance) == {}
    case Err(AllOccupied) =>
      Strip(group) != [] && Eligible(items, maintenance) != {} && Free(items, maintenance, vms, vmid, group) == {}
    case Ok(node) => Strip(group) != [] && Least(node, Free(items, maintenance, vms, vmid, group))
  }

  method PickNode(items: seq<NodeItem>, maintenance: set<string>, vms: seq<Vm>, vmid: int, group: string)
    returns (r: Result<string, PlacementError>)
    ensures Picks(items, maintenance, vms, vmid, group, r)
  {
    hide Strip, LexLess, Eligible;
    var g := Strip(group);
    if g == [] {
      return Err(GroupRequired);
    }
    var online := OnlineNodes(items, maintenance);
    if online == [] {
      assert Eligible(items, maintenance) == {};
      return Err(NoOnlineNodes);
    }
    assert online[0] in Eligible(items, maintenance);
    StripIsStripped(group);
    var occupied := OccupiedNodes(vms, g, Some(vmid));
    assert occupied == Occupied(vms, group, Some(vmid));
    var free := Filter(online, n => n !in occupied);
    FilterMembers(online, n => n !in occupied);
    FilterSorted(online, n => n !in occupied);
    if free == [] {
      assert forall x :: x in online ==> x in occupied;
      assert Free(items, maintenance, vms, vmid, group) == {};
      return Err(AllOccupied);
    }
    FirstIsLeast(free);
    r := Ok(free[0]);
  }

  lemma FirstIsLeast(s: seq<string>)
    requires SortedNames(s) && s != []
    ensures forall y :: y in s ==> !LexLess(y, s[0])
  {
    LexIrreflexive(s[0]);
  }

  lemma {:induction false} FilterSorted(s: seq<string>, keep: string -> bool)
    requires SortedNames(s)
    ensures SortedNames(Filter(s, keep))
  {
    hide LexLess;
    if s != [] {
      FilterSorted(s[1..], keep);
      FilterMembers(s[1..], keep);
      var tail := Filter(s[1..], keep);
      forall j | 0 <= j < |tail|
        ensures !LexLess(tail[j], s[0])
      {
        assert tail[j] in tail && tail[j] in s[1..];
      }
    }
  }

  /** The answer is determined: there is one least free node. */
  lemma PickIsUnique(items: seq<NodeItem>, maintenance: set<string>, vms: seq<Vm>, vmid: int, group: string,
                     r: Result<string, PlacementError>, q: Result<string, PlacementError>)
    requires Picks(items, maintenance, vms, vmid, group, r) && Picks(items, maintenance, vms, vmid, group, q)
    ensures r == q
  {
    hide LexLess, Eligible, Strip, Occupied;
    if r.Ok? && q.Ok? { LexTotal(r.value, q.value); }
  }

  method CheckPlacement(vms: seq<Vm>, vmid: int, node: string, group: string) returns (ok: bool, occupied: seq<string>)
    ensures ok <==> Strip(node) !in Occupied(vms, group, Some(vmid))
    ensures SortedNames(occupied) && forall x :: x in occupied <==> x in Occupied(vms, group, Some(vmid))
  {
    hide Strip, LexLess;
    StripIsStripped(group);
    var nodes := OccupiedNodes(vms, Strip(group), Some(vmid));
    ok := Strip(node) !in nodes;
    occupied := [];
    var rest := nodes;
    while rest != {}
      invariant rest <= nodes && forall x :: x in occupied <==> x in nodes - rest
      decreases rest
    {
      var x :| x in rest;
      rest := rest - {x};
      occupied := occupied + [x];
    }
    SortSorts(occupied);
    occupied := SortNames(occupied);
  }

  /** `check_placement` accepts what `pick_node` chooses. */
  lemma PickedIsAccepted(items: seq<NodeItem>, maintenance: set<string>, vms: seq<Vm>, vmid: int, group: string, node: string)
    requires Picks(items, maintenance, vms, vmid, group, Ok(node))
    ensures Strip(node) == node && Strip(node) !in Occupied(vms, group, Some(vmid))
  {
    hide LexLess;
    var item :| item in items && Usable(item, maintenance) && ItemName(item) == node;
    StripIsStripped(if item.name != [] then item.name else item.node);
  }

  // ----- runs of placements -----

  /** A placement request, with the node list and maintenance set of that moment. */
  datatype Request = Request(vmid: int, group: string, items: seq<NodeItem>, maintenance: set<string>)

  function Without(vms: seq<Vm>, vmid: int): seq<Vm> {
    Filter(vms, (vm: Vm) => vm.vmid != vmid)
  }

  /** A successful pick moves or adds the VM; a failed one changes nothing. */
  ghost predicate Placed(vms: seq<Vm>, q: Request, after: seq<Vm>) {
    exists r :: Picks(q.items, q.maintenance, vms, q.vmid, q.group, r) &&
      after == match r case Ok(node) => Without(vms, q.vmid) + [Vm(q.vmid, node, Some(q.group))] case Err(_) => vms
  }

  ghost predicate Execution(states: seq<seq<Vm>>, requests: seq<Request>) {
    |states| == |requests| + 1 && forall i :: 0 <= i < |requests| ==> Placed(states[i], requests[i], states[i + 1])
  }

  /** No two members of a group share a node. */
  ghost predicate Spread(vms: seq<Vm>) {
    forall group, i, j :: 0 <= i < j < |vms| && Member(vms[i], group) && Member(vms[j], group) && group != [] ==>
      Strip(vms[i].node) != Strip(vms[j].node)
  }

  /** Configurations can be read, and every VM has a node. */
  ghost predicate Readable(vms: seq<Vm>) {
    forall vm :: vm in vms ==> vm.group.Some? && Strip(vm.node) != []
  }

  lemma {:induction false} FilterSpread(vms: seq<Vm>, keep: Vm -> bool)
    requires Spread(vms)
    ensures Spread(Filter(vms, keep))
    ensures forall vm :: vm in Filter(vms, keep) <==> vm in vms && keep(vm)
  {
    hide Strip;
    FilterMembers(vms, keep);
    if vms != [] {
      FilterSpread(vms[1..], keep);
      var tail := Filter(vms[1..], keep);
      forall group, j | 0 <= j < |tail| && Member(vms[0], group) && Member(tail[j], group) && group != []
        ensures Strip(vms[0].node) != Strip(tail[j].node)
      {
        assert tail[j] in tail && tail[j] in vms[1..];
        var k :| 0 <= k < |vms[1..]| && vms[1..][k] == tail[j];
        assert vms[k + 1] == tail[j];
      }
    }
  }

  lemma PlacementKeepsSpread(vms: seq<Vm>, q: Request, after: seq<Vm>)
    requires Spread(vms) && Readable(vms) && Placed(vms, q, after)
    ensures Spread(after) && Readable(after)
  {
    hide Strip, LexLess, Usable;
    var r :| Picks(q.items, q.maintenance, vms, q.vmid, q.group, r) &&
      after == match r case Ok(node) => Without(vms, q.vmid) + [Vm(q.vmid, node, Some(q.group))] case Err(_) => vms;
    if r.Ok? {
      var rest := Without(vms, q.vmid);
      FilterSpread(vms, (vm: Vm) => vm.vmid != q.vmid);
      PickedIsAccepted(q.items, q.maintenance, vms, q.vmid, q.group, r.value);
      PickedIsNamed(q.items, q.maintenance, vms, q.vmid, q.group, r.value);
      forall group, i | 0 <= i < |rest| && Member(rest[i], group) && Strip(q.group) == group && group != []
        ensures Strip(rest[i].node) != r.value
      {
        assert rest[i] in rest;
      }
    }
  }

  lemma PickedIsNamed(items: seq<NodeItem>, maintenance: set<string>, vms: seq<Vm>, vmid: int, group: string, node: string)
    requires Picks(items, maintenance, vms, vmid, group, Ok(node))
    ensures node != []
  {
    hide LexLess, Strip;
  }

  /** Members that start on distinct nodes stay on distinct nodes through any sequence of placements,
      whatever happens to the nodes in between. */
  lemma {:induction false} SpreadOverRuns(states: seq<seq<Vm>>, requests: seq<Request>, k: nat)
    requires Execution(states, requests) && k < |states|
    requires Spread(states[0]) && Readable(states[0])
    ensures Spread(states[k]) && Readable(states[k])
  {
    hide Spread, Readable, Placed;
    if k > 0 {
      SpreadOverRuns(states, requests, k - 1);
      assert Placed(states[k - 1], requests[k - 1], states[(k - 1) + 1]);
      PlacementKeepsSpread(states[k - 1], requests[k - 1], states[k]);
    }
  }

  // ----- how many placements fit -----

  /** All requests for fresh VMs of one group succeed in turn. */
  ghost predicate AllFit(items: seq<NodeItem>, maintenance: set<string>, vms: seq<Vm>, group: string, ids: seq<int>)
    decreases |ids|
  {
    ids == [] ||
    exists node :: Picks(items, maintenance, vms, ids[0], group, Ok(node)) &&
      AllFit(items, maintenance, vms + [Vm(ids[0], node, Some(group))], group, ids[1..])
  }

  ghost predicate Fresh(vms: seq<Vm>, ids: seq<int>) {
    Distinct(ids) && forall vm :: vm in vms ==> vm.vmid !in ids
  }

  ghost function Room(items: seq<NodeItem>, maintenance: set<string>, vms: seq<Vm>, group: string): set<string> {
    Eligible(items, maintenance) - Occupied(vms, group, None)
  }

  lemma FreeIsRoom(items: seq<NodeItem>, maintenance: set<string>, vms: seq<Vm>, vmid: int, group: string)
    requires forall vm :: vm in vms ==> vm.vmid != vmid
    ensures Free(items, maintenance, vms, vmid, group) == Room(items, maintenance, vms, group)
  {
    hide Strip;
  }

  lemma OneMoreOccupied(vms: seq<Vm>, vmid: int, node: string, group: string)
    requires Strip(node) == node && node != [] && Strip(group) != []
    ensures Occupied(vms + [Vm(vmid, node, Some(group))], group, None) == Occupied(vms, group, None) + {node}
  {
    hide Strip;
    var vm := Vm(vmid, node, Some(group));
    assert vm in vms + [vm];
    assert Member(vm, Strip(group));
  }

  lemma {:induction false} LeastExists(s: set<string>) returns (x: string)
    requires s != {}
    ensures Least(x, s)
    decreases |s|
  {
    hide LexLess;
    x :| x in s;
    if s == {x} {
      LexIrreflexive(x);
    } else {
      var y := LeastExists(s - {x});
      LexTotal(x, y);
      if LexLess(x, y) {
        forall z | z in s
          ensures !LexLess(z, x)
        {
          LexTotal(z, x);
          if z != x && LexLess(z, x) { LexTransitive(z, x, y); }
        }
      } else {
        x := y;
      }
    }
  }

  /** For a fixed node set, new members of a group all find a place if and only if there are at most as
      many of them as eligible nodes without a member. */
  lemma {:induction false} PlacementsFitExactly(items: seq<NodeItem>, maintenance: set<string>, vms: seq<Vm>, group: string, ids: seq<int>)
    requires Strip(group) != [] && Fresh(vms, ids)
    ensures AllFit(items, maintenance, vms, group, ids) <==> |ids| <= |Room(items, maintenance, vms, group)|
    decreases |ids|
  {
    hide Strip, LexLess, Eligible, Occupied, Least;
    if ids != [] {
      var room := Room(items, maintenance, vms, group);
      assert forall vm :: vm in vms ==> vm.vmid != ids[0] by {
        assert ids[0] in ids;
      }
      FreeIsRoom(items, maintenance, vms, ids[0], group);
      if room != {} {
        var node := LeastExists(room);
        assert node in room by { LeastIsIn(node, room); }
        PickedIsAccepted(items, maintenance, vms, ids[0], group, node);
        PickedIsNamed(items, maintenance, vms, ids[0], group, node);
        var next := vms + [Vm(ids[0], node, Some(group))];
        OneMoreOccupied(vms, ids[0], node, group);
        assert Room(items, maintenance, next, group) == room - {node};
        assert Fresh(next, ids[1..]);
        PlacementsFitExactly(items, maintenance, next, group, ids[1..]);
        forall other | Picks(items, maintenance, vms, ids[0], group, Ok(other))
          ensures other == node
        {
          PickIsUnique(items, maintenance, vms, ids[0], group, Ok(other), Ok(node));
        }
      } else {
        forall other
          ensures !Picks(items, maintenance, vms, ids[0], group, Ok(other))
        {
          if Least(other, room) { LeastIsIn(other, room); }
        }
      }
    }
  }

  lemma LeastIsIn(x: string, s: set<string>)
    requires Least(x, s)
    ensures x in s
  {
  }
}
