/** Per-VM action queues: what is queued is delivered exactly once, in order. */
module ActionQueue {
  import opened Prelude
  import opened Text

  datatype Vm = Vm(node: string, vmid: nat)

  datatype Action = Action(actionId: string, action: string, vmid: nat, node: string, requestedBy: string)

  /** `{node}-{vmid}-{epoch}-{n}`. */
  function ActionId(vm: Vm, epoch: nat, n: nat): string {
    vm.node + "-" + NatToString(vm.vmid) + "-" + NatToString(epoch) + "-" + NatToString(n)
  }

  /** The id ends in a dash and the number `n`. */
  ghost predicate EndsIn(id: string, n: nat) {
    exists head :: id == head + "-" + NatToString(n)
  }

  /** An id determines the number it ends in: the digits after its last dash. */
  lemma EndingIsUnique(id: string, m: nat, n: nat)
    requires EndsIn(id, m) && EndsIn(id, n)
    ensures m == n
  {
    var a :| id == a + "-" + NatToString(m);
    var b :| id == b + "-" + NatToString(n);
    LastDash(a, NatToString(m), b, NatToString(n));
    NatRoundTrip(m);
    NatRoundTrip(n);
  }

  lemma LastDash(a: string, s: string, b: string, t: string)
    requires a + "-" + s == b + "-" + t && AllDigits(s) && AllDigits(t)
    ensures s == t
  {
    var id := a + "-" + s;
    assert id[|a|] == '-' && id[|b|] == '-' by { assert (b + "-" + t)[|b|] == '-'; }
    forall i | |a| < i < |id|
      ensures id[i] != '-'
    {
      assert id[i] == s[i - |a| - 1] && s[i - |a| - 1] in s;
    }
    forall i | |b| < i < |id|
      ensures id[i] != '-'
    {
      assert id[i] == (b + "-" + t)[i] == t[i - |b| - 1] && t[i - |b| - 1] in t;
    }
    assert |a| == |b|;
    assert id[|a| + 1..] == s && (b + "-" + t)[|b| + 1..] == t;
  }

  lemma ActionIdEnds(vm: Vm, epoch: nat, n: nat)
    ensures EndsIn(ActionId(vm, epoch, n), n)
  {
    var head := vm.node + "-" + NatToString(vm.vmid) + "-" + NatToString(epoch);
    assert ActionId(vm, epoch, n) == head + "-" + NatToString(n);
  }

  /** Pending actions are numbered from one in queue order. */
  ghost predicate Numbered(q: seq<Action>) {
    forall i :: 0 <= i < |q| ==> EndsIn(q[i].actionId, i + 1)
  }

  lemma NumberedAppend(q: seq<Action>, a: Action)
    requires Numbered(q) && EndsIn(a.actionId, |q| + 1)
    ensures Numbered(q + [a])
  {
    hide EndsIn;
  }

  /** So no two pending actions share an id, whatever the clock did and whichever VMs share the file. */
  lemma PendingIdsDistinct(q: seq<Action>)
    requires Numbered(q)
    ensures forall i, j :: 0 <= i < j < |q| ==> q[i].actionId != q[j].actionId
  {
    hide EndsIn;
    forall i, j | 0 <= i < j < |q|
      ensures q[i].actionId != q[j].actionId
    {
      if q[i].actionId == q[j].actionId { EndingIsUnique(q[i].actionId, i + 1, j + 1); }
    }
  }

  type Files = map<string, seq<Action>>

  function At(files: Files, path: string): seq<Action> {
    if path in files then files[path] else []
  }

  /** The VMs a bulk request reaches: each requested number once, in order, when it is known. */
  function Reached(vmids: seq<nat>, seen: set<nat>, find: nat -> Option<Vm>): seq<Vm> {
    if vmids == [] then []
    else if vmids[0] in seen then Reached(vmids[1..], seen, find)
    else (if find(vmids[0]).Some? then [find(vmids[0]).value] else []) + Reached(vmids[1..], seen + {vmids[0]}, find)
  }

  class ActionQueueService {
    const slug: string -> string
    var queues: Files
    /** Everything ever queued, and everything ever handed out, per queue file. */
    ghost var queued: Files
    ghost var delivered: Files

    /** Handed out, then still pending, is what was queued, in order. */
    ghost predicate Valid()
      reads this
    {
      forall path :: At(delivered, path) + At(queues, path) == At(queued, path) && Numbered(At(queues, path))
    }

    function QueuePath(vm: Vm): string {
      slug(vm.node) + "-" + NatToString(vm.vmid) + "-queue.json"
    }

    constructor (slug: string -> string)
      ensures this.slug == slug && Valid() && queues == queued == delivered == map[]
    {
      this.slug := slug;
      queues, queued, delivered := map[], map[], map[];
    }

    method QueueAction(vm: Vm, action: string, requestedBy: string, epoch: nat) returns (r: Action)
      requires Valid()
      modifies this
      ensures Valid() && delivered == old(delivered)
      ensures queues == old(queues)[QueuePath(vm) := At(old(queues), QueuePath(vm)) + [r]]
      ensures queued == old(queued)[QueuePath(vm) := At(old(queued), QueuePath(vm)) + [r]]
      ensures r == Action(ActionId(vm, epoch, |At(old(queues), QueuePath(vm))| + 1), action, vm.vmid, vm.node, requestedBy)
    {
      hide EndsIn, ActionId, QueuePath, Numbered;
      var path := QueuePath(vm);
      var queue := At(queues, path);
      r := Action(ActionId(vm, epoch, |queue| + 1), action, vm.vmid, vm.node, requestedBy);
      ActionIdEnds(vm, epoch, |queue| + 1);
      NumberedAppend(queue, r);
      assert At(delivered, path) + (queue + [r]) == At(queued, path) + [r];
      queues := queues[path := queue + [r]];
      queued := queued[path := At(queued, path) + [r]];
    }

    method DequeueActions(vm: Vm) returns (batch: seq<Action>)
      requires Valid()
      modifies this
      ensures Valid() && queued == old(queued)
      ensures batch == At(old(queues), QueuePath(vm))
      ensures queues == old(queues)[QueuePath(vm) := []]
      ensures delivered == old(delivered)[QueuePath(vm) := At(old(delivered), QueuePath(vm)) + batch]
      ensures forall i, j :: 0 <= i < j < |batch| ==> batch[i].actionId != batch[j].actionId
    {
      hide EndsIn, QueuePath;
      var path := QueuePath(vm);
      batch := At(queues, path);
      PendingIdsDistinct(batch);
      assert At(delivered, path) + batch + [] == At(queued, path);
      queues := queues[path := []];
      delivered := delivered[path := At(delivered, path) + batch];
    }

    predicate Into(path: string, a: Action) {
      QueuePath(Vm(a.node, a.vmid)) == path
    }

    /** The actions that go to one queue file, in order. */
    function Routed(actions: seq<Action>, path: string): seq<Action> {
      Filter(actions, a => Into(path, a))
    }

    lemma RoutedAppend(actions: seq<Action>, a: Action)
      ensures forall path :: Routed(actions + [a], path) == if Into(path, a) then Routed(actions, path) + [a] else Routed(actions, path)
    {
      forall path
        ensures Routed(actions + [a], path) == if Into(path, a) then Routed(actions, path) + [a] else Routed(actions, path)
      {
        FilterAppend(actions, a, x => Into(path, x));
        assert Routed(actions, path) + [] == Routed(actions, path);
      }
    }

    /** Every queue file grew by exactly its own actions. */
    ghost predicate Grew(before: Files, after: Files, r: seq<Action>) {
      forall path :: At(after, path) == At(before, path) + Routed(r, path)
    }

    /** The action queued for `vm` after `earlier` ones, numbered by its place in its queue file. */
    predicate QueuedAfter(before: Files, earlier: seq<Action>, vm: Vm, action: string, requestedBy: string, epoch: nat, a: Action) {
      var n := |At(before, QueuePath(vm))| + |Routed(earlier, QueuePath(vm))| + 1;
      a == Action(ActionId(vm, epoch, n), action, vm.vmid, vm.node, requestedBy)
    }

    /** The k-th action is for the k-th VM. */
    ghost predicate QueuedFor(before: Files, r: seq<Action>, vms: seq<Vm>, action: string, requestedBy: string, epoch: nat -> nat) {
      && |r| == |vms|
      && forall k: nat :: k < |r| ==> QueuedAfter(before, r[..k], vms[k], action, requestedBy, epoch(k), r[k])
    }

    lemma GrewStep(before: Files, mid: Files, r: seq<Action>, a: Action, vm: Vm)
      requires Grew(before, mid, r) && a.node == vm.node && a.vmid == vm.vmid
      ensures Grew(before, mid[QueuePath(vm) := At(mid, QueuePath(vm)) + [a]], r + [a])
    {
      hide QueuePath, Routed, At;
      forall path
        ensures At(mid[QueuePath(vm) := At(mid, QueuePath(vm)) + [a]], path) == At(before, path) + Routed(r + [a], path)
      {
        GrewAt(before, mid, r, a, vm, path);
      }
    }

    lemma GrewAt(before: Files, mid: Files, r: seq<Action>, a: Action, vm: Vm, path: string)
      requires At(mid, path) == At(before, path) + Routed(r, path) && a.node == vm.node && a.vmid == vm.vmid
      ensures At(mid[QueuePath(vm) := At(mid, QueuePath(vm)) + [a]], path) == At(before, path) + Routed(r + [a], path)
    {
      hide QueuePath, Routed;
      RoutedAppend(r, a);
      assert Into(path, a) <==> path == QueuePath(vm);
      assert At(before, path) + Routed(r, path) + [a] == At(before, path) + (Routed(r, path) + [a]);
    }

    lemma QueuedForStep(before: Files, mid: Files, r: seq<Action>, vms: seq<Vm>, vm: Vm, action: string, requestedBy: string, epoch: nat -> nat)
      requires QueuedFor(before, r, vms, action, requestedBy, epoch) && Grew(before, mid, r)
      ensures var n := |At(mid, QueuePath(vm))| + 1;
              var a := Action(ActionId(vm, epoch(|r|), n), action, vm.vmid, vm.node, requestedBy);
              QueuedFor(before, r + [a], vms + [vm], action, requestedBy, epoch)
    {
      hide QueuePath, Routed, ActionId, QueuedAfter;
      var n := |At(mid, QueuePath(vm))| + 1;
      var a := Action(ActionId(vm, epoch(|r|), n), action, vm.vmid, vm.node, requestedBy);
      var all := r + [a];
      assert QueuedAfter(before, r, vm, action, requestedBy, epoch(|r|), a) by {
        LastQueued(before, mid, r, vm, action, requestedBy, epoch(|r|), a);
      }
      forall k: nat | k < |all|
        ensures QueuedAfter(before, all[..k], (vms + [vm])[k], action, requestedBy, epoch(k), all[k])
      {
        assert all[..k] == r[..k];
        assert r[..|r|] == r;
      }
    }

    lemma LastQueued(before: Files, mid: Files, r: seq<Action>, vm: Vm, action: string, requestedBy: string, epoch: nat, a: Action)
      requires Grew(before, mid, r)
      requires a == Action(ActionId(vm, epoch, |At(mid, QueuePath(vm))| + 1), action, vm.vmid, vm.node, requestedBy)
      ensures QueuedAfter(before, r, vm, action, requestedBy, epoch, a)
    {
      hide QueuePath, Routed, ActionId;
    }

    /** `epoch(k)` is the clock reading of the k-th action queued. Each requested VM that is known gets one
        action, however often it is named, and every queue file grows by exactly its own actions. */
    method QueueBulkActions(vmids: seq<nat>, action: string, requestedBy: string, find: nat -> Option<Vm>, epoch: nat -> nat)
      returns (r: seq<Action>)
      requires Valid()
      modifies this
      ensures Valid() && delivered == old(delivered)
      ensures Grew(old(queues), queues, r) && Grew(old(queued), queued, r)
      ensures QueuedFor(old(queues), r, Reached(vmids, {}, find), action, requestedBy, epoch)
    {
      hide Valid, Grew, QueuedFor, ActionId, QueuePath;
      r := [];
      var seen: set<nat> := {};
      ghost var reached: seq<Vm> := [];
      NothingQueued(queues, action, requestedBy, epoch);
      NothingQueued(queued, action, requestedBy, epoch);
      for i := 0 to |vmids|
        invariant Valid() && delivered == old(delivered)
        invariant Grew(old(queues), queues, r) && Grew(old(queued), queued, r)
        invariant QueuedFor(old(queues), r, reached, action, requestedBy, epoch)
        invariant reached + Reached(vmids[i..], seen, find) == Reached(vmids, {}, find)
      {
        var vmid := vmids[i];
        assert vmids[i..][0] == vmid && vmids[i..][1..] == vmids[i + 1..];
        if vmid in seen {
          continue;
        }
        ghost var rest := Reached(vmids[i + 1..], seen + {vmid}, find);
        seen := seen + {vmid};
        var vm := find(vmid);
        if vm.None? {
          assert [] + rest == rest;
          continue;
        }
        assert reached + ([vm.value] + rest) == reached + [vm.value] + rest;
        QueuedForStep(old(queues), queues, r, reached, vm.value, action, requestedBy, epoch);
        ghost var pending, ledger := queues, queued;
        var queuedAction := QueueAction(vm.value, action, requestedBy, epoch(|r|));
        GrewStep(old(queues), pending, r, queuedAction, vm.value);
        GrewStep(old(queued), ledger, r, queuedAction, vm.value);
        reached := reached + [vm.value];
        r := r + [queuedAction];
      }
      assert reached + [] == reached;
    }

    lemma NothingQueued(files: Files, action: string, requestedBy: string, epoch: nat -> nat)
      ensures Grew(files, files, []) && QueuedFor(files, [], [], action, requestedBy, epoch)
    {
      hide QueuePath;
      assert forall path :: At(files, path) + Routed([], path) == At(files, path);
    }
  }
}
