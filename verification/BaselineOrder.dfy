/** The parents-first order of cmd/release_baseline.go: Kahn's loop over maps whose iteration
    order is arbitrary. */
module BaselineOrder {
  import opened Bytes
  import opened Sorting

  type Id = Bytes

  datatype Link = Link(child: Id, parent: Id)

  // ---------------------------------------------------------------- the graph

  /** The parents of `x` among the projects `among`. */
  function ParentsOf(x: Id, among: set<Id>, links: set<Link>): set<Id> {
    set q | q in among && Link(x, q) in links
  }

  /** A walk from child to parent inside `among`. */
  predicate Walk(path: seq<Id>, among: set<Id>, links: set<Link>) {
    && path != [] && (forall i | 0 <= i < |path| :: path[i] in among)
    && forall i | 0 < i < |path| :: Link(path[i - 1], path[i]) in links
  }

  predicate Repeats(path: seq<Id>) {
    exists i, j :: 0 <= i < j < |path| && path[i] == path[j]
  }

  /** Going from `x` to parents inside `among`, one can come by some project twice: `x` is on
      a cycle or downstream of one. */
  ghost predicate ReachesCycle(x: Id, among: set<Id>, links: set<Link>) {
    exists path :: Walk(path, among, links) && path[0] == x && Repeats(path)
  }

  /** Every parent inside `among` of a project in `order` comes before it. */
  predicate ParentsFirst(order: seq<Id>, among: set<Id>, links: set<Link>) {
    forall i | 0 <= i < |order| :: ParentsOf(order[i], among, links) <= Elements(order[..i])
  }

  // ---------------------------------------------------------------- the loop

  type Pending = map<Id, bool>
  type Parents = map<Id, set<Id>>

  /** What the loop keeps: the ordered projects are those not pending any more, and the
      recorded parents of a project are its parents that are still pending. */
  ghost predicate Progress(pending: Pending, parents: Parents, order: seq<Id>, remaining: int, among: set<Id>, links: set<Link>) {
    && pending.Keys == among && parents.Keys == among
    && (forall x | x in among :: pending[x] <==> x !in order)
    && (forall x | x in among :: parents[x] == ParentsOf(x, among, links) - Elements(order))
    && (forall x | x in order :: x in among)
    && Distinct(order) && remaining == |among| - |order|
    && ParentsFirst(order, among, links)
  }

  /** `delete(ps, id)` for every `ps`. */
  method DeleteEverywhere(parents: Parents, id: Id) returns (out: Parents)
    ensures out == map x | x in parents :: parents[x] - {id}
  {
    out := parents;
    var todo := parents.Keys;
    while todo != {}
      invariant todo <= parents.Keys && out.Keys == parents.Keys
      invariant forall x | x in parents :: out[x] == if x in todo then parents[x] else parents[x] - {id}
      decreases |todo|
    {
      var x :| x in todo;
      todo := todo - {x};
      out := out[x := out[x] - {id}];
    }
  }

  lemma Emit(pending: Pending, parents: Parents, order: seq<Id>, remaining: int, among: set<Id>, links: set<Link>, id: Id)
    requires Progress(pending, parents, order, remaining, among, links)
    requires id in among && pending[id] && parents[id] == {}
    ensures Progress(pending[id := false], map x | x in parents :: parents[x] - {id}, order + [id], remaining - 1, among, links)
  {
    hide ParentsOf;
    AppendElement(order, id);
    OneMoreInOrder(order, among, links, id);
    forall x | x in among ensures parents[x] - {id} == ParentsOf(x, among, links) - Elements(order + [id]) {
      assert Elements(order + [id]) == Elements(order) + {id};
    }
  }

  lemma OneMoreInOrder(order: seq<Id>, among: set<Id>, links: set<Link>, id: Id)
    requires ParentsFirst(order, among, links) && ParentsOf(id, among, links) - Elements(order) == {}
    ensures ParentsFirst(order + [id], among, links)
  {
    hide ParentsOf, Elements;
    var longer := order + [id];
    forall i | 0 <= i < |longer| ensures ParentsOf(longer[i], among, links) <= Elements(longer[..i]) {
      if i < |order| {
        assert longer[..i] == order[..i] && longer[i] == order[i];
      } else {
        assert longer[..i] == order && longer[i] == id;
        forall q | q in ParentsOf(id, among, links) ensures q in Elements(order) {
          assert q in Elements(order) || q in ParentsOf(id, among, links) - Elements(order);
        }
      }
    }
  }

  // ---------------------------------------------------------------- what is left over

  /** `stuck` projects each have a stuck parent. */
  predicate AllStuck(stuck: set<Id>, among: set<Id>, links: set<Link>) {
    stuck <= among && forall x | x in stuck :: ParentsOf(x, among, links) * stuck != {}
  }

  /** From a stuck project one can walk among stuck projects as long as one likes. */
  lemma {:induction false} StuckWalk(x: Id, n: nat, stuck: set<Id>, among: set<Id>, links: set<Link>) returns (path: seq<Id>)
    requires AllStuck(stuck, among, links) && x in stuck
    ensures Walk(path, stuck, links) && path[0] == x && |path| == n + 1
    decreases n
  {
    if n == 0 {
      path := [x];
    } else {
      var q :| q in ParentsOf(x, among, links) * stuck;
      var rest := StuckWalk(q, n - 1, stuck, among, links);
      path := [x] + rest;
    }
  }

  lemma Pigeonhole(path: seq<Id>, holes: set<Id>)
    requires Elements(path) <= holes && |path| > |holes|
    ensures Repeats(path)
  {
    if !Repeats(path) {
      assert Distinct(path);
      ElementsCount(path);
      Sizes(Elements(path), holes);
      assert false;
    }
  }

  lemma StuckReaches(x: Id, stuck: set<Id>, among: set<Id>, links: set<Link>)
    requires AllStuck(stuck, among, links) && x in stuck
    ensures ReachesCycle(x, among, links)
  {
    var path := StuckWalk(x, |stuck|, stuck, among, links);
    Pigeonhole(path, stuck);
    assert Walk(path, among, links);
  }

  /** In a parents-first order a walk only goes to earlier places. */
  lemma {:induction false} WalkDown(path: seq<Id>, j: nat, order: seq<Id>, among: set<Id>, links: set<Link>, place: nat) returns (p: nat)
    requires Walk(path, among, links) && ParentsFirst(order, among, links)
    requires j < |path| && place < |order| && order[place] == path[0]
    ensures p < |order| && order[p] == path[j] && (if j > 0 then p < place else p == place)
    decreases j
  {
    if j == 0 {
      p := place;
    } else {
      var q := WalkDown(path, j - 1, order, among, links, place);
      assert path[j] in ParentsOf(order[q], among, links);
      assert path[j] in order[..q];
      var k :| 0 <= k < q && order[..q][k] == path[j];
      p := k;
    }
  }

  /** An ordered project reaches no cycle. */
  lemma OrderedIsFree(x: Id, order: seq<Id>, among: set<Id>, links: set<Link>)
    requires ParentsFirst(order, among, links) && Distinct(order) && x in order
    ensures !ReachesCycle(x, among, links)
  {
    if ReachesCycle(x, among, links) {
      var path :| Walk(path, among, links) && path[0] == x && Repeats(path);
      var i, j :| 0 <= i < j < |path| && path[i] == path[j];
      var place :| 0 <= place < |order| && order[place] == x;
      var here := WalkDown(path, i, order, among, links, place);
      var tail := path[i..];
      assert tail[j - i] == path[j] && tail[0] == path[i];
      forall k | 0 < k < |tail| ensures Link(tail[k - 1], tail[k]) in links {
        assert tail[k - 1] == path[i + k - 1] && tail[k] == path[i + k];
      }
      var there := WalkDown(tail, j - i, order, among, links, here);
    }
  }

  /** What the order leaves over is stuck exactly on cycles. */
  lemma Outcome(order: seq<Id>, stuck: set<Id>, among: set<Id>, links: set<Link>)
    requires Distinct(order) && ParentsFirst(order, among, links)
    requires among == Elements(order) + stuck && Elements(order) !! stuck && AllStuck(stuck, among, links)
    ensures forall x | x in among :: x in stuck <==> ReachesCycle(x, among, links)
  {
    forall x | x in among ensures x in stuck <==> ReachesCycle(x, among, links) {
      if x in stuck {
        StuckReaches(x, stuck, among, links);
      } else {
        assert x in Elements(order);
        OrderedIsFree(x, order, among, links);
      }
    }
  }

  // ---------------------------------------------------------------- the passes

  lemma OrderFits(order: seq<Id>, among: set<Id>)
    requires Distinct(order) && forall x | x in order :: x in among
    ensures |order| <= |among|
    ensures |order| == |among| ==> Elements(order) == among
  {
    ElementsCount(order);
    assert Elements(order) <= among;
    Sizes(Elements(order), among);
  }

  lemma {:induction false} Sizes(a: set<Id>, b: set<Id>)
    requires a <= b
    ensures |a| <= |b| && (|a| == |b| ==> a == b)
  {
    assert b == a + (b - a);
    assert |b| == |a| + |b - a|;
  }

  /** One pass over the map; every key is visited once, in any order. */
  method Pass(pending0: Pending, parents0: Parents, order0: seq<Id>, remaining0: int, ghost among: set<Id>, ghost links: set<Link>)
    returns (pending: Pending, parents: Parents, order: seq<Id>, remaining: int, progressed: bool)
    requires Progress(pending0, parents0, order0, remaining0, among, links)
    ensures Progress(pending, parents, order, remaining, among, links)
    ensures if progressed then remaining < remaining0 else remaining == remaining0 && order == order0
    ensures !progressed ==> forall x | x in among && pending[x] :: parents[x] != {}
  {
    pending, parents, order, remaining, progressed := pending0, parents0, order0, remaining0, false;
    var todo := pending.Keys;
    while todo != {}
      invariant todo <= among
      invariant Progress(pending, parents, order, remaining, among, links)
      invariant if progressed then remaining < remaining0 else remaining == remaining0 && order == order0
      invariant !progressed ==> forall x | x in among - todo && pending[x] :: parents[x] != {}
      decreases |todo|
    {
      var id :| id in todo;
      todo := todo - {id};
      if pending[id] && |parents[id]| == 0 {
        Emit(pending, parents, order, remaining, among, links, id);
        order := order + [id];
        pending := pending[id := false];
        remaining := remaining - 1;
        parents := DeleteEverywhere(parents, id);
        progressed := true;
      }
    }
  }

  /** The pending ones, in any order. */
  method CollectPending(pending: Pending) returns (blocked: seq<Id>)
    ensures Distinct(blocked) && Elements(blocked) == set x | x in pending && pending[x]
  {
    blocked := [];
    var todo := pending.Keys;
    while todo != {}
      invariant todo <= pending.Keys
      invariant Distinct(blocked) && Elements(blocked) == set x | x in pending && pending[x] && x !in todo
      decreases |todo|
    {
      var id :| id in todo;
      todo := todo - {id};
      if pending[id] {
        assert id !in Elements(blocked);
        AppendElement(blocked, id);
        blocked := blocked + [id];
      }
    }
  }

  lemma NoProgress(pending: Pending, parents: Parents, order: seq<Id>, remaining: int, among: set<Id>, links: set<Link>)
    requires Progress(pending, parents, order, remaining, among, links)
    requires forall x | x in among && pending[x] :: parents[x] != {}
    ensures var stuck := set x | x in pending && pending[x];
            among == Elements(order) + stuck && Elements(order) !! stuck && AllStuck(stuck, among, links)
  {
    hide ParentsOf, ParentsFirst;
    var stuck := set x | x in pending && pending[x];
    assert forall x :: x in Elements(order) <==> x in among && !pending[x];
    forall x | x in stuck ensures ParentsOf(x, among, links) * stuck != {} {
      var q :| q in parents[x];
      ParentsAmong(x, among, links);
      assert q in ParentsOf(x, among, links) * stuck;
    }
  }

  lemma ParentsAmong(x: Id, among: set<Id>, links: set<Link>)
    ensures ParentsOf(x, among, links) <= among
  {
  }

  /** The ordered and the blocked projects among the pending ones. */
  method ReleaseOrder(among: set<Id>, links: set<Link>) returns (order: seq<Id>, blocked: seq<Id>)
    ensures Distinct(order) && Distinct(blocked)
    ensures Elements(order) + Elements(blocked) == among && Elements(order) !! Elements(blocked)
    ensures ParentsFirst(order, among, links)
    ensures forall x | x in among :: x in blocked <==> ReachesCycle(x, among, links)
    ensures AllStuck(Elements(blocked), among, links)
  {
    var pending: Pending := map x | x in among :: true;
    var parents: Parents := map x | x in among :: ParentsOf(x, among, links);
    order, blocked := [], [];
    var remaining := |among|;
    while remaining > 0
      invariant Progress(pending, parents, order, remaining, among, links)
      invariant blocked == []
      decreases remaining
    {
      var progressed;
      pending, parents, order, remaining, progressed := Pass(pending, parents, order, remaining, among, links);
      if !progressed {
        blocked := CollectPending(pending);
        NoProgress(pending, parents, order, remaining, among, links);
        Outcome(order, Elements(blocked), among, links);
        return;
      }
    }
    OrderFits(order, among);
    Outcome(order, {}, among, links);
  }

  /** Once the ordered projects are out of the way, the stuck ones are still stuck. */
  lemma StillStuck(stuck: set<Id>, among: set<Id>, links: set<Link>)
    requires AllStuck(stuck, among, links)
    ensures forall x | x in stuck :: ReachesCycle(x, stuck, links)
  {
    forall x | x in stuck ensures ReachesCycle(x, stuck, links) {
      forall y | y in stuck ensures ParentsOf(y, stuck, links) * stuck != {} {
        var q :| q in ParentsOf(y, among, links) * stuck;
        assert q in ParentsOf(y, stuck, links) * stuck;
      }
      StuckReaches(x, stuck, stuck, links);
    }
  }
}
