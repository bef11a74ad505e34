/** The release loop of cmd/release_baseline.go and the drain loop of cmd/release.go, over the
    tables they read and write. */
module BaselineRun {
  import opened Sorting
  import opened BaselineOrder

  type Version = string

  datatype Source = Draft | Release(version: Version)

  /** How the release service ends: it cuts the release, finds it there, or fails without it. */
  datatype Outcome = Created | Conflict | Failed

  datatype Report = NothingToDo | Planned | Finished(released: nat) | FailedAt(project: Id)

  /** The draft shells that have no release `v` yet. */
  function PendingProjects(shells: set<Id>, releases: set<(Id, Version)>, v: Version): set<Id> {
    set p | p in shells && (p, v) !in releases
  }

  function Repinned(links: map<Link, Source>, done: set<Id>, v: Version): map<Link, Source> {
    map l | l in links :: if l.child in done && links[l].Draft? then Release(v) else links[l]
  }

  function ReleasesOf(done: set<Id>, v: Version): set<(Id, Version)> {
    set p | p in done :: (p, v)
  }

  /** The rows of one child. */
  function LinksFrom(links: map<Link, Source>, p: Id): map<Link, Source> {
    map l | l in links && l.child == p :: links[l]
  }

  /** The projects of `order` among the first `n` whose release the service cut. */
  function Cut(order: seq<Id>, n: nat, answers: Id -> Outcome): set<Id>
    requires n <= |order|
  {
    set i | 0 <= i < n && answers(order[i]).Created? :: order[i]
  }

  /** How many of the first `n` projects the service cut a release for. */
  function CutCount(order: seq<Id>, n: nat, answers: Id -> Outcome): nat
    requires n <= |order|
  {
    |set i | 0 <= i < n && answers(order[i]).Created?|
  }

  /** A release shows its project's links as they were when it was cut. */
  type Archive = map<(Id, Version), map<Link, Source>>

  class Database {
    /** Ids of the draft-shell projects, the releases, the inheritance rows by their key, and
        the rows archived with a release. */
    var shells: set<Id>
    var releases: set<(Id, Version)>
    var links: map<Link, Source>
    var archive: Archive

    constructor (shells: set<Id>, releases: set<(Id, Version)>, links: map<Link, Source>, archive: Archive)
      ensures this.shells == shells && this.releases == releases && this.links == links && this.archive == archive
    {
      this.shells, this.releases, this.links, this.archive := shells, releases, links, archive;
    }

    predicate KnownParents()
      reads this
    {
      forall l | l in links :: l.parent in shells
    }

    method Repin(p: Id, v: Version)
      modifies this`links
      ensures links == Repinned(old(links), {p}, v)
    {
      var todo := links.Keys;
      while todo != {}
        invariant todo <= old(links).Keys && links.Keys == old(links).Keys
        invariant forall l | l in links :: links[l] == if l in todo then old(links)[l] else Repinned(old(links), {p}, v)[l]
        decreases |todo|
      {
        var l :| l in todo;
        todo := todo - {l};
        if l.child == p && links[l].Draft? {
          links := links[l := Release(v)];
        }
      }
    }

    /** The release service, as far as it is used here: a release that is cut archives the
        project's links. */
    method Create(p: Id, v: Version, outcome: Outcome)
      modifies this`releases, this`archive
      ensures releases == if outcome.Failed? then old(releases) else old(releases) + {(p, v)}
      ensures archive == if outcome.Created? then old(archive)[(p, v) := LinksFrom(links, p)] else old(archive)
    {
      if outcome != Failed {
        releases := releases + {(p, v)};
      }
      if outcome == Created {
        archive := archive[(p, v) := LinksFrom(links, p)];
      }
    }

    /** One project of the release loop. Its parents have the release when it is called, so
        every link it pins points to a release that exists; its own release shows no link that
        still follows a draft. */
    method ReleaseOne(p: Id, v: Version, outcome: Outcome)
      requires forall l | l in links && l.child == p :: (l.parent, v) in releases
      modifies this`links, this`releases, this`archive
      ensures links == Repinned(old(links), {p}, v)
      ensures releases == if outcome.Failed? then old(releases) else old(releases) + {(p, v)}
      ensures archive == if outcome.Created? then old(archive)[(p, v) := LinksFrom(links, p)] else old(archive)
      ensures outcome.Created? ==> (p, v) in archive && Pinned(archive[(p, v)])
      ensures forall l | l in links && links[l] != old(links)[l] ::
                links[l] == Release(v) && l.child == p && (l.parent, v) in old(releases)
    {
      Repin(p, v);
      Create(p, v, outcome);
    }

    /** The loop: it stops at the first project the service fails for. */
    method ReleaseAll(order: seq<Id>, v: Version, answers: Id -> Outcome) returns (report: Report, ghost done: nat)
      requires KnownParents() && ParentsFirst(order, PendingProjects(shells, releases, v), links.Keys)
      modifies this`links, this`releases, this`archive
      ensures done <= |order| && releases == old(releases) + ReleasesOf(Elements(order[..done]), v)
      ensures report.FailedAt? ==> done < |order| && report.project == order[done] && answers(order[done]).Failed?
      ensures links == Repinned(old(links), Elements(order[..if report.FailedAt? then done + 1 else done]), v)
      ensures report.FailedAt? || report.Finished?
      ensures report.Finished? ==> done == |order| && report.released == CutCount(order, |order|, answers)
      ensures forall i | 0 <= i < done :: !answers(order[i]).Failed?
      ensures PinnedExist(old(links), links, releases, v)
      ensures Archived(old(archive), archive, Cut(order, done, answers), old(links), v)
    {
      hide Pinned, Shows, LinksFrom, Archived;
      hide ParentsFirst, PendingProjects, Repinned, ReleasesOf, Elements, CutCount;
      NothingCut(links, releases, archive, order, v, answers);
      CountNothing(order, answers);
      var released := 0;
      var i := 0;
      done := 0;
      NothingDone(old(links), releases, order, v);
      while i < |order|
        invariant 0 <= i <= |order| && done == i
        invariant releases == old(releases) + ReleasesOf(Elements(order[..i]), v)
        invariant links == Repinned(old(links), Elements(order[..i]), v)
        invariant forall j | 0 <= j < i :: !answers(order[j]).Failed?
        invariant PinnedExist(old(links), links, releases, v)
        invariant Archived(old(archive), archive, Cut(order, i, answers), old(links), v)
        invariant released == CutCount(order, i, answers)
      {
        Satisfied(shells, old(releases), old(links), order, i, v);
        RepinnedKeys(old(links), Elements(order[..i]), v);
        RepinnedKeys(links, {order[i]}, v);
        FirstMore(order, i);
        RepinnedMore(old(links), Elements(order[..i]), order[i], v);
        ReleasesMore(Elements(order[..i]), order[i], v);
        ghost var shown := archive;
        ReleaseOne(order[i], v, answers(order[i]));
        if answers(order[i]).Created? {
          ShownRows(old(links), Elements(order[..i]), order[i], v);
          ArchivedMore(old(archive), shown, archive, old(links), order, i, v, answers);
        }
        CutMore(order, i, answers);
        CountMore(order, i, answers);
        if answers(order[i]).Failed? {
          report := FailedAt(order[i]);
          return;
        }
        if answers(order[i]).Created? {
          released := released + 1;
        }
        i := i + 1;
        done := i;
      }
      report := Finished(released);
    }

    /** `release-baseline`. The order is arbitrary where it is free, and so is what the release
        service answers. */
    method ReleaseBaseline(v: Version, dryRun: bool, answers: Id -> Outcome)
      returns (report: Report, order: seq<Id>, blocked: seq<Id>, ghost done: nat)
      requires KnownParents()
      modifies this`links, this`releases, this`archive
      ensures Split(order, blocked, PendingProjects(shells, old(releases), v), old(links).Keys)
      ensures done <= |order| && releases == old(releases) + ReleasesOf(Elements(order[..done]), v)
      ensures report.FailedAt? ==> done < |order| && report.project == order[done] && answers(order[done]).Failed?
      ensures links == Repinned(old(links), Elements(order[..if report.FailedAt? then done + 1 else done]), v)
      ensures report.NothingToDo? <==> order == [] && blocked == []
      ensures report.Planned? <==> dryRun && !report.NothingToDo?
      ensures report.NothingToDo? || report.Planned? ==> done == 0
      ensures report.Finished? ==> done == |order| && report.released == |Cut(order, |order|, answers)|
      ensures forall i | 0 <= i < done :: !answers(order[i]).Failed?
      ensures PinnedExist(old(links), links, releases, v)
      ensures Archived(old(archive), archive, Cut(order, done, answers), old(links), v)
    {
      hide PendingProjects, Repinned, ReleasesOf, Elements, ReachesCycle, AllStuck, ParentsFirst, Cut, CutCount, PinnedExist, Pinned, Shows, Archived;
      order, blocked := ReleaseOrder(PendingProjects(shells, releases, v), links.Keys);
      done := 0;
      NothingDone(links, releases, order, v);
      NothingCut(links, releases, archive, order, v, answers);
      if |order| == 0 && |blocked| == 0 {
        report := NothingToDo;
      } else if dryRun {
        report := Planned;
      } else {
        report, done := ReleaseAll(order, v, answers);
        CountIsCut(order, |order|, answers);
      }
    }
  }

  /** What the ordering promises: a split of the pending projects, the blocked ones being those
      that reach a cycle. */
  ghost predicate Split(order: seq<Id>, blocked: seq<Id>, among: set<Id>, links: set<Link>) {
    && Distinct(order) && Distinct(blocked)
    && Elements(order) + Elements(blocked) == among && Elements(order) !! Elements(blocked)
    && AllStuck(Elements(blocked), among, links)
    && forall p | p in among :: p in blocked <==> ReachesCycle(p, among, links)
  }

  /** No link follows a draft. */
  predicate Pinned(links: map<Link, Source>) {
    forall l | l in links :: links[l].Release?
  }

  /** Exactly the links of a project, those that followed a draft pinned. */
  ghost predicate Shows(rows: map<Link, Source>, links: map<Link, Source>, p: Id, v: Version) {
    && (forall l :: l in rows <==> l in links && l.child == p)
    && forall l | l in rows :: rows[l] == if links[l].Draft? then Release(v) else links[l]
  }

  lemma ShownRows(links: map<Link, Source>, done: set<Id>, p: Id, v: Version)
    ensures Shows(LinksFrom(Repinned(Repinned(links, done, v), {p}, v), p), links, p, v)
  {
  }

  /** The releases that were cut, and no others, were archived, each with all the links its
      project had, none following a draft. */
  ghost predicate Archived(before: Archive, archive: Archive, done: set<Id>, links: map<Link, Source>, v: Version) {
    && (forall k | k in archive && !(k.1 == v && k.0 in done) :: k in before && archive[k] == before[k])
    && (forall k | k in before :: k in archive)
    && forall p | p in done :: (p, v) in archive && Shows(archive[(p, v)], links, p, v)
  }

  /** Every link that was changed points to a release that exists. */
  predicate PinnedExist(before: map<Link, Source>, links: map<Link, Source>, releases: set<(Id, Version)>, v: Version) {
    links.Keys == before.Keys && forall l | l in links && links[l] != before[l] :: links[l] == Release(v) && (l.parent, v) in releases
  }

  lemma NothingDone(links: map<Link, Source>, releases: set<(Id, Version)>, order: seq<Id>, v: Version)
    ensures Repinned(links, Elements(order[..0]), v) == links
    ensures releases + ReleasesOf(Elements(order[..0]), v) == releases
  {
  }

  lemma NothingCut(links: map<Link, Source>, releases: set<(Id, Version)>, archive: Archive, order: seq<Id>, v: Version, answers: Id -> Outcome)
    ensures PinnedExist(links, links, releases, v) && Archived(archive, archive, Cut(order, 0, answers), links, v)
  {
  }

  lemma RepinnedKeys(links: map<Link, Source>, done: set<Id>, v: Version)
    ensures Repinned(links, done, v).Keys == links.Keys
  {
  }

  lemma CutMore(order: seq<Id>, i: nat, answers: Id -> Outcome)
    requires i < |order|
    ensures Cut(order, i + 1, answers) == if answers(order[i]).Created? then Cut(order, i, answers) + {order[i]} else Cut(order, i, answers)
  {
  }

  lemma CountNothing(order: seq<Id>, answers: Id -> Outcome)
    ensures CutCount(order, 0, answers) == 0
  {
  }

  lemma CountMore(order: seq<Id>, i: nat, answers: Id -> Outcome)
    requires i < |order|
    ensures CutCount(order, i + 1, answers) == CutCount(order, i, answers) + if answers(order[i]).Created? then 1 else 0
  {
    var a, b := set k | 0 <= k < i && answers(order[k]).Created?, set k | 0 <= k < i + 1 && answers(order[k]).Created?;
    assert b == if answers(order[i]).Created? then a + {i} else a;
  }

  /** In an order without repetition as many projects as positions are counted. */
  lemma {:induction false} CountIsCut(order: seq<Id>, n: nat, answers: Id -> Outcome)
    requires n <= |order| && Distinct(order)
    ensures CutCount(order, n, answers) == |Cut(order, n, answers)|
    decreases n
  {
    hide CutCount;
    if n == 0 {
      CountNothing(order, answers);
      assert Cut(order, 0, answers) == {};
    } else {
      CountIsCut(order, n - 1, answers);
      CountMore(order, n - 1, answers);
      CutMore(order, n - 1, answers);
      assert order[n - 1] !in Cut(order, n - 1, answers);
    }
  }

  lemma ArchivedMore(before: Archive, shown: Archive, archive: Archive, links: map<Link, Source>, order: seq<Id>, i: nat, v: Version, answers: Id -> Outcome)
    requires i < |order| && Archived(before, shown, Cut(order, i, answers), links, v)
    requires (order[i], v) in archive && archive == shown[(order[i], v) := archive[(order[i], v)]]
    requires Shows(archive[(order[i], v)], links, order[i], v)
    ensures Archived(before, archive, Cut(order, i, answers) + {order[i]}, links, v)
  {
    hide Shows, Cut;
  }

  lemma FirstMore(order: seq<Id>, i: nat)
    requires i < |order|
    ensures Elements(order[..i + 1]) == Elements(order[..i]) + {order[i]}
  {
    assert order[..i + 1] == order[..i] + [order[i]];
    AppendElement(order[..i], order[i]);
  }

  lemma RepinnedMore(links: map<Link, Source>, done: set<Id>, p: Id, v: Version)
    ensures Repinned(Repinned(links, done, v), {p}, v) == Repinned(links, done + {p}, v)
  {
  }

  lemma ReleasesMore(done: set<Id>, p: Id, v: Version)
    ensures ReleasesOf(done + {p}, v) == ReleasesOf(done, v) + {(p, v)}
  {
    forall r | r in ReleasesOf(done + {p}, v) ensures r in ReleasesOf(done, v) + {(p, v)} {
      assert r.0 in done + {p};
    }
  }

  /** When a project's turn comes, all its parents have the release. */
  lemma Satisfied(shells: set<Id>, releases: set<(Id, Version)>, links: map<Link, Source>, order: seq<Id>, i: nat, v: Version)
    requires forall l | l in links :: l.parent in shells
    requires i < |order| && ParentsFirst(order, PendingProjects(shells, releases, v), links.Keys)
    ensures forall l | l in links && l.child == order[i] :: (l.parent, v) in releases + ReleasesOf(Elements(order[..i]), v)
  {
    forall l | l in links && l.child == order[i] ensures (l.parent, v) in releases + ReleasesOf(Elements(order[..i]), v) {
      if (l.parent, v) !in releases {
        assert Link(order[i], l.parent) == l;
        assert l.parent in ParentsOf(order[i], PendingProjects(shells, releases, v), links.Keys);
      }
    }
  }

  /** Blocked projects are never touched: not released, and their links stay as they were. */
  lemma BlockedUntouched(shells: set<Id>, before: set<(Id, Version)>, links: map<Link, Source>, order: seq<Id>, blocked: seq<Id>, n: nat, m: nat, v: Version)
    requires Elements(order) + Elements(blocked) == PendingProjects(shells, before, v) && Elements(order) !! Elements(blocked)
    requires n <= m <= |order|
    ensures forall b | b in blocked :: (b, v) !in before + ReleasesOf(Elements(order[..n]), v)
    ensures forall l | l in links && l.child in blocked :: Repinned(links, Elements(order[..m]), v)[l] == links[l]
  {
    assert Elements(order[..n]) <= Elements(order) && Elements(order[..m]) <= Elements(order);
    forall b | b in blocked ensures (b, v) !in before + ReleasesOf(Elements(order[..n]), v) {
      assert b in Elements(blocked);
    }
    forall l | l in links && l.child in blocked ensures l.child !in Elements(order[..m]) {
      assert l.child in Elements(blocked);
    }
  }

  /** After a full run exactly the blocked projects are pending, and a second run can order
      none of them; with nothing blocked it finds nothing to do. */
  lemma Rerun(shells: set<Id>, before: set<(Id, Version)>, links: set<Link>, order: seq<Id>, blocked: seq<Id>, v: Version, order': seq<Id>, blocked': seq<Id>)
    requires Split(order, blocked, PendingProjects(shells, before, v), links)
    requires Split(order', blocked', PendingProjects(shells, before + ReleasesOf(Elements(order), v), v), links)
    ensures PendingProjects(shells, before + ReleasesOf(Elements(order), v), v) == Elements(blocked)
    ensures order' == [] && Elements(blocked') == Elements(blocked)
  {
    hide ReachesCycle, AllStuck;
    var pending := PendingProjects(shells, before + ReleasesOf(Elements(order), v), v);
    forall p ensures p in pending <==> p in Elements(blocked) {
      assert p in PendingProjects(shells, before, v) <==> p in Elements(order) || p in Elements(blocked);
    }
    assert pending == Elements(blocked);
    StillStuck(Elements(blocked), PendingProjects(shells, before, v), links);
    assert Elements(blocked') == pending;
    assert Elements(order') == {};
    HasElement(order');
  }

  lemma HasElement(s: seq<Id>)
    ensures s != [] ==> Elements(s) != {}
  {
    if s != [] { assert s[0] in Elements(s); }
  }

  // ---------------------------------------------------------------- the drain loop

  predicate BackfillProgressed(prevRemaining: nat, currRemaining: nat) {
    currRemaining < prevRemaining
  }

  datatype Drained = Drained(passes: nat, remaining: nat) | DrainFailed

  /** The drain: `counts(n)` is the number of unprocessed release change sets after `n` passes,
      whatever the processing does, and `fails(n)` tells whether pass `n` ends in an error. */
  method Drain(counts: nat -> nat, fails: nat -> bool) returns (r: Drained)
    ensures r.Drained? ==> r.passes <= counts(0) && r.remaining == counts(r.passes)
    ensures r.Drained? ==> forall n | 0 < n < r.passes :: 0 < counts(n) < counts(n - 1)
    ensures r.Drained? ==> r.remaining == 0 || (r.passes > 0 && counts(r.passes) >= counts(r.passes - 1))
    ensures r.DrainFailed? <==> exists n :: Stops(counts, fails, n)
  {
    var start := counts(0);
    var remaining := start;
    var passes := 0;
    while remaining > 0
      invariant remaining == counts(passes) && passes + remaining <= start
      invariant forall n | 0 < n <= passes :: counts(n) < counts(n - 1)
      invariant forall n | 0 <= n < passes :: counts(n) > 0 && !fails(n)
      decreases remaining
    {
      if fails(passes) {
        assert Stops(counts, fails, passes);
        return DrainFailed;
      }
      var next := counts(passes + 1);
      passes := passes + 1;
      if !BackfillProgressed(remaining, next) {
        NeverStops(counts, fails, passes);
        return Drained(passes, next);
      }
      remaining := next;
    }
    NeverStops(counts, fails, passes);
    return Drained(passes, remaining);
  }

  /** Pass `n` is reached and fails. */
  predicate Stops(counts: nat -> nat, fails: nat -> bool, n: nat) {
    && fails(n) && counts(n) > 0
    && (forall k | 0 < k <= n :: counts(k) < counts(k - 1))
    && forall k | 0 <= k < n :: counts(k) > 0 && !fails(k)
  }

  lemma NeverStops(counts: nat -> nat, fails: nat -> bool, passes: nat)
    requires forall n | 0 <= n < passes :: counts(n) > 0 && !fails(n)
    requires counts(passes) == 0 || (passes > 0 && counts(passes) >= counts(passes - 1))
    ensures forall n :: !Stops(counts, fails, n)
  {
  }
}
