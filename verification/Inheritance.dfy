/** The project inheritance store: four transactions over the projects and their inheritance
    rows, with the constraints and the cycle guard of the database. */
module Inheritance {
  import opened Wrappers
  import opened Bytes
  import opened Sorting
  import opened Families
  import BaselineOrder
  import Lexicographic

  type Link = BaselineOrder.Link

  // ---------------------------------------------------------------- the cycle guard

  /** A way from child to parent along links. */
  predicate Joined(path: seq<Id>, links: set<Link>) {
    path != [] && forall i | 0 < i < |path| :: BaselineOrder.Link(path[i - 1], path[i]) in links
  }

  /** `y` is `x` or an ancestor of it. */
  ghost predicate Reaches(links: set<Link>, x: Id, y: Id) {
    exists path :: Joined(path, links) && path[0] == x && path[|path| - 1] == y
  }

  ghost predicate Acyclic(links: set<Link>) {
    forall l | l in links :: !Reaches(links, l.parent, l.child)
  }

  lemma ReachesSelf(links: set<Link>, x: Id)
    ensures Reaches(links, x, x)
  {
    assert Joined([x], links);
  }

  lemma ReachesFurther(links: set<Link>, x: Id, y: Id, z: Id)
    requires Reaches(links, x, y) && BaselineOrder.Link(y, z) in links
    ensures Reaches(links, x, z)
  {
    var path :| Joined(path, links) && path[0] == x && path[|path| - 1] == y;
    assert Joined(path + [z], links);
  }

  lemma {:induction false} ReachesThrough(links: set<Link>, x: Id, y: Id, path: seq<Id>)
    requires Reaches(links, x, y) && Joined(path, links) && path[0] == y
    ensures Reaches(links, x, path[|path| - 1])
    decreases |path|
  {
    var n := |path| - 1;
    if n > 0 {
      ReachesThrough(links, x, y, path[..n]);
      ReachesFurther(links, x, path[n - 1], path[n]);
    }
  }

  lemma ReachesVia(links: set<Link>, x: Id, y: Id, z: Id)
    requires Reaches(links, x, y) && Reaches(links, y, z)
    ensures Reaches(links, x, z)
  {
    var path :| Joined(path, links) && path[0] == y && path[|path| - 1] == z;
    ReachesThrough(links, x, y, path);
  }

  /** A way that may use the new link p-q avoids it, or gets to p and goes on from q. */
  lemma {:induction false} AvoidOrUse(links: set<Link>, p: Id, q: Id, path: seq<Id>)
    requires Joined(path, links + {BaselineOrder.Link(p, q)}) && !Reaches(links, q, p)
    ensures var x, y := path[0], path[|path| - 1];
            Reaches(links, x, y) || (Reaches(links, x, p) && Reaches(links, q, y))
    decreases |path|
  {
    hide Reaches;
    var n := |path| - 1;
    if n == 0 {
      ReachesSelf(links, path[0]);
    } else {
      AvoidOrUse(links, p, q, path[..n]);
      var x, z, y := path[0], path[n - 1], path[n];
      if BaselineOrder.Link(z, y) in links {
        if Reaches(links, x, z) {
          ReachesFurther(links, x, z, y);
        } else {
          ReachesFurther(links, q, z, y);
        }
      } else {
        assert z == p && y == q;
        ReachesSelf(links, q);
      }
    }
  }

  /** A link whose parent is no descendant of its child closes no cycle. */
  lemma StaysAcyclic(links: set<Link>, p: Id, q: Id)
    requires Acyclic(links) && !Reaches(links, q, p)
    ensures Acyclic(links + {BaselineOrder.Link(p, q)})
  {
    var more := links + {BaselineOrder.Link(p, q)};
    forall l | l in more ensures !Reaches(more, l.parent, l.child) {
      if Reaches(more, l.parent, l.child) {
        var path :| Joined(path, more) && path[0] == l.parent && path[|path| - 1] == l.child;
        AvoidOrUse(links, p, q, path);
        if !Reaches(links, l.parent, l.child) {
          Closing(links, p, q, l);
        }
      }
    }
  }

  lemma Closing(links: set<Link>, p: Id, q: Id, l: Link)
    requires l in links + {BaselineOrder.Link(p, q)}
    requires Reaches(links, l.parent, p) && Reaches(links, q, l.child)
    ensures Reaches(links, q, p)
  {
    hide Reaches;
    if l in links {
      ReachesFurther(links, q, l.child, l.parent);
      ReachesVia(links, q, l.parent, p);
    }
  }

  lemma ReachesInMore(fewer: set<Link>, links: set<Link>, x: Id, y: Id)
    requires fewer <= links && Reaches(fewer, x, y)
    ensures Reaches(links, x, y)
  {
    var path :| Joined(path, fewer) && path[0] == x && path[|path| - 1] == y;
    assert Joined(path, links);
  }

  lemma FewerLinks(links: set<Link>, fewer: set<Link>)
    requires Acyclic(links) && fewer <= links
    ensures Acyclic(fewer)
  {
    hide Reaches;
    forall l | l in fewer ensures !Reaches(fewer, l.parent, l.child) {
      if Reaches(fewer, l.parent, l.child) {
        ReachesInMore(fewer, links, l.parent, l.child);
      }
    }
  }

  /** The recursive query of the trigger: all ancestors of `from`, round by round. */
  method IsAncestor(links: set<Link>, from: Id, target: Id) returns (found: bool)
    ensures found <==> Reaches(links, from, target)
  {
    var ancestors := {from};
    var all := {from} + set l | l in links :: l.parent;
    ReachesSelf(links, from);
    while true
      invariant from in ancestors && ancestors <= all
      invariant forall x | x in ancestors :: Reaches(links, from, x)
      decreases all - ancestors
    {
      var more := set l | l in links && l.child in ancestors && l.parent !in ancestors :: l.parent;
      forall x | x in more ensures Reaches(links, from, x) {
        var l :| l in links && l.child in ancestors && l.parent == x;
        assert BaselineOrder.Link(l.child, l.parent) == l;
        ReachesFurther(links, from, l.child, x);
      }
      if more == {} {
        assert forall l | l in links && l.child in ancestors && l.parent !in ancestors :: l.parent in more;
        break;
      }
      assert exists x :: x in more && x !in ancestors && x in all by {
        var x :| x in more;
      }
      ancestors := ancestors + more;
    }
    found := target in ancestors;
    if Reaches(links, from, target) {
      var path :| Joined(path, links) && path[0] == from && path[|path| - 1] == target;
      AllInside(links, ancestors, path);
    }
  }

  lemma {:induction false} AllInside(links: set<Link>, inside: set<Id>, path: seq<Id>)
    requires Joined(path, links) && path[0] in inside
    requires forall l | l in links && l.child in inside :: l.parent in inside
    ensures path[|path| - 1] in inside
    decreases |path|
  {
    var n := |path| - 1;
    if n > 0 {
      AllInside(links, inside, path[..n]);
      assert BaselineOrder.Link(path[n - 1], path[n]) in links;
    }
  }

  lemma CycleOfWalk(links: set<Link>, among: set<Id>, x: Id) returns (l: Link)
    requires BaselineOrder.ReachesCycle(x, among, links)
    ensures l in links && Reaches(links, l.parent, l.child)
  {
    var path :| BaselineOrder.Walk(path, among, links) && path[0] == x && BaselineOrder.Repeats(path);
    var i, j :| 0 <= i < j < |path| && path[i] == path[j];
    l := BaselineOrder.Link(path[i], path[i + 1]);
    var loop := path[i + 1..j + 1];
    forall k | 0 < k < |loop| ensures BaselineOrder.Link(loop[k - 1], loop[k]) in links {
      assert BaselineOrder.Link(path[i + k], path[i + 1 + k]) in links;
    }
    assert Joined(loop, links) && loop[0] == l.parent && loop[|loop| - 1] == l.child;
  }

  /** Without cycles the baseline release order blocks nobody. */
  lemma AcyclicNeverBlocks(links: set<Link>, among: set<Id>, x: Id)
    requires Acyclic(links)
    ensures !BaselineOrder.ReachesCycle(x, among, links)
  {
    hide Reaches, BaselineOrder.ReachesCycle;
    if BaselineOrder.ReachesCycle(x, among, links) {
      var l := CycleOfWalk(links, among, x);
    }
  }

  // ---------------------------------------------------------------- the store

  /** A row of `weave_projects`, as far as its parents go, with its inheritance rows. */
  datatype Project = Project(family: Family, column: Option<Id>)

  /** The argument of `Add`; the version is absent when blank. */
  datatype NewLink = NewLink(parent: Id, isPrimary: bool, order: int, mode: string, version: Option<Bytes>)

  datatype Refusal = ClosesCycle | BadSource | CompetingPrimary | UnknownProject | NotFound

  function LinksOf(projects: map<Id, Project>): set<Link> {
    set p, q | p in projects && q in projects[p].family :: BaselineOrder.Link(p, q)
  }

  /** The source columns, or none when the table's check refuses them: a version goes with a
      release and with nothing else. */
  function SourceOf(link: NewLink): Option<Source> {
    if link.mode == "release" then if link.version.Some? then Some(Release(link.version.value)) else None
    else if link.version.None? then Some(Draft) else None
  }

  /** The mode `release` needs a version, and every other mode counts as draft and must not have
      one. */
  lemma SourceIff(link: NewLink, v: Bytes)
    ensures SourceOf(link) == Some(Release(v)) <==> link.mode == "release" && link.version == Some(v)
    ensures SourceOf(link) == Some(Draft) <==> link.mode != "release" && link.version.None?
    ensures SourceOf(link).None? <==> (link.mode == "release" <==> link.version.None?)
  {
  }

  predicate HasOtherPrimary(fam: Family, q: Id) {
    exists x | x in fam :: x != q && fam[x].isPrimary
  }

  ghost predicate Accepts(projects: map<Id, Project>, p: Id, link: NewLink) {
    && p in projects && link.parent in projects
    && !Reaches(LinksOf(projects), link.parent, p) && SourceOf(link).Some?
    && !(link.isPrimary && HasOtherPrimary(projects[p].family, link.parent))
  }

  /** What a refusal says is so. */
  ghost predicate Justified(projects: map<Id, Project>, p: Id, link: NewLink, refusal: Refusal) {
    match refusal
    case ClosesCycle => Reaches(LinksOf(projects), link.parent, p)
    case BadSource => SourceOf(link).None?
    case UnknownProject => p !in projects || link.parent !in projects
    case CompetingPrimary => link.isPrimary && p in projects && HasOtherPrimary(projects[p].family, link.parent)
    case NotFound => false
  }

  /** A good state: all parents are projects, every family is good, and there is no cycle. */
  ghost predicate Consistent(projects: map<Id, Project>) {
    && (forall p | p in projects :: projects[p].family.Keys <= projects.Keys)
    && (forall p | p in projects :: Good(projects[p].family, projects[p].column))
    && Acyclic(LinksOf(projects))
  }

  /** Only the project `p` may differ. */
  predicate OthersSame(before: map<Id, Project>, projects: map<Id, Project>, p: Id) {
    projects.Keys == before.Keys && forall x | x in projects && x != p :: projects[x] == before[x]
  }

  class InheritanceStore {
    var projects: map<Id, Project>

    ghost predicate Valid()
      reads this
    {
      Consistent(projects)
    }

    constructor (ids: set<Id>)
      ensures Valid() && projects == map p | p in ids :: Project(map[], None)
    {
      projects := map p | p in ids :: Project(map[], None);
      new;
      NoParents(ids);
    }

    /** Adding a link, or rewriting it. It commits exactly when the database accepts the row;
        in particular a primary link is refused while another parent is primary, since the row
        is written before the other one would be cleared. */
    method Add(p: Id, link: NewLink) returns (refused: Option<Refusal>)
      requires Valid()
      modifies this
      ensures Valid()
      ensures refused.None? <==> Accepts(old(projects), p, link)
      ensures refused.Some? ==> projects == old(projects) && Justified(projects, p, link, refused.value)
      ensures refused.None? ==> OthersSame(old(projects), projects, p) && Added(old(projects)[p], projects[p], link)
    {
      hide Consistent, Reaches, SourceOf, HasOtherPrimary, Added, Good, LinksOf;
      var closes := IsAncestor(LinksOf(projects), link.parent, p);
      if closes {
        return Some(ClosesCycle);
      }
      if SourceOf(link).None? {
        return Some(BadSource);
      }
      if p !in projects || link.parent !in projects {
        return Some(UnknownProject);
      }
      if link.isPrimary && HasOtherPrimary(projects[p].family, link.parent) {
        return Some(CompetingPrimary);
      }
      GoodProject(projects, p);
      var project := WriteLink(projects[p], link);
      AddedFamily(projects[p], project, link);
      ConsistentAfterAdd(projects, p, link.parent, project);
      projects := projects[p := project];
      return None;
    }

    /** Removing a link; one that is not there, or of an unknown project, is no error. */
    method Remove(p: Id, q: Id)
      requires Valid()
      modifies this
      ensures Valid() && OthersSame(old(projects), projects, p)
      ensures p in projects ==> Removed(old(projects)[p], projects[p], q)
    {
      hide Consistent, Good, Removed, LinksOf;
      if p in projects {
        GoodProject(projects, p);
        var project := DeleteLink(projects[p], q);
        RemovedFamily(projects[p], project, q);
        ConsistentAfterFewer(projects, p, project);
        projects := projects[p := project];
      }
    }

    /** Choosing the primary among the parents. */
    method SetPrimary(p: Id, q: Id) returns (refused: Option<Refusal>)
      requires Valid()
      modifies this
      ensures Valid() && OthersSame(old(projects), projects, p)
      ensures refused.None? <==> p in projects && q in old(projects)[p].family
      ensures refused.Some? ==> projects == old(projects) && refused.value.NotFound?
      ensures refused.None? ==> Chosen(old(projects)[p], projects[p], q)
    {
      hide Consistent, Good, Chosen, LinksOf;
      if p !in projects || q !in projects[p].family {
        return Some(NotFound);
      }
      GoodProject(projects, p);
      var project := MarkPrimary(projects[p], q);
      ChosenFamily(projects[p], project, q);
      ConsistentAfterFewer(projects, p, project);
      projects := projects[p := project];
      return None;
    }

    /** Reordering the parents. */
    method Reorder(p: Id, list: seq<Id>)
      requires Valid()
      modifies this
      ensures Valid() && OthersSame(old(projects), projects, p)
      ensures p in projects ==> Reordered(old(projects)[p], projects[p], list)
    {
      hide Consistent, Good, Reordered, LinksOf;
      if |list| == 0 {
        if p in projects {
          GoodProject(projects, p);
          NotReordered(projects[p]);
        }
        return;
      }
      if p in projects {
        GoodProject(projects, p);
        var project := PlaceParents(projects[p], list);
        ReorderedFamily(projects[p], project, list);
        ConsistentAfterFewer(projects, p, project);
        projects := projects[p := project];
      }
    }
  }

  // ---------------------------------------------------------------- removing

  /** The link is gone, the others keep their order and sources, and the primary is the old one
      or, if that was removed, the first that is left. */
  ghost predicate Removed(before: Project, after: Project, q: Id) {
    && SameRows(before.family - {q}, after.family)
    && View(after.family) == Without(View(before.family), q)
    && after.column ==
         if before.column != Some(q) then before.column
         else if View(after.family) == [] then None
         else Some(View(after.family)[0])
  }

  method DeleteLink(before: Project, q: Id) returns (after: Project)
    requires Good(before.family, before.column)
    ensures Good(after.family, after.column) && Removed(before, after, q)
  {
    hide View, Good, Dense, Without, AtMostOnePrimary;
    var fam := before.family - {q};
    FewerRows(before.family, before.column, q);
    RemovedView(before.family, q);
    var settled, column := Settle(fam);
    after := Project(settled, column);
    ViewOfNothing(settled);
  }

  lemma FewerRows(before: Family, column: Option<Id>, q: Id)
    requires Good(before, column)
    ensures var fam := before - {q};
            && AtMostOnePrimary(fam)
            && (column.None? ==> fam == map[])
            && (column.Some? && column != Some(q) ==> column.value in fam && fam[column.value].isPrimary)
            && (column == Some(q) ==> forall x | x in fam :: !fam[x].isPrimary)
  {
    hide View, Dense;
    if column.None? { assert before - {q} == map[]; }
  }

  lemma ViewOfNothing(fam: Family)
    ensures View(fam) == [] <==> fam == map[]
  {
    NoElements(View(fam));
    assert fam.Keys == {} <==> fam == map[];
  }

  lemma RemovedFamily(before: Project, after: Project, q: Id)
    requires Removed(before, after, q)
    ensures after.family.Keys <= before.family.Keys
  {
    hide View, Without;
  }

  // ---------------------------------------------------------------- choosing the primary

  /** Only the primary flags and the column differ. */
  ghost predicate Chosen(before: Project, after: Project, q: Id) {
    && after.family.Keys == before.family.Keys
    && (forall x | x in after.family :: after.family[x] == before.family[x].(isPrimary := x == q))
    && View(after.family) == View(before.family) && after.column == Some(q)
  }

  method MarkPrimary(before: Project, q: Id) returns (after: Project)
    requires Good(before.family, before.column) && q in before.family
    ensures Good(after.family, after.column) && Chosen(before, after, q)
  {
    hide View, Dense, First;
    var fam := map x | x in before.family :: before.family[x].(isPrimary := false);
    fam := map x | x in fam :: if x == q then fam[x].(isPrimary := true) else fam[x];
    assert fam == WithPrimary(before.family, q);
    PrimarySettled(before.family, q);
    var column := SyncedColumn(fam);
    after := Project(fam, column);
  }

  lemma ChosenFamily(before: Project, after: Project, q: Id)
    requires Chosen(before, after, q)
    ensures after.family.Keys <= before.family.Keys
  {
    hide View;
  }

  // ---------------------------------------------------------------- reordering

  /** Sources and primary stay; the view is what the new positions give, and the list itself
      when that has every parent once. */
  ghost predicate Reordered(before: Project, after: Project, list: seq<Id>) {
    && SameRows(before.family, after.family) && after.column == before.column
    && View(after.family) == View(Placed(before.family, list, 0))
    && (Distinct(list) && Elements(list) == before.family.Keys && (forall k | 0 <= k < |list| :: !Blank(list[k])) ==>
          View(after.family) == list)
  }

  method PlaceParents(before: Project, list: seq<Id>) returns (after: Project)
    requires Good(before.family, before.column)
    ensures Good(after.family, after.column) && Reordered(before, after, list)
  {
    hide View, Good, Dense, AtMostOnePrimary, Placed, Blank;
    var fam := Place(before.family, list);
    PlacedRows(before.family, list, 0);
    SamePrimary(before.family, before.column, fam);
    if Distinct(list) && Elements(list) == before.family.Keys && forall k | 0 <= k < |list| :: !Blank(list[k]) {
      FullReorder(before.family, list);
    }
    var settled, column := Settle(fam);
    after := Project(settled, column);
  }

  lemma SamePrimary(before: Family, column: Option<Id>, fam: Family)
    requires Good(before, column) && SameButOrder(before, fam)
    ensures AtMostOnePrimary(fam) && (column.None? ==> fam == map[])
    ensures column.Some? ==> column.value in fam && fam[column.value].isPrimary
  {
    hide View, Dense;
    if column.None? { assert fam.Keys == {}; }
  }

  /** An empty list changes nothing, and places nothing. */
  lemma NotReordered(project: Project)
    requires Good(project.family, project.column)
    ensures Reordered(project, project, [])
  {
    hide View, Dense;
    assert Placed(project.family, [], 0) == project.family;
    if Elements([]) == project.family.Keys { ViewOfNothing(project.family); }
  }

  lemma ReorderedFamily(before: Project, after: Project, list: seq<Id>)
    requires Reordered(before, after, list)
    ensures after.family.Keys <= before.family.Keys
  {
    hide View, Placed, Blank;
  }

  lemma ConsistentAfterFewer(before: map<Id, Project>, p: Id, project: Project)
    requires Consistent(before) && p in before
    requires Good(project.family, project.column) && project.family.Keys <= before[p].family.Keys
    ensures Consistent(before[p := project]) && OthersSame(before, before[p := project], p)
  {
    hide Good, Acyclic, LinksOf;
    var after := before[p := project];
    forall l | l in LinksOf(after) ensures l in LinksOf(before) {
      IsLink(after, l);
      IsLink(before, l);
    }
    FewerLinks(LinksOf(before), LinksOf(after));
  }

  // ---------------------------------------------------------------- adding

  /** In a good state a primary link to a new or non-primary parent is accepted only for the
      first parent: later ones have to be added and then chosen. */
  lemma PrimaryOnlyFirst(projects: map<Id, Project>, p: Id, link: NewLink)
    requires Consistent(projects) && p in projects && link.isPrimary && projects[p].column != Some(link.parent)
    ensures Accepts(projects, p, link) <==>
            && projects[p].family == map[] && link.parent in projects && SourceOf(link).Some?
            && !Reaches(LinksOf(projects), link.parent, p)
  {
    hide View, Dense, Reaches, Acyclic, LinksOf, SourceOf;
    GoodProject(projects, p);
    if projects[p].family != map[] {
      assert projects[p].column.value in projects[p].family;
    }
  }

  /** The statements of `Add` on an accepted row. */
  method WriteLink(before: Project, link: NewLink) returns (after: Project)
    requires Good(before.family, before.column) && SourceOf(link).Some?
    requires !(link.isPrimary && HasOtherPrimary(before.family, link.parent))
    ensures Good(after.family, after.column) && Added(before, after, link)
  {
    hide View, Good, Dense, HasOtherPrimary, SourceOf, AtMostOnePrimary, Without;
    var fam := before.family[link.parent := Row(link.isPrimary, link.order, SourceOf(link).value)];
    if link.isPrimary {
      fam := map x | x in fam :: if x != link.parent then fam[x].(isPrimary := false) else fam[x];
    }
    InsertedFamily(before.family, before.column, link, fam);
    OthersKeepOrder(before.family, fam, link.parent);
    forall x | x in fam && x != link.parent { ViewOrder(fam, x, link.parent); }
    var settled, column := Settle(fam);
    after := Project(settled, column);
  }

  /** In particular a new parent whose order is not below the number of parents comes last, as
      when it is added through the settings. */
  lemma AddedLast(before: Project, after: Project, link: NewLink)
    requires Good(before.family, before.column) && Added(before, after, link)
    requires link.parent !in before.family && link.order >= |before.family|
    ensures View(after.family) == View(before.family) + [link.parent]
  {
    hide View, SourceOf, Without, Before, Lexicographic.Less;
    var old_, new_ := View(before.family), View(after.family);
    assert link.parent !in old_ by { assert link.parent !in Elements(old_); }
    WithoutNothing(old_, link.parent);
    assert link.parent in new_ by { assert link.parent in Elements(new_); }
    forall x | x in new_ && x != link.parent ensures Before(new_, x, link.parent) {
      assert x in Elements(new_);
      OrderBelow(before.family, x);
    }
    LastAfterAll(new_, link.parent);
  }

  lemma OrderBelow(fam: Family, x: Id)
    requires Dense(fam) && x in fam
    ensures fam[x].order < |fam|
  {
    hide ByOrder;
    var xs := View(fam);
    assert x in Elements(xs);
    var i :| 0 <= i < |xs| && xs[i] == x;
    ElementsCount(xs);
    assert |fam.Keys| == |fam|;
  }

  lemma AddedFamily(before: Project, after: Project, link: NewLink)
    requires Added(before, after, link)
    ensures after.family.Keys == before.family.Keys + {link.parent}
  {
    hide View, Without, SourceOf;
  }

  lemma GoodProject(projects: map<Id, Project>, p: Id)
    requires Consistent(projects) && p in projects
    ensures Good(projects[p].family, projects[p].column)
  {
    hide Good, Acyclic, LinksOf;
  }

  lemma ConsistentAfterAdd(before: map<Id, Project>, p: Id, q: Id, project: Project)
    requires Consistent(before) && p in before && q in before && !Reaches(LinksOf(before), q, p)
    requires Good(project.family, project.column) && project.family.Keys == before[p].family.Keys + {q}
    ensures Consistent(before[p := project]) && OthersSame(before, before[p := project], p)
  {
    hide Good, Acyclic, LinksOf, Reaches;
    LinksAfterAdd(before, before[p := project], p, q);
    StaysAcyclic(LinksOf(before), p, q);
  }

  /** The new row is there; in the view the others keep their relative order, and stand before
      it exactly when their order, or with equal orders their id, is less; the primary is the new parent if it was asked for, else the old one if it is
      another parent, else the first in order. */
  ghost predicate Added(before: Project, after: Project, link: NewLink) {
    && after.family.Keys == before.family.Keys + {link.parent}
    && (forall x | x in after.family && x != link.parent :: x in before.family && after.family[x].source == before.family[x].source)
    && SourceOf(link) == Some(after.family[link.parent].source)
    && Without(View(after.family), link.parent) == Without(View(before.family), link.parent)
    && (forall x | x in after.family && x != link.parent ::
          Before(View(after.family), x, link.parent) <==>
            before.family[x].order < link.order || (before.family[x].order == link.order && Lexicographic.Less(x, link.parent)))
    && |View(after.family)| > 0
    && after.column ==
         if link.isPrimary then Some(link.parent)
         else if before.column.Some? && before.column != Some(link.parent) then before.column
         else Some(View(after.family)[0])
  }

  lemma NoParents(ids: set<Id>)
    ensures Consistent(map p | p in ids :: Project(map[], None))
  {
    var projects: map<Id, Project> := map p | p in ids :: Project(map[], None);
    assert Elements(View(map[])) == {};
    assert LinksOf(projects) == {};
    NoElements(View(map[]));
  }

  lemma InsertedFamily(before: Family, column: Option<Id>, link: NewLink, fam: Family)
    requires Good(before, column) && SourceOf(link).Some? && !(link.isPrimary && HasOtherPrimary(before, link.parent))
    requires fam.Keys == before.Keys + {link.parent} && link.parent in fam
    requires fam[link.parent] == Row(link.isPrimary, link.order, SourceOf(link).value)
    requires forall x | x in fam && x != link.parent :: fam[x] == if link.isPrimary then before[x].(isPrimary := false) else before[x]
    ensures AtMostOnePrimary(fam) && fam != map[]
    ensures forall x | x in fam && x != link.parent :: fam[x] == before[x]
    ensures link.isPrimary ==> fam[link.parent].isPrimary
    ensures !link.isPrimary && column.Some? && column != Some(link.parent) ==> column.value in fam && fam[column.value].isPrimary
    ensures !link.isPrimary && (column.None? || column == Some(link.parent)) ==> forall x | x in fam :: !fam[x].isPrimary
  {
    hide View, Dense;
  }

  lemma LinksAfterAdd(before: map<Id, Project>, projects: map<Id, Project>, p: Id, q: Id)
    requires p in before && OthersSame(before, projects, p) && projects[p].family.Keys == before[p].family.Keys + {q}
    ensures LinksOf(projects) == LinksOf(before) + {BaselineOrder.Link(p, q)}
  {
    forall l ensures l in LinksOf(projects) <==> l in LinksOf(before) + {BaselineOrder.Link(p, q)} {
      assert l in LinksOf(projects) <==> l.child in projects && l.parent in projects[l.child].family by { IsLink(projects, l); }
      IsLink(before, l);
    }
  }

  lemma IsLink(projects: map<Id, Project>, l: Link)
    ensures l in LinksOf(projects) <==> l.child in projects && l.parent in projects[l.child].family
  {
    assert l == BaselineOrder.Link(l.child, l.parent);
  }

  // ---------------------------------------------------------------- what one call undoes

  /** A good project is determined by its view, its sources and its primary. */
  lemma GoodDetermined(a: Project, b: Project)
    requires Good(a.family, a.column) && Good(b.family, b.column) && SameRows(a.family, b.family)
    requires View(a.family) == View(b.family) && a.column == b.column
    ensures a == b
  {
    hide ByOrder;
    forall x | x in a.family ensures a.family[x] == b.family[x] {
      assert x in Elements(View(a.family));
      var i :| 0 <= i < |View(a.family)| && View(a.family)[i] == x;
      assert a.family[x].order == i == b.family[x].order;
    }
    assert a.family == b.family;
  }

  /** Removing a link that was just added restores the project entirely. */
  lemma RemoveUndoesAdd(before: Project, added: Project, after: Project, link: NewLink)
    requires Good(before.family, before.column) && Good(after.family, after.column)
    requires link.parent !in before.family && !(link.isPrimary && HasOtherPrimary(before.family, link.parent))
    requires Added(before, added, link) && Removed(added, after, link.parent)
    ensures after == before
  {
    hide Good, View, SourceOf, Added, Removed, HasOtherPrimary;
    UndoneView(before, added, after, link);
    UndoneRows(before, added, after, link);
    UndoneColumn(before, added, after, link);
    GoodDetermined(before, after);
  }

  lemma UndoneView(before: Project, added: Project, after: Project, link: NewLink)
    requires link.parent !in before.family && Added(before, added, link) && Removed(added, after, link.parent)
    ensures View(after.family) == View(before.family)
  {
    hide ByOrder, SourceOf;
    assert link.parent !in View(before.family) by { assert link.parent !in Elements(View(before.family)); }
    WithoutNothing(View(before.family), link.parent);
  }

  lemma UndoneRows(before: Project, added: Project, after: Project, link: NewLink)
    requires link.parent !in before.family && Added(before, added, link) && Removed(added, after, link.parent)
    ensures SameRows(before.family, after.family)
  {
    hide View, Without, SourceOf;
    assert (added.family - {link.parent}).Keys == before.family.Keys;
  }

  lemma UndoneColumn(before: Project, added: Project, after: Project, link: NewLink)
    requires Good(before.family, before.column) && View(after.family) == View(before.family)
    requires link.parent !in before.family && !(link.isPrimary && HasOtherPrimary(before.family, link.parent))
    requires Added(before, added, link) && Removed(added, after, link.parent)
    ensures after.column == before.column
  {
    hide View, Without, SourceOf, Dense;
    ViewOfNothing(before.family);
    ViewOfNothing(after.family);
    if before.family != map[] {
      assert before.column.value in before.family && before.column != Some(link.parent);
    }
  }
}
