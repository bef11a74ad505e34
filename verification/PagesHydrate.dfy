/** `pages hydrate` for one language: the values of the edited files grouped by slug, and the
    groups applied one after the other, in whatever order the map gives them. */
module PagesHydrate {
  import opened Wrappers
  import opened Bytes
  import opened PagesEdit
  import opened PagesText

  /** Slug to leaf key to new value. */
  type Groups = map<Bytes, Updates>

  predicate Wanted(doc: EditableDoc, full: Bytes) {
    full in doc.values && doc.values[full] != "" && SplitLeaf(full, doc.slug).Some?
  }

  function LeafSet(doc: EditableDoc, done: set<Bytes>): set<Bytes> {
    set full | full in done && Wanted(doc, full) :: SplitLeaf(full, doc.slug).value
  }

  /** The non-empty values of the doc's own slug among the keys `done`, by leaf. */
  function LeavesAmong(doc: EditableDoc, done: set<Bytes>): Updates {
    map leaf | leaf in LeafSet(doc, done) && FullKey(doc.slug, leaf) in doc.values :: doc.values[FullKey(doc.slug, leaf)]
  }

  function LeavesOf(doc: EditableDoc): Updates {
    LeavesAmong(doc, doc.values.Keys)
  }

  function AddTo(m: Groups, slug: Bytes, kv: Updates): Groups {
    if kv == map[] then m else m[slug := (if slug in m then m[slug] else map[]) + kv]
  }

  function Grouped(docs: seq<EditableDoc>): Groups {
    if docs == [] then map[]
    else
      var last := docs[|docs| - 1];
      AddTo(Grouped(docs[..|docs| - 1]), last.slug, LeavesOf(last))
  }

  /** A leaf is among them exactly when its full key is. */
  lemma LeafIff(doc: EditableDoc, done: set<Bytes>, leaf: Bytes)
    ensures var full := FullKey(doc.slug, leaf);
            && (leaf in LeavesAmong(doc, done) <==> full in done && Wanted(doc, full) && SplitLeaf(full, doc.slug) == Some(leaf))
            && (leaf in LeavesAmong(doc, done) ==> LeavesAmong(doc, done)[leaf] == doc.values[full])
  {
    hide SplitLeaf, FullKey;
    var full := FullKey(doc.slug, leaf);
    if leaf in LeafSet(doc, done) {
      var f :| f in done && Wanted(doc, f) && leaf == SplitLeaf(f, doc.slug).value;
      SplitLeafIff(f, doc.slug, leaf);
    }
    if full in done && Wanted(doc, full) && SplitLeaf(full, doc.slug) == Some(leaf) {
      assert SplitLeaf(full, doc.slug).value in LeafSet(doc, done);
    }
  }

  /** Doc `i` gives a value for this leaf of the slug. */
  predicate Gives(docs: seq<EditableDoc>, i: nat, slug: Bytes, leaf: Bytes)
    requires i < |docs|
  {
    docs[i].slug == slug && leaf in LeavesOf(docs[i])
  }

  /** A leaf is updated exactly when some doc gives a value for it, and the last one counts. */
  lemma {:induction false} GroupedIff(docs: seq<EditableDoc>, slug: Bytes, leaf: Bytes)
    ensures (slug in Grouped(docs) && leaf in Grouped(docs)[slug]) <==> exists i :: 0 <= i < |docs| && Gives(docs, i, slug, leaf)
    ensures forall i | 0 <= i < |docs| && Gives(docs, i, slug, leaf) && (forall j | i < j < |docs| :: !Gives(docs, j, slug, leaf)) ::
              slug in Grouped(docs) && leaf in Grouped(docs)[slug] && Grouped(docs)[slug][leaf] == LeavesOf(docs[i])[leaf]
    decreases |docs|
  {
    hide LeavesOf, Grouped, Gives, AddTo;
    if docs == [] {
      NothingGrouped(slug, leaf);
    } else {
      var n := |docs| - 1;
      GroupedIff(docs[..n], slug, leaf);
      forall i | 0 <= i < n ensures Gives(docs, i, slug, leaf) <==> Gives(docs[..n], i, slug, leaf) { SameGives(docs, n, i, slug, leaf); }
      GroupedLast(docs, slug, leaf);
    }
  }

  lemma NothingGrouped(slug: Bytes, leaf: Bytes)
    ensures slug !in Grouped([])
  {
  }

  lemma SameGives(docs: seq<EditableDoc>, n: nat, i: nat, slug: Bytes, leaf: Bytes)
    requires i < n <= |docs|
    ensures Gives(docs, i, slug, leaf) <==> Gives(docs[..n], i, slug, leaf)
  {
    hide LeavesOf;
  }

  /** What the last doc does to one leaf. */
  lemma GroupedLast(docs: seq<EditableDoc>, slug: Bytes, leaf: Bytes)
    requires docs != []
    ensures var n := |docs| - 1;
            var before, after := Grouped(docs[..n]), Grouped(docs);
            if Gives(docs, n, slug, leaf) then
              slug in after && leaf in after[slug] && after[slug][leaf] == LeavesOf(docs[n])[leaf]
            else
              (slug in after && leaf in after[slug] <==> slug in before && leaf in before[slug])
              && (slug in before && leaf in before[slug] ==> after[slug][leaf] == before[slug][leaf])
  {
    hide LeavesOf;
  }

  /** The doc whose value counts. */
  lemma LastGiver(docs: seq<EditableDoc>, slug: Bytes, leaf: Bytes) returns (i: nat)
    requires slug in Grouped(docs) && leaf in Grouped(docs)[slug]
    ensures i < |docs| && docs[i].slug == slug && leaf in LeavesOf(docs[i])
    ensures Grouped(docs)[slug][leaf] == LeavesOf(docs[i])[leaf]
  {
    hide LeavesOf, Grouped;
    GroupedIff(docs, slug, leaf);
    i :| 0 <= i < |docs| && Gives(docs, i, slug, leaf);
    var k := |docs|;
    while k > 0 && !Gives(docs, k - 1, slug, leaf)
      invariant i < k <= |docs| && forall j | k <= j < |docs| :: !Gives(docs, j, slug, leaf)
    {
      k := k - 1;
    }
    i := k - 1;
  }

  /** A slug without updates has no group. */
  lemma {:induction false} NoEmptyGroup(docs: seq<EditableDoc>, slug: Bytes)
    requires slug in Grouped(docs)
    ensures Grouped(docs)[slug] != map[]
    decreases |docs|
  {
    hide LeavesOf;
    var n := |docs| - 1;
    if slug in Grouped(docs[..n]) { NoEmptyGroup(docs[..n], slug); }
    var kv := LeavesOf(docs[n]);
    if kv != map[] && slug == docs[n].slug {
      var leaf :| leaf in kv;
      assert leaf in Grouped(docs)[slug];
    }
  }

  lemma LeavesMore(doc: EditableDoc, done: set<Bytes>, full: Bytes)
    requires full !in done
    ensures LeavesAmong(doc, done + {full})
         == if Wanted(doc, full) then LeavesAmong(doc, done)[SplitLeaf(full, doc.slug).value := doc.values[full]]
            else LeavesAmong(doc, done)
  {
    hide SplitLeaf, LeavesAmong, FullKey;
    var a := LeavesAmong(doc, done + {full});
    var b := LeavesAmong(doc, done);
    var more := if Wanted(doc, full) then b[SplitLeaf(full, doc.slug).value := doc.values[full]] else b;
    if Wanted(doc, full) { SplitLeafIff(full, doc.slug, SplitLeaf(full, doc.slug).value); }
    forall l ensures (l in a <==> l in more) && (l in a ==> a[l] == more[l]) {
      LeafIff(doc, done + {full}, l);
      LeafIff(doc, done, l);
    }
    assert a == more;
  }

  lemma AddStep(m: Groups, slug: Bytes, kv: Updates, leaf: Bytes, v: Bytes)
    ensures var g := AddTo(m, slug, kv);
            g[slug := (if slug in g then g[slug] else map[])[leaf := v]] == AddTo(m, slug, kv[leaf := v])
  {
    var g := AddTo(m, slug, kv);
    var old_ := if slug in m then m[slug] else map[];
    assert kv[leaf := v] != map[] by { assert leaf in kv[leaf := v]; }
    assert (old_ + kv)[leaf := v] == old_ + kv[leaf := v];
    if kv == map[] { assert old_ + kv == old_; }
  }

  /** The nested loops over the docs and over each doc's values. */
  method GroupBySlug(docs: seq<EditableDoc>) returns (bySlug: Groups)
    ensures bySlug == Grouped(docs)
  {
    bySlug := map[];
    var i := 0;
    while i < |docs|
      invariant 0 <= i <= |docs|
      invariant bySlug == Grouped(docs[..i])
    {
      bySlug := AddDoc(bySlug, docs[i]);
      assert docs[..i + 1][..i] == docs[..i];
      i := i + 1;
    }
    assert docs[..i] == docs;
  }

  method AddDoc(before: Groups, d: EditableDoc) returns (bySlug: Groups)
    ensures bySlug == AddTo(before, d.slug, LeavesOf(d))
  {
    hide SplitLeaf, LeavesAmong, AddTo;
    bySlug := before;
    var todo := d.values.Keys;
    ghost var done: set<Bytes> := {};
    NoLeaves(before, d);
    while todo != {}
      invariant done + todo == d.values.Keys && done !! todo
      invariant bySlug == AddTo(before, d.slug, LeavesAmong(d, done))
      decreases |todo|
    {
      var full :| full in todo;
      todo := todo - {full};
      LeavesMore(d, done, full);
      var leaf := SplitLeaf(full, d.slug);
      if d.values[full] != "" && leaf.Some? {
        AddStep(before, d.slug, LeavesAmong(d, done), leaf.value, d.values[full]);
        var kv := if d.slug in bySlug then bySlug[d.slug] else map[];
        bySlug := bySlug[d.slug := kv[leaf.value := d.values[full]]];
      }
      done := done + {full};
    }
    assert done == d.values.Keys;
  }

  lemma NoLeaves(m: Groups, d: EditableDoc)
    ensures AddTo(m, d.slug, LeavesAmong(d, {})) == m
  {
    hide SplitLeaf;
  }

  // ---------------------------------------------------------------- applying the groups

  ghost function HydrateInOrder(raw: Bytes, groups: Groups, order: seq<Bytes>): Result<Bytes, EditError>
    requires forall k | 0 <= k < |order| :: order[k] in groups
    decreases |order|
  {
    if order == [] then Ok(raw)
    else
      match Apply(raw, order[0], groups[order[0]])
      case Err(e) => Err(e)
      case Ok(out) => HydrateInOrder(out, groups, order[1..])
  }

  lemma {:induction false} HydrateOneMore(raw: Bytes, groups: Groups, order: seq<Bytes>, slug: Bytes)
    requires slug in groups && forall k | 0 <= k < |order| :: order[k] in groups
    ensures HydrateInOrder(raw, groups, order + [slug])
         == match HydrateInOrder(raw, groups, order)
            case Err(e) => Err(e)
            case Ok(out) => Apply(out, slug, groups[slug])
    decreases |order|
  {
    hide Apply;
    if order == [] {
      assert ([] + [slug])[1..] == [];
    } else {
      assert (order + [slug])[1..] == order[1..] + [slug];
      match Apply(raw, order[0], groups[order[0]])
      case Err(_) =>
      case Ok(out) => HydrateOneMore(out, groups, order[1..], slug);
    }
  }

  /** Slugs of the groups, each at most once. */
  predicate Visits(groups: Groups, order: seq<Bytes>) {
    && (forall k | 0 <= k < |order| :: order[k] in groups)
    && forall j, k | 0 <= j < k < |order| :: order[j] != order[k]
  }

  /** What comes out when the groups are applied in some order: of all of them, unless one
      fails. */
  ghost predicate Hydrated(raw: Bytes, groups: Groups, r: Result<Bytes, EditError>) {
    exists order :: Visits(groups, order) && r == HydrateInOrder(raw, groups, order)
                    && (r.Ok? ==> forall slug | slug in groups :: slug in order)
  }

  /** One language of `pages hydrate`. */
  method HydrateLanguage(raw: Bytes, docs: seq<EditableDoc>) returns (r: Result<Bytes, EditError>)
    ensures Hydrated(raw, Grouped(docs), r)
  {
    hide Apply, Grouped;
    var bySlug := GroupBySlug(docs);
    var out := raw;
    var todo := bySlug.Keys;
    ghost var order: seq<Bytes> := [];
    while todo != {}
      invariant todo <= bySlug.Keys
      invariant forall slug | slug in bySlug :: slug in order <==> slug !in todo
      invariant Visits(bySlug, order)
      invariant HydrateInOrder(raw, bySlug, order) == Ok(out)
      decreases |todo|
    {
      var slug :| slug in todo;
      todo := todo - {slug};
      r := ApplySlugUpdates(out, slug, bySlug[slug]);
      HydrateOneMore(raw, bySlug, order, slug);
      order := order + [slug];
      if r.Err? {
        return;
      }
      out := r.value;
    }
    r := Ok(out);
  }
}
