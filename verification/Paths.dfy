/** File paths of materialized entities (pkg/domain/paths.go) and URL slugs
    (pkg/auth/slugs.go). */
module Paths {
  import opened Bytes

  // ---------------------------------------------------------------- file paths

  /** The known entity types, with the fields their paths are made of, and the rest. */
  datatype Spec =
    | ProjectFile
    | Category(entity: Bytes)
    | ConceptList(entity: Bytes)
    | FieldFile(entity: Bytes)
    | ModelFile(entity: Bytes)
    | CollectionFile(entity: Bytes)
    | BaseOverride(field: Bytes)
    | ModelOverride(owner: Bytes, field: Bytes, entity: Bytes)
    | CollectionOverride(owner: Bytes, field: Bytes, entity: Bytes)
    | Unknown(kind: Bytes, entity: Bytes)

  function FilePath(spec: Spec): Bytes {
    match spec
    case ProjectFile => "project.yaml"
    case Category(e) => "categories" + ("/" + (e + ".yaml"))
    case ConceptList(e) => "concept-lists" + ("/" + (e + ".yaml"))
    case FieldFile(e) => "fields" + ("/" + (e + ("/" + "field.yaml")))
    case ModelFile(e) => "models" + ("/" + (e + ("/" + "model.yaml")))
    case CollectionFile(e) => "collections" + ("/" + (e + ("/" + "collection.yaml")))
    case BaseOverride(f) => "fields" + ("/" + (f + ("/" + "base-override.yaml")))
    case ModelOverride(o, f, e) => "models" + ("/" + (o + ("/" + ("overrides/" + (f + ("@" + (e + ".yaml")))))))
    case CollectionOverride(o, f, e) => "collections" + ("/" + (o + ("/" + ("overrides/" + (f + ("@" + (e + ".yaml")))))))
    case Unknown(kind, e) => "unknown" + ("/" + (kind + ("-" + (e + ".yaml"))))
  }

  predicate NoSlash(s: Bytes) { forall k | 0 <= k < |s| :: s[k] != '/' }

  predicate NoAt(s: Bytes) { forall k | 0 <= k < |s| :: s[k] != '@' }

  /** The separators an id must not have where it stands before one. */
  predicate PlainIds(spec: Spec) {
    match spec
    case ModelFile(e) => NoSlash(e)
    case CollectionFile(e) => NoSlash(e)
    case ModelOverride(o, f, _) => NoSlash(o) && NoAt(f)
    case CollectionOverride(o, f, _) => NoSlash(o) && NoAt(f)
    case Unknown(_, _) => false
    case _ => true
  }

  /** Texts split at the same separator, the first one of both. */
  lemma SplitAt(a: Bytes, b: Bytes, x: Bytes, y: Bytes, sep: byte)
    requires (forall k | 0 <= k < |a| :: a[k] != sep) && (forall k | 0 <= k < |b| :: b[k] != sep)
    requires a + ([sep] + x) == b + ([sep] + y)
    ensures a == b && x == y
  {
    var s, t := a + ([sep] + x), b + ([sep] + y);
    assert s[|a|] == sep && t[|b|] == sep;
    assert forall k | 0 <= k < |a| :: s[k] == a[k];
    assert forall k | 0 <= k < |b| :: t[k] == b[k];
    assert |a| == |b|;
    assert s[..|a|] == a && t[..|b|] == b && s[|a| + 1..] == x && t[|b| + 1..] == y;
  }

  lemma SameEnd(a: Bytes, b: Bytes, end: Bytes)
    requires a + end == b + end
    ensures a == b
  {
    assert (a + end)[..|a|] == a && (b + end)[..|b|] == b;
  }

  /** The directory of a type. */
  function Directory(spec: Spec): Bytes {
    match spec
    case ProjectFile => ""
    case Category(_) => "categories"
    case ConceptList(_) => "concept-lists"
    case FieldFile(_) => "fields"
    case ModelFile(_) => "models"
    case CollectionFile(_) => "collections"
    case BaseOverride(_) => "fields"
    case ModelOverride(_, _, _) => "models"
    case CollectionOverride(_, _, _) => "collections"
    case Unknown(_, _) => "unknown"
  }

  /** What follows the directory. */
  function Rest(spec: Spec): Bytes {
    match spec
    case ProjectFile => ""
    case Category(e) => e + ".yaml"
    case ConceptList(e) => e + ".yaml"
    case FieldFile(e) => e + ("/" + "field.yaml")
    case ModelFile(e) => e + ("/" + "model.yaml")
    case CollectionFile(e) => e + ("/" + "collection.yaml")
    case BaseOverride(f) => f + ("/" + "base-override.yaml")
    case ModelOverride(o, f, e) => o + ("/" + ("overrides/" + (f + ("@" + (e + ".yaml")))))
    case CollectionOverride(o, f, e) => o + ("/" + ("overrides/" + (f + ("@" + (e + ".yaml")))))
    case Unknown(kind, e) => kind + ("-" + (e + ".yaml"))
  }

  lemma Directories(a: Spec)
    ensures NoSlash(Directory(a)) && NoSlash("project.yaml")
    ensures !a.ProjectFile? ==> FilePath(a) == Directory(a) + ("/" + Rest(a))
  {
  }

  lemma HasSlash(a: Spec)
    requires !a.ProjectFile?
    ensures FilePath(a) != "project.yaml"
  {
    Directories(a);
    assert FilePath(a)[|Directory(a)|] == '/';
  }

  lemma SameDirectory(a: Spec, b: Spec)
    requires FilePath(a) == FilePath(b) && !a.ProjectFile? && !b.ProjectFile?
    ensures Directory(a) == Directory(b) && Rest(a) == Rest(b)
  {
    hide FilePath, Rest, Directory;
    Directories(a);
    Directories(b);
    assert "/" == ['/'];
    SplitAt(Directory(a), Directory(b), Rest(a), Rest(b), '/');
  }

  /** The types in one directory, told apart by what follows the id. */
  lemma Ends()
    ensures "field.yaml" != "base-override.yaml"
    ensures forall s: Bytes :: "model.yaml" != "overrides/" + s && "collection.yaml" != "overrides/" + s
    ensures Directory(Category("")) != Directory(ConceptList("")) && Directory(Category("")) != Directory(FieldFile(""))
    ensures Directory(Category("")) != Directory(ModelFile("")) && Directory(Category("")) != Directory(CollectionFile(""))
    ensures Directory(ConceptList("")) != Directory(FieldFile("")) && Directory(ConceptList("")) != Directory(ModelFile(""))
    ensures Directory(ConceptList("")) != Directory(CollectionFile("")) && Directory(FieldFile("")) != Directory(ModelFile(""))
    ensures Directory(FieldFile("")) != Directory(CollectionFile("")) && Directory(ModelFile("")) != Directory(CollectionFile(""))
  {
    assert "field.yaml"[0] == 'f' && "base-override.yaml"[0] == 'b';
    forall s: Bytes ensures "model.yaml" != "overrides/" + s && "collection.yaml" != "overrides/" + s {
      assert "model.yaml"[0] == 'm' && "collection.yaml"[0] == 'c' && ("overrides/" + s)[0] == 'o';
    }
    assert "categories"[1] == 'a' && "concept-lists"[2] == 'n' && "fields"[0] == 'f' && "models"[0] == 'm' && "collections"[2] == 'l';
    assert "concept-lists"[0] == 'c' && "collections"[1] == 'o' && "categories"[0] == 'c';
  }

  lemma SameInside(id1: Bytes, id2: Bytes, x: Bytes, y: Bytes)
    requires NoSlash(id1) && NoSlash(id2) && id1 + ("/" + x) == id2 + ("/" + y)
    ensures id1 == id2 && x == y
  {
    assert "/" == ['/'];
    SplitAt(id1, id2, x, y, '/');
  }

  /** The field and the entity of an override, as its file name joins them. */
  function Pair(f: Bytes, e: Bytes): Bytes { f + ("@" + e) }

  lemma SamePair(f1: Bytes, e1: Bytes, f2: Bytes, e2: Bytes)
    requires NoAt(f1) && NoAt(f2) && Pair(f1, e1) == Pair(f2, e2)
    ensures f1 == f2 && e1 == e2
  {
    assert "@" == ['@'];
    SplitAt(f1, f2, e1, e2, '@');
  }

  /** The override path of a model or collection. */
  function OverrideRest(o: Bytes, f: Bytes, e: Bytes): Bytes {
    o + ("/" + ("overrides/" + (f + ("@" + (e + ".yaml")))))
  }

  lemma OverrideEnd(o: Bytes, f: Bytes, e: Bytes)
    ensures OverrideRest(o, f, e) == o + ("/" + ("overrides/" + (Pair(f, e) + ".yaml")))
  {
    assert f + ("@" + (e + ".yaml")) == Pair(f, e) + ".yaml";
  }

  lemma SameStart(start: Bytes, a: Bytes, b: Bytes)
    requires start + a == start + b
    ensures a == b
  {
    assert (start + a)[|start|..] == a && (start + b)[|start|..] == b;
  }

  lemma SameOverridesIff(o1: Bytes, f1: Bytes, e1: Bytes, o2: Bytes, f2: Bytes, e2: Bytes)
    requires NoSlash(o1) && NoSlash(o2)
    ensures OverrideRest(o1, f1, e1) == OverrideRest(o2, f2, e2) <==> o1 == o2 && Pair(f1, e1) == Pair(f2, e2)
  {
    hide Pair, OverrideRest, NoSlash;
    OverrideEnd(o1, f1, e1);
    OverrideEnd(o2, f2, e2);
    var x: Bytes, y: Bytes := Pair(f1, e1) + ".yaml", Pair(f2, e2) + ".yaml";
    if OverrideRest(o1, f1, e1) == OverrideRest(o2, f2, e2) {
      SameInside(o1, o2, "overrides/" + x, "overrides/" + y);
      SameStart("overrides/", x, y);
      SameEnd(Pair(f1, e1), Pair(f2, e2), ".yaml");
    }
  }

  lemma SameOverrides(o1: Bytes, f1: Bytes, e1: Bytes, o2: Bytes, f2: Bytes, e2: Bytes)
    requires NoSlash(o1) && NoAt(f1) && NoSlash(o2) && NoAt(f2) && OverrideRest(o1, f1, e1) == OverrideRest(o2, f2, e2)
    ensures o1 == o2 && f1 == f2 && e1 == e2
  {
    hide Pair, OverrideRest, NoSlash, NoAt;
    SameOverridesIff(o1, f1, e1, o2, f2, e2);
    SamePair(f1, e1, f2, e2);
  }

  lemma NotOverride(o: Bytes, f: Bytes, e: Bytes, id: Bytes, file: Bytes)
    requires NoSlash(o) && NoSlash(id) && (forall s: Bytes :: file != "overrides/" + s)
    ensures OverrideRest(o, f, e) != id + ("/" + file)
  {
    if OverrideRest(o, f, e) == id + ("/" + file) {
      SameInside(o, id, "overrides/" + (f + ("@" + (e + ".yaml"))), file);
    }
  }

  /** A field's own file is never a base override's. */
  lemma OwnFile(id1: Bytes, id2: Bytes)
    ensures id1 + ("/" + "field.yaml") != id2 + ("/" + "base-override.yaml")
  {
    var s, t := id1 + ("/" + "field.yaml"), id2 + ("/" + "base-override.yaml");
    assert s[|s| - 6] == 'd' && t[|t| - 6] == 'e';
  }

  lemma SameRest(a: Spec, b: Spec)
    requires PlainIds(a) && PlainIds(b) && !a.ProjectFile? && !b.ProjectFile?
    requires Directory(a) == Directory(b) && Rest(a) == Rest(b)
    ensures a == b
  {
    hide Rest, FilePath;
    Ends();
    match a
    case Category(_) => SameId(a, b);
    case ConceptList(_) => SameId(a, b);
    case FieldFile(_) => SameId(a, b);
    case BaseOverride(_) => SameId(a, b);
    case ModelFile(_) => SameOwned(a, b);
    case CollectionFile(_) => SameOwned(a, b);
    case ModelOverride(_, _, _) => SameOwned(a, b);
    case CollectionOverride(_, _, _) => SameOwned(a, b);
  }

  lemma SameId(a: Spec, b: Spec)
    requires (a.Category? && b.Category?) || (a.ConceptList? && b.ConceptList?) || ((a.FieldFile? || a.BaseOverride?) && (b.FieldFile? || b.BaseOverride?))
    requires Rest(a) == Rest(b)
    ensures a == b
  {
    hide FilePath;
    match a
    case Category(e) => SameEnd(e, b.entity, ".yaml");
    case ConceptList(e) => SameEnd(e, b.entity, ".yaml");
    case FieldFile(e) =>
      if b.FieldFile? { SameEnd(e, b.entity, "/" + "field.yaml"); } else { OwnFile(e, b.field); }
    case BaseOverride(f) =>
      if b.BaseOverride? { SameEnd(f, b.field, "/" + "base-override.yaml"); } else { OwnFile(b.entity, f); }
  }

  lemma SameOwned(a: Spec, b: Spec)
    requires ((a.ModelFile? || a.ModelOverride?) && (b.ModelFile? || b.ModelOverride?))
          || ((a.CollectionFile? || a.CollectionOverride?) && (b.CollectionFile? || b.CollectionOverride?))
    requires PlainIds(a) && PlainIds(b) && Rest(a) == Rest(b)
    ensures a == b
  {
    hide NoSlash, NoAt, OverrideRest, FilePath;
    Ends();
    match a
    case ModelFile(e) =>
      if b.ModelFile? { SameInside(e, b.entity, "model.yaml", "model.yaml"); } else { OverrideIs(b); NotOverride(b.owner, b.field, b.entity, e, "model.yaml"); }
    case CollectionFile(e) =>
      if b.CollectionFile? { SameInside(e, b.entity, "collection.yaml", "collection.yaml"); } else { OverrideIs(b); NotOverride(b.owner, b.field, b.entity, e, "collection.yaml"); }
    case ModelOverride(o, f, e) =>
      OverrideIs(a);
      if b.ModelOverride? { OverrideIs(b); SameOverrides(o, f, e, b.owner, b.field, b.entity); } else { NotOverride(o, f, e, b.entity, "model.yaml"); }
    case CollectionOverride(o, f, e) =>
      OverrideIs(a);
      if b.CollectionOverride? { OverrideIs(b); SameOverrides(o, f, e, b.owner, b.field, b.entity); } else { NotOverride(o, f, e, b.entity, "collection.yaml"); }
  }

  lemma OverrideIs(a: Spec)
    requires a.ModelOverride? || a.CollectionOverride?
    ensures Rest(a) == OverrideRest(a.owner, a.field, a.entity)
  {
  }

  /** Two entities of known types never share a file, if no `/` stands in the id of a model, a
      collection or an override's owner and no `@` in an override's field; other ids are free. */
  lemma FilePathInjective(a: Spec, b: Spec)
    requires PlainIds(a) && PlainIds(b) && FilePath(a) == FilePath(b)
    ensures a == b
  {
    hide FilePath, Rest, Directory, PlainIds;
    if a.ProjectFile? {
      if !b.ProjectFile? { HasSlash(b); ProjectPath(); assert false; }
    } else if b.ProjectFile? {
      HasSlash(a);
      ProjectPath();
      assert false;
    } else {
      SameDirectory(a, b);
      SameRest(a, b);
    }
  }

  lemma ProjectPath()
    ensures FilePath(ProjectFile) == "project.yaml"
  {
  }

  /** Two overrides of one type, with any fields and entities at all, share a file exactly when
      owner and file name agree; the file name joins field and entity with an `@`. */
  lemma OverridesShareIff(a: Spec, b: Spec)
    requires (a.ModelOverride? && b.ModelOverride?) || (a.CollectionOverride? && b.CollectionOverride?)
    requires NoSlash(a.owner) && NoSlash(b.owner)
    ensures FilePath(a) == FilePath(b) <==> a.owner == b.owner && Pair(a.field, a.entity) == Pair(b.field, b.entity)
  {
    hide FilePath, Rest, NoSlash, Pair, OverrideRest;
    Directories(a);
    Directories(b);
    OverrideIs(a);
    OverrideIs(b);
    SameOverridesIff(a.owner, a.field, a.entity, b.owner, b.field, b.entity);
    if FilePath(a) == FilePath(b) { SameDirectory(a, b); }
  }

  /** An instance: an `@` in the ids of overrides is enough to make two share one. */
  lemma AtSignsCollide()
    ensures FilePath(ModelOverride("m", "a@b", "c")) == FilePath(ModelOverride("m", "a", "b@c"))
  {
    assert Pair("a@b", "c") == Pair("a", "b@c");
    OverridesShareIff(ModelOverride("m", "a@b", "c"), ModelOverride("m", "a", "b@c"));
  }

  // ---------------------------------------------------------------- slugs

  predicate IsAlnum(c: byte) { 'a' <= c <= 'z' || '0' <= c <= '9' }

  predicate IsSeparator(c: byte) { c == '-' || c == '_' }

  /** `s` is `n` times an alphanumeric, or a separator and an alphanumeric. */
  predicate Groups(s: Bytes, n: nat)
    decreases n
  {
    if n == 0 then s == ""
    else
      (s != "" && IsAlnum(s[0]) && Groups(s[1..], n - 1))
      || (|s| >= 2 && IsSeparator(s[0]) && IsAlnum(s[1]) && Groups(s[2..], n - 1))
  }

  /** The pattern: an alphanumeric, then 1 to 49 such groups. */
  ghost predicate MatchesPattern(s: Bytes) {
    s != "" && IsAlnum(s[0]) && exists n :: 1 <= n <= 49 && Groups(s[1..], n)
  }

  function AlnumCount(s: Bytes): nat {
    if s == "" then 0 else (if IsAlnum(s[0]) then 1 else 0) + AlnumCount(s[1..])
  }

  /** Only alphanumerics and separators, every separator right before an alphanumeric. */
  predicate Separated(s: Bytes) {
    forall k | 0 <= k < |s| :: IsAlnum(s[k]) || (IsSeparator(s[k]) && k + 1 < |s| && IsAlnum(s[k + 1]))
  }

  lemma SeparatedTail(s: Bytes, n: nat)
    requires n <= |s|
    ensures Separated(s) ==> Separated(s[n..])
  {
    assert forall k | 0 <= k < |s[n..]| :: s[n..][k] == s[n + k];
  }

  lemma {:induction false} GroupsIff(s: Bytes, n: nat)
    ensures Groups(s, n) <==> Separated(s) && AlnumCount(s) == n
    decreases |s|, n
  {
    if s != "" && IsAlnum(s[0]) {
      if n > 0 { GroupsIff(s[1..], n - 1); }
      SeparatedTail(s, 1);
      assert s == [s[0]] + s[1..];
    } else if |s| >= 2 && IsSeparator(s[0]) && IsAlnum(s[1]) {
      if n > 0 { GroupsIff(s[2..], n - 1); }
      SeparatedTail(s, 2);
      assert s == [s[0], s[1]] + s[2..] && s[1..][1..] == s[2..];
    } else if s != "" {
      assert !Separated(s) by { assert !IsAlnum(s[0]); }
    }
  }

  /** A slug matches exactly when it is made of lower-case alphanumerics with single separators
      strictly between them, 2 to 50 alphanumerics in all. */
  lemma PatternIff(s: Bytes)
    ensures MatchesPattern(s) <==> s != "" && IsAlnum(s[0]) && Separated(s) && 2 <= AlnumCount(s) <= 50
  {
    if s != "" && IsAlnum(s[0]) {
      SeparatedTail(s, 1);
      assert s == [s[0]] + s[1..];
      forall n: nat ensures Groups(s[1..], n) <==> Separated(s[1..]) && AlnumCount(s[1..]) == n {
        GroupsIff(s[1..], n);
      }
      if Separated(s) && 2 <= AlnumCount(s) <= 50 {
        assert Groups(s[1..], AlnumCount(s) - 1);
      }
    }
  }

  /** Nothing longer than 99 bytes matches... */
  lemma {:induction false} CountBound(s: Bytes)
    requires Separated(s)
    ensures |s| <= 2 * AlnumCount(s)
    decreases |s|
  {
    if s != "" {
      if IsAlnum(s[0]) {
        SeparatedTail(s, 1);
        CountBound(s[1..]);
      } else {
        SeparatedTail(s, 2);
        CountBound(s[2..]);
        assert s[1..][1..] == s[2..];
      }
    }
  }

  lemma MatchesAreShort(s: Bytes)
    requires MatchesPattern(s)
    ensures 2 <= |s| <= 99
  {
    PatternIff(s);
    SeparatedTail(s, 1);
    CountBound(s[1..]);
    CountAtMost(s);
  }

  lemma {:induction false} CountAtMost(s: Bytes)
    ensures AlnumCount(s) <= |s|
  {
    if s != "" { CountAtMost(s[1..]); }
  }

  function Dashed(n: nat): Bytes {
    if n == 0 then "" else "-a" + Dashed(n - 1)
  }

  lemma {:induction false} DashedGroups(n: nat)
    ensures Groups(Dashed(n), n) && |Dashed(n)| == 2 * n
  {
    if n > 0 {
      DashedGroups(n - 1);
      assert Dashed(n)[2..] == Dashed(n - 1) && Dashed(n)[0] == '-' && Dashed(n)[1] == 'a';
    }
  }

  /** ...and 99 bytes do, although the message speaks of 50 characters. */
  lemma NinetyNineMatch()
    ensures MatchesPattern("a" + Dashed(49)) && |"a" + Dashed(49)| == 99
  {
    hide Groups, Dashed;
    DashedGroups(49);
    assert ("a" + Dashed(49))[1..] == Dashed(49);
  }
}
