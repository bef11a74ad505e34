/** Placeholder substitution of pkg/i18n: one name after the other, in the order a map happens
    to give, and its use when a text is resolved and encoded. */
module Placeholders {
  import opened Wrappers
  import opened Bytes

  type Args = map<Bytes, Bytes>

  // ---------------------------------------------------------------- one name after the other

  function Placeholder(name: Bytes): (r: Bytes)
    ensures r != "" && r[0] == '{'
  {
    "{" + (name + "}")
  }

  /** The loop over the names in a given order. */
  function InOrder(s: Bytes, order: seq<Bytes>, args: Args): Bytes
    requires forall k | 0 <= k < |order| :: order[k] in args
    decreases |order|
  {
    if order == [] then s
    else ReplaceAll(InOrder(s, order[..|order| - 1], args), Placeholder(order[|order| - 1]), args[order[|order| - 1]])
  }

  /** Each name of the map once. */
  predicate IsOrder(order: seq<Bytes>, args: Args) {
    && (forall j, k | 0 <= j < k < |order| :: order[j] != order[k])
    && (forall k | 0 <= k < |order| :: order[k] in args)
    && forall name | name in args :: name in order
  }

  /** The text with the placeholders substituted in some order. */
  ghost predicate IsSubstituted(before: Bytes, after: Bytes, args: Args) {
    exists order :: IsOrder(order, args) && after == InOrder(before, order, args)
  }

  method ApplyArgs(s: Bytes, args: Args) returns (r: Bytes)
    ensures IsSubstituted(s, r, args)
  {
    hide ReplaceAll, Placeholder;
    r := s;
    ghost var order: seq<Bytes> := [];
    var todo := args.Keys;
    if args.Keys == {} || '{' !in s {
      order := AnyOrder(args);
      if args.Keys != {} { NoBraceNoChange(s, order, args); }
      return;
    }
    while todo != {}
      invariant todo <= args.Keys
      invariant forall k | 0 <= k < |order| :: order[k] in args && order[k] !in todo
      invariant forall name | name in args && name !in todo :: name in order
      invariant forall j, k | 0 <= j < k < |order| :: order[j] != order[k]
      invariant r == InOrder(s, order, args)
      decreases |todo|
    {
      var name :| name in todo;
      todo := todo - {name};
      assert (order + [name])[..|order|] == order;
      r := ReplaceAll(r, Placeholder(name), args[name]);
      order := order + [name];
    }
    assert IsOrder(order, args);
  }

  lemma AnyOrder(args: Args) returns (order: seq<Bytes>)
    ensures IsOrder(order, args)
  {
    order := [];
    var todo := args.Keys;
    while todo != {}
      invariant todo <= args.Keys
      invariant forall k | 0 <= k < |order| :: order[k] in args && order[k] !in todo
      invariant forall name | name in args && name !in todo :: name in order
      invariant forall j, k | 0 <= j < k < |order| :: order[j] != order[k]
      decreases |todo|
    {
      var name :| name in todo;
      todo := todo - {name};
      order := order + [name];
    }
  }

  lemma {:induction false} NothingToReplace(s: Bytes, what: Bytes, with: Bytes)
    requires what != "" && what[0] !in s
    ensures ReplaceAll(s, what, with) == s
    decreases |s|
  {
    if s != "" {
      NothingToReplace(s[1..], what, with);
      assert s == [s[0]] + s[1..];
    }
  }

  lemma {:induction false} NoBraceNoChange(s: Bytes, order: seq<Bytes>, args: Args)
    requires '{' !in s && forall k | 0 <= k < |order| :: order[k] in args
    ensures InOrder(s, order, args) == s
    decreases |order|
  {
    hide ReplaceAll;
    if order != [] {
      var n := |order| - 1;
      NoBraceNoChange(s, order[..n], args);
      assert Placeholder(order[n])[0] == '{';
      NothingToReplace(s, Placeholder(order[n]), args[order[n]]);
    }
  }

  // ---------------------------------------------------------------- templates

  /** A template without nested or stray braces: plain pieces and placeholders. */
  datatype Piece = Plain(text: Bytes) | Hole(name: Bytes)

  predicate NoBrace(s: Bytes) {
    forall k | 0 <= k < |s| :: s[k] != '{' && s[k] != '}'
  }

  predicate Clean(ps: seq<Piece>) {
    forall k | 0 <= k < |ps| :: NoBrace(if ps[k].Plain? then ps[k].text else ps[k].name)
  }

  function PieceText(p: Piece): Bytes {
    if p.Plain? then p.text else Placeholder(p.name)
  }

  function TextOf(ps: seq<Piece>): Bytes {
    if ps == [] then "" else PieceText(ps[0]) + TextOf(ps[1..])
  }

  /** All known placeholders replaced at once. */
  function Filled(ps: seq<Piece>, args: Args): (r: seq<Piece>)
    ensures |r| == |ps|
  {
    seq(|ps|, k requires 0 <= k < |ps| => FillOne(ps[k], args))
  }

  function FillOne(p: Piece, args: Args): Piece {
    if p.Hole? && p.name in args then Plain(args[p.name]) else p
  }

  predicate CleanArgs(args: Args) {
    forall name | name in args :: NoBrace(name) && NoBrace(args[name])
  }

  /** Text without an opening brace is copied. */
  lemma {:induction false} CopyPlain(a: Bytes, rest: Bytes, what: Bytes, with: Bytes)
    requires what != "" && forall k | 0 <= k < |a| :: a[k] != what[0]
    ensures ReplaceAll(a + rest, what, with) == a + ReplaceAll(rest, what, with)
    decreases |a|
  {
    if a == "" {
      assert a + rest == rest;
    } else {
      var s := a + rest;
      assert s[0] == a[0] && s[1..] == a[1..] + rest;
      CopyPlain(a[1..], rest, what, with);
      assert [a[0]] + (a[1..] + ReplaceAll(rest, what, with)) == a + ReplaceAll(rest, what, with);
    }
  }

  /** Two placeholders without inner braces match only if they are the same. */
  lemma SameName(m: Bytes, n: Bytes, rest: Bytes)
    requires NoBrace(m) && NoBrace(n) && At(Placeholder(m) + rest, 0, Placeholder(n))
    ensures m == n
  {
    hide At;
    var s := Placeholder(m) + rest;
    AtSlice(s, 0, Placeholder(n));
    assert s[..|n| + 2] == Placeholder(n);
    assert s[1..1 + |m|] == m && s[|m| + 1] == '}';
    assert s[1..1 + |n|] == n && s[|n| + 1] == '}';
    forall k | 1 <= k <= |m| ensures s[k] != '}' { assert s[k] == s[1..1 + |m|][k - 1]; }
    forall k | 1 <= k <= |n| ensures s[k] != '}' { assert s[k] == s[1..1 + |n|][k - 1]; }
  }

  lemma FillHole(name: Bytes, rest: Bytes, n: Bytes, v: Bytes)
    requires NoBrace(name) && NoBrace(n)
    ensures ReplaceAll(Placeholder(name) + rest, Placeholder(n), v)
         == (if name == n then v else Placeholder(name)) + ReplaceAll(rest, Placeholder(n), v)
  {
    hide At;
    var s := Placeholder(name) + rest;
    var what := Placeholder(n);
    if name == n {
      AtHere("", what, rest);
      assert "" + what + rest == s;
      assert s[|what|..] == rest;
    } else {
      if At(s, 0, what) {
        SameName(name, n, rest);
        assert false;
      }
      var a := name + "}";
      assert s[0] == '{' && s[1..] == a + rest && what[0] == '{';
      CopyPlain(a, rest, what, v);
      assert ["{"[0]] + (a + ReplaceAll(rest, what, v)) == Placeholder(name) + ReplaceAll(rest, what, v);
    }
  }

  lemma TextStep(ps: seq<Piece>)
    requires ps != []
    ensures TextOf(ps) == PieceText(ps[0]) + TextOf(ps[1..])
  {
  }

  lemma FillsOne(p: Piece, rest: Bytes, n: Bytes, v: Bytes)
    requires NoBrace(if p.Plain? then p.text else p.name) && NoBrace(n)
    ensures ReplaceAll(PieceText(p) + rest, Placeholder(n), v) == PieceText(FillOne(p, map[n := v])) + ReplaceAll(rest, Placeholder(n), v)
  {
    hide ReplaceAll;
    if p.Plain? {
      assert Placeholder(n)[0] == '{';
      CopyPlain(p.text, rest, Placeholder(n), v);
    } else {
      FillHole(p.name, rest, n, v);
    }
  }

  lemma {:induction false} ReplaceFills(ps: seq<Piece>, n: Bytes, v: Bytes)
    requires Clean(ps) && NoBrace(n)
    ensures ReplaceAll(TextOf(ps), Placeholder(n), v) == TextOf(Filled(ps, map[n := v]))
  {
    hide ReplaceAll, TextOf, PieceText, Placeholder, NoBrace;
    var filled := Filled(ps, map[n := v]);
    if ps == [] {
      assert TextOf(ps) == "" by { NoText(); }
      NothingToReplace("", Placeholder(n), v);
      assert filled == [];
    } else {
      ReplaceFills(ps[1..], n, v);
      assert filled[1..] == Filled(ps[1..], map[n := v]);
      assert NoBrace(if ps[0].Plain? then ps[0].text else ps[0].name);
      TextStep(ps);
      TextStep(filled);
      FillsOne(ps[0], TextOf(ps[1..]), n, v);
    }
  }

  lemma NoText()
    ensures TextOf([]) == ""
  {
  }

  function Restrict(args: Args, order: seq<Bytes>): Args {
    map name | name in args && name in order :: args[name]
  }

  lemma FillStep(ps: seq<Piece>, args: Args, order: seq<Bytes>, n: Bytes)
    requires n in args && n !in order
    ensures Filled(Filled(ps, Restrict(args, order)), map[n := args[n]]) == Filled(ps, Restrict(args, order + [n]))
  {
    var a, b := Filled(Filled(ps, Restrict(args, order)), map[n := args[n]]), Filled(ps, Restrict(args, order + [n]));
    forall k | 0 <= k < |ps| ensures a[k] == b[k] {
      assert forall x :: x in order + [n] <==> x in order || x == n;
    }
    assert a == b;
  }

  lemma {:induction false} OrderFills(ps: seq<Piece>, order: seq<Bytes>, args: Args)
    requires Clean(ps) && CleanArgs(args)
    requires forall j, k | 0 <= j < k < |order| :: order[j] != order[k]
    requires forall k | 0 <= k < |order| :: order[k] in args
    ensures InOrder(TextOf(ps), order, args) == TextOf(Filled(ps, Restrict(args, order)))
    decreases |order|
  {
    hide ReplaceAll, Placeholder, TextOf;
    if order == [] {
      assert Filled(ps, Restrict(args, [])) == ps;
    } else {
      var n := |order| - 1;
      OrderFills(ps, order[..n], args);
      var done := Filled(ps, Restrict(args, order[..n]));
      assert Clean(done);
      ReplaceFills(done, order[n], args[order[n]]);
      assert order[n] !in order[..n];
      FillStep(ps, args, order[..n], order[n]);
      assert order[..n] + [order[n]] == order;
    }
  }

  /** In any order of the map, substitution one after the other is simultaneous substitution:
      known placeholders get their values, unknown ones stay. */
  lemma AnyOrderFills(ps: seq<Piece>, order: seq<Bytes>, args: Args)
    requires Clean(ps) && CleanArgs(args) && IsOrder(order, args)
    ensures InOrder(TextOf(ps), order, args) == TextOf(Filled(ps, args))
  {
    hide TextOf, InOrder;
    OrderFills(ps, order, args);
    assert Restrict(args, order) == args;
  }

  /** So the loop's result is that, whatever the order was. */
  lemma SubstitutedIsFilled(ps: seq<Piece>, after: Bytes, args: Args)
    requires Clean(ps) && CleanArgs(args)
    ensures IsSubstituted(TextOf(ps), after, args) <==> after == TextOf(Filled(ps, args))
  {
    hide TextOf, InOrder, Filled, Clean, CleanArgs;
    var any := AnyOrder(args);
    AnyOrderFills(ps, any, args);
    if IsSubstituted(TextOf(ps), after, args) {
      var order :| IsOrder(order, args) && after == InOrder(TextOf(ps), order, args);
      AnyOrderFills(ps, order, args);
    }
  }

  /** With nested braces the order shows: `{{a}}` with a for b and b for c. */
  lemma NestedBracesDepend()
    ensures var args: Args := map["a" := "b", "b" := "c"];
            && IsOrder(["a", "b"], args) && IsOrder(["b", "a"], args)
            && InOrder("{{a}}", ["a", "b"], args) == "c" && InOrder("{{a}}", ["b", "a"], args) == "{b}"
  {
    hide At, ReplaceAll;
    var args: Args := map["a" := "b", "b" := "c"];
    assert Placeholder("a") == "{a}" && Placeholder("b") == "{b}";
    // after the first brace `{a}` stands as a piece of its own
    Step("{", "a", "}", "a", "b");
    Step("{", "a", "}", "b", "c");
    assert "{" + (Placeholder("a") + "}") == "{{a}}";
    assert "{" + ("b" + "}") == "{b}" && "{b}" == Placeholder("b") + "";
    FillHole("b", "", "b", "c");
    NothingToReplace("", "{b}", "c");
    assert ["a", "b"][..1] == ["a"] && ["a"][..0] == [] && ["b", "a"][..1] == ["b"] && ["b"][..0] == [];
    assert InOrder("{{a}}", ["a"], args) == ReplaceAll("{{a}}", "{a}", "b");
    assert InOrder("{{a}}", ["b"], args) == ReplaceAll("{{a}}", "{b}", "c");
  }

  /** A stray opening brace before a placeholder is copied. */
  lemma Step(brace: Bytes, m: Bytes, tail: Bytes, n: Bytes, v: Bytes)
    requires brace == "{" && NoBrace(m) && NoBrace(n) && n != "" && tail == "}"
    ensures ReplaceAll(brace + (Placeholder(m) + tail), Placeholder(n), v)
         == brace + ((if m == n then v else Placeholder(m)) + tail)
  {
    hide At;
    var rest := Placeholder(m) + tail;
    var s := brace + rest;
    var what := Placeholder(n);
    assert s[0] == '{' && s[1] == '{' && s[1..] == rest && what[1] == n[0];
    if At(s, 0, what) {
      AtChar(s, 0, what, 1);
      assert false;
    }
    FillHole(m, tail, n, v);
    NothingToReplace(tail, what, v);
  }

  // ---------------------------------------------------------------- localized texts

  type Lang = Bytes
  type Translations = map<Lang, Bytes>

  /** The value the bundle has for each language; one that is empty counts as none. */
  type Bundle = map<Lang, Bytes>

  /** The enabled languages' values over the fallbacks. */
  function FromBundle(t: Translations, enabled: seq<Lang>, bundle: Bundle): Translations
    decreases |enabled|
  {
    if enabled == [] then t
    else
      var m := FromBundle(t, enabled[..|enabled| - 1], bundle);
      var l := enabled[|enabled| - 1];
      if l in bundle && bundle[l] != "" then m[l := bundle[l]] else m
  }

  lemma {:induction false} FromBundleAt(t: Translations, enabled: seq<Lang>, bundle: Bundle, l: Lang)
    ensures var m := FromBundle(t, enabled, bundle);
            if l in enabled && l in bundle && bundle[l] != "" then l in m && m[l] == bundle[l]
            else (l in m <==> l in t) && (l in t ==> m[l] == t[l])
    decreases |enabled|
  {
    if enabled != [] {
      var n := |enabled| - 1;
      FromBundleAt(t, enabled[..n], bundle, l);
      assert l in enabled <==> l in enabled[..n] || l == enabled[n];
    }
  }

  /** And for the requested language, if it still has none, what the resolver's own fallback
      finds. */
  function Merged(t: Translations, enabled: seq<Lang>, bundle: Bundle, lang: Lang, found: Option<Bytes>): Translations {
    var m := FromBundle(t, enabled, bundle);
    if lang !in m && found.Some? && found.value != "" then m[lang := found.value] else m
  }

  ghost predicate Substituted(before: Translations, after: Translations, args: Args) {
    after.Keys == before.Keys && forall l | l in before :: IsSubstituted(before[l], after[l], args)
  }

  /** What a resolution makes of the translations, given the arguments there are. */
  ghost predicate Enriched(key: Bytes, args: Args, before: Translations, after: Translations,
                           enabled: seq<Lang>, bundle: Bundle, lang: Lang, found: Option<Bytes>) {
    var merged := if key == "" then before else Merged(before, enabled, bundle, lang, found);
    if args == map[] then after == merged else Substituted(merged, after, args)
  }

  class LocalizedText {
    const key: Bytes
    var args: Args
    var translations: Translations

    constructor (key: Bytes, args: Args, fallback: Bytes)
      ensures this.key == key && this.args == args && translations == map["en" := fallback]
    {
      this.key, this.args, this.translations := key, args, map["en" := fallback];
    }

    /** Every language's text, in any order of the map. */
    method SubstituteAll() returns (out: Translations)
      ensures Substituted(translations, out, args)
    {
      hide IsSubstituted;
      out := translations;
      var todo := translations.Keys;
      while todo != {}
        invariant todo <= translations.Keys && out.Keys == translations.Keys
        invariant forall l | l in todo :: out[l] == translations[l]
        invariant forall l | l in translations && l !in todo :: IsSubstituted(translations[l], out[l], args)
        decreases |todo|
      {
        var l :| l in todo;
        todo := todo - {l};
        var text := ApplyArgs(out[l], args);
        out := out[l := text];
      }
    }

    /** `enrichLocalized`: the bundle is merged in, then the arguments are used up. */
    method Enrich(enabled: seq<Lang>, bundle: Bundle, lang: Lang, found: Option<Bytes>)
      modifies this
      ensures args == map[]
      ensures Enriched(key, old(args), old(translations), translations, enabled, bundle, lang, found)
    {
      if key != "" {
        translations := MergeBundle(translations, enabled, bundle);
        if lang !in translations && found.Some? && found.value != "" {
          translations := translations[lang := found.value];
        }
      }
      if args.Keys != {} {
        translations := SubstituteAll();
        args := map[];
      }
    }

    /** `MarshalJSON`: the texts as they are, or substituted when nobody resolved them. */
    method Marshal() returns (out: Translations)
      ensures if args == map[] then out == translations else Substituted(translations, out, args)
    {
      if args.Keys != {} {
        out := SubstituteAll();
      } else {
        out := translations;
      }
    }
  }

  method MergeBundle(t: Translations, enabled: seq<Lang>, bundle: Bundle) returns (out: Translations)
    ensures out == FromBundle(t, enabled, bundle)
  {
    out := t;
    var i := 0;
    while i < |enabled|
      invariant 0 <= i <= |enabled|
      invariant out == FromBundle(t, enabled[..i], bundle)
    {
      if enabled[i] in bundle && bundle[enabled[i]] != "" {
        out := out[enabled[i] := bundle[enabled[i]]];
      }
      assert enabled[..i + 1][..i] == enabled[..i];
      i := i + 1;
    }
    assert enabled[..i] == enabled;
  }

  // ---------------------------------------------------------------- resolving twice

  function Opens(s: Bytes): nat {
    if s == "" then 0 else (if s[0] == '{' then 1 else 0) + Opens(s[1..])
  }

  lemma {:induction false} OpensConcat(a: Bytes, b: Bytes)
    ensures Opens(a + b) == Opens(a) + Opens(b)
  {
    if a == "" {
      assert a + b == b;
    } else {
      assert (a + b)[1..] == a[1..] + b;
      OpensConcat(a[1..], b);
    }
  }

  lemma {:induction false} NoOpens(s: Bytes)
    requires NoBrace(s)
    ensures Opens(s) == 0
  {
    if s != "" { NoOpens(s[1..]); }
  }

  lemma PieceOpens(p: Piece)
    requires NoBrace(if p.Plain? then p.text else p.name)
    ensures Opens(PieceText(p)) == if p.Hole? then 1 else 0
  {
    if p.Plain? {
      NoOpens(p.text);
    } else {
      var end: Bytes := "}";
      NoOpens(p.name);
      OpensConcat(p.name, end);
      assert end[1..] == "" && Placeholder(p.name)[1..] == p.name + end;
    }
  }

  function Holes(ps: seq<Piece>): nat {
    if ps == [] then 0 else (if ps[0].Hole? then 1 else 0) + Holes(ps[1..])
  }

  lemma {:induction false} OpensAreHoles(ps: seq<Piece>)
    requires Clean(ps)
    ensures Opens(TextOf(ps)) == Holes(ps)
  {
    hide Opens, Placeholder, PieceText;
    if ps == [] {
      NoOpens("");
    } else {
      OpensAreHoles(ps[1..]);
      assert NoBrace(if ps[0].Plain? then ps[0].text else ps[0].name);
      PieceOpens(ps[0]);
      OpensConcat(PieceText(ps[0]), TextOf(ps[1..]));
    }
  }

  /** The arguments fill some placeholder of the template. */
  predicate Touches(ps: seq<Piece>, args: Args) {
    exists k :: 0 <= k < |ps| && ps[k].Hole? && ps[k].name in args
  }

  lemma {:induction false} FilledHoles(ps: seq<Piece>, args: Args)
    ensures Holes(Filled(ps, args)) <= Holes(ps)
    ensures Touches(ps, args) ==> Holes(Filled(ps, args)) < Holes(ps)
  {
    if ps != [] {
      FilledHoles(ps[1..], args);
      assert Filled(ps, args)[1..] == Filled(ps[1..], args);
      if Touches(ps, args) && !(ps[0].Hole? && ps[0].name in args) {
        var k :| 0 <= k < |ps| && ps[k].Hole? && ps[k].name in args;
        assert ps[1..][k - 1] == ps[k];
      }
    }
  }

  /** Substitution leaves a text alone exactly when the arguments name none of its
      placeholders, whatever their values are. */
  lemma FilledIff(ps: seq<Piece>, args: Args)
    requires Clean(ps) && CleanArgs(args)
    ensures TextOf(Filled(ps, args)) == TextOf(ps) <==> !Touches(ps, args)
  {
    hide TextOf;
    if Touches(ps, args) {
      assert Clean(Filled(ps, args));
      OpensAreHoles(ps);
      OpensAreHoles(Filled(ps, args));
      FilledHoles(ps, args);
    } else {
      assert Filled(ps, args) == ps;
    }
  }

  /** The bundle provides the text of an enabled language. */
  predicate Provides(enabled: seq<Lang>, bundle: Bundle, l: Lang) {
    l in enabled && l in bundle && bundle[l] != ""
  }

  /** A text resolved a second time, when the arguments are gone: in every language it keeps
      what the first resolution showed exactly unless the bundle provides that language with
      a placeholder the arguments had filled. Then the placeholder is back. */
  lemma ResolvedTwice(key: Bytes, args: Args, t: Translations, first: Translations, second: Translations, enabled: seq<Lang>, bundle: Bundle,
                      lang: Lang, found: Option<Bytes>, lang': Lang, found': Option<Bytes>, l: Lang, ps: seq<Piece>)
    requires Enriched(key, args, t, first, enabled, bundle, lang, found)
    requires Enriched(key, map[], first, second, enabled, bundle, lang', found')
    requires CleanArgs(args) && Clean(ps) && (Provides(enabled, bundle, l) ==> bundle[l] == TextOf(ps))
    ensures key != "" && Provides(enabled, bundle, l) ==>
              l in first && l in second && first[l] == TextOf(Filled(ps, args)) && second[l] == TextOf(ps)
    ensures l in first ==> l in second && (second[l] == first[l] <==> !(key != "" && Provides(enabled, bundle, l) && Touches(ps, args)))
  {
    hide TextOf, Filled, Clean, CleanArgs, IsSubstituted, Touches, FromBundle;
    FromBundleAt(t, enabled, bundle, l);
    FromBundleAt(first, enabled, bundle, l);
    FilledIff(ps, args);
    SubstitutedIsFilled(ps, if l in first then first[l] else "", args);
    if args == map[] { NothingFilled(ps, args); }
  }

  lemma NothingFilled(ps: seq<Piece>, args: Args)
    requires args == map[]
    ensures Filled(ps, args) == ps
  {
  }

  /** An instance: the text `{v}` with 1 for v, resolved twice. */
  method PlaceholderReappears() returns (first: Option<Bytes>, second: Option<Bytes>)
    ensures first == Some("1") && second == Some("{v}")
  {
    hide TextOf, Filled, IsSubstituted, Merged, Touches, Enriched, Clean;
    var v: Bytes, one: Bytes, text: Bytes, en: Lang := "v", "1", "{v}", "en";
    var args: Args := map[v := one];
    var bundle: Bundle := map[en := text];
    var localized := new LocalizedText("k", args, "");
    ghost var t0 := localized.translations;
    localized.Enrich([en], bundle, en, None);
    ghost var t1 := localized.translations;
    first := if en in localized.translations then Some(localized.translations[en]) else None;
    localized.Enrich([en], bundle, en, None);
    second := if en in localized.translations then Some(localized.translations[en]) else None;
    OneHole(v, one);
    assert Provides([en], bundle, en);
    ResolvedTwice("k", args, t0, t1, localized.translations, [en], bundle, en, None, en, None, en, [Hole(v)]);
  }

  lemma OneHole(v: Bytes, one: Bytes)
    requires v == "v" && one == "1"
    ensures var ps := [Hole(v)]; TextOf(ps) == "{v}" && TextOf(Filled(ps, map[v := one])) == "1" && Clean(ps)
  {
    assert [Hole(v)][1..] == [] && [Plain(one)][1..] == [];
    assert TextOf([Hole(v)]) == Placeholder(v) + "";
    assert TextOf([Plain(one)]) == one + "";
    assert Filled([Hole(v)], map[v := one]) == [Plain(one)];
  }
}
