/** The identifiers of pkg/domain: semantic ids, slot and group segments, file paths. */
module Identifiers {
  import opened Wrappers
  import opened Bytes
  import opened Decimals
  import T = PagesText

  // ---------------------------------------------------------------- semantic ids

  datatype SemanticId = SemanticId(raw: Bytes, project: Bytes, code: Bytes, kind: Bytes, number: int, systemName: Bytes)

  function KindOf(code: Bytes): Bytes {
    if code == "F" then "field" else if code == "M" then "model" else if code == "C" then "collection"
    else if code == "CAT" then "category" else if code == "CL" then "concept_list" else ""
  }

  function PrintInt(n: int): Bytes {
    if n < 0 then "-" + Itoa(-n) else Itoa(n)
  }

  /** The part before a system name: up to the first underscore that is not the first byte. */
  function IdPart(raw: Bytes): Bytes {
    var i := IndexOf(raw, '_', 0);
    if 0 < i < |raw| then raw[..i] else raw
  }

  function SystemNameOf(raw: Bytes): Bytes {
    var i := IndexOf(raw, '_', 0);
    if 0 < i < |raw| then raw[i + 1..] else ""
  }

  predicate TypeLetter(c: byte) { c == 'F' || c == 'M' || c == 'C' }

  function ParseParts(raw: Bytes, parts: seq<Bytes>, name: Bytes): SemanticId {
    if |parts| == 3 && (parts[1] == "CAT" || parts[1] == "CL") then
      SemanticId(raw, parts[0], parts[1], KindOf(parts[1]), ParseInt(parts[2]).number, name)
    else if |parts| == 2 then
      var prefix, number := parts[0], ParseInt(parts[1]).number;
      if prefix != "" && TypeLetter(prefix[|prefix| - 1]) then
        var code := prefix[|prefix| - 1..];
        SemanticId(raw, prefix[..|prefix| - 1], code, KindOf(code), number, name)
      else SemanticId(raw, prefix, "", "", number, name)
    else SemanticId(raw, "", "", "", 0, name)
  }

  function ParseSemanticId(raw: Bytes): SemanticId {
    if raw == "" then SemanticId("", "", "", "", 0, "") else ParseParts(raw, T.Split(IdPart(raw)), SystemNameOf(raw))
  }

  predicate Valid(s: SemanticId) {
    s.project != "" && s.kind != "" && s.number > 0
  }

  /** The canonical form. */
  function Id(s: SemanticId): Bytes {
    if s.code == "CAT" || s.code == "CL" then s.project + "." + (s.code + "." + PrintInt(s.number))
    else if s.code != "" && s.project != "" then (s.project + s.code) + "." + PrintInt(s.number)
    else s.raw
  }

  function WithSystemName(s: SemanticId, name: Bytes): Bytes {
    if name == "" then Id(s) else Id(s) + ("_" + name)
  }

  predicate NoUnderscore(s: Bytes) { forall k | 0 <= k < |s| :: s[k] != '_' }

  /** Two dotted parts or three, as the canonical form has them. */
  lemma CanonicalParts(s: SemanticId)
    requires T.NoDot(s.project) && T.NoDot(s.code) && s.number > 0 && s.code != "" && s.project != ""
    ensures T.Split(Id(s)) == if s.code == "CAT" || s.code == "CL" then [s.project, s.code, Itoa(s.number)]
                              else [s.project + s.code, Itoa(s.number)]
  {
    hide T.Split;
    var n := Itoa(s.number);
    assert T.NoDot(n);
    T.SplitAtom(n);
    if s.code == "CAT" || s.code == "CL" {
      T.SplitHead(s.code, n);
      T.SplitHead(s.project, s.code + "." + n);
    } else {
      assert T.NoDot(s.project + s.code);
      T.SplitHead(s.project + s.code, n);
    }
  }

  /** What a valid parse knows of its project and code. */
  lemma ParsedShape(raw: Bytes)
    requires Valid(ParseSemanticId(raw))
    ensures var s := ParseSemanticId(raw);
            && T.NoDot(s.project) && s.code != "" && T.NoDot(s.code) && NoUnderscore(s.code) && s.number <= MAX
            && (s.code == "CAT" || s.code == "CL" || (|s.code| == 1 && TypeLetter(s.code[0])))
            && s.kind == KindOf(s.code)
            && (s.project[0] != '_' ==> NoUnderscore(s.project))
  {
    hide T.Split, ParseInt, IndexOf, KindOf, T.NoDot;
    var idPart := IdPart(raw);
    var parts := T.Split(idPart);
    T.PartsNoDot(idPart);
    FirstPart(idPart);
    assert T.NoDot(parts[0]);
    forall p ensures ParseInt(p).number <= MAX { ParseBound(p); }
    KindOfNothing();
    LetterNoDot(parts[0]);
    assert idPart[0] == '_' || NoUnderscore(idPart);
  }

  lemma LetterNoDot(prefix: Bytes)
    requires T.NoDot(prefix)
    ensures prefix != "" ==> T.NoDot(prefix[..|prefix| - 1]) && T.NoDot(prefix[|prefix| - 1..])
  {
  }

  lemma KindOfNothing()
    ensures KindOf("") == "" && NoUnderscore("CAT") && NoUnderscore("CL") && T.NoDot("CAT") && T.NoDot("CL")
  {
  }

  lemma FirstPart(s: Bytes)
    ensures |T.Split(s)[0]| <= |s| && T.Split(s)[0] == s[..|T.Split(s)[0]|]
  {
    hide T.Join;
  }

  lemma ParseBound(s: Bytes)
    ensures ParseInt(s).number <= MAX
  {
  }

  /** The text of a canonical form has an underscore only where the project starts with one. */
  lemma CanonicalUnderscore(s: SemanticId)
    requires s.project != "" && s.code != "" && NoUnderscore(s.code) && s.number > 0
    requires s.project[0] != '_' ==> NoUnderscore(s.project)
    ensures Id(s) != "" && Id(s)[0] == s.project[0]
    ensures s.project[0] != '_' ==> NoUnderscore(Id(s))
  {
    var n := Itoa(s.number);
    assert NoUnderscore(n);
    if s.project[0] != '_' {
      NoneInConcat(s.code + ".", n);
      NoneInConcat(s.project + ".", s.code + "." + n);
      NoneInConcat((s.project + s.code) + ".", n);
    }
  }

  lemma NoneInConcat(a: Bytes, b: Bytes)
    requires NoUnderscore(a) && NoUnderscore(b)
    ensures NoUnderscore(a + b)
  {
  }

  /** The parts of a canonical form are read as the id they come from. */
  lemma ReadCanonical(s: SemanticId, raw: Bytes, name: Bytes)
    requires s.project != "" && 0 < s.number <= MAX && s.kind == KindOf(s.code)
    requires s.code == "CAT" || s.code == "CL" || (|s.code| == 1 && TypeLetter(s.code[0]))
    ensures ParseParts(raw, if s.code == "CAT" || s.code == "CL" then [s.project, s.code, Itoa(s.number)]
                            else [s.project + s.code, Itoa(s.number)], name)
         == s.(raw := raw, systemName := name)
  {
    ParseItoa(s.number);
    if s.code != "CAT" && s.code != "CL" {
      var prefix := s.project + s.code;
      assert prefix[|prefix| - 1] == s.code[0] && prefix[..|prefix| - 1] == s.project && prefix[|prefix| - 1..] == s.code;
    }
  }

  /** The canonical form of a valid id is a fixed point with the same parts, a saturated number
      included. */
  lemma CanonicalIsFixed(raw: Bytes)
    requires Valid(ParseSemanticId(raw))
    ensures var s := ParseSemanticId(raw);
            && ParseSemanticId(Id(s)) == s.(raw := Id(s), systemName := "")
            && Id(ParseSemanticId(Id(s))) == Id(s)
  {
    hide T.Split, KindOf, ParseParts;
    var s := ParseSemanticId(raw);
    var c := Id(s);
    ParsedShape(raw);
    CanonicalUnderscore(s);
    CanonicalParts(s);
    if c[0] == '_' {
      IndexOfIs(c, '_', 0);
    } else {
      IndexOfIs(c, '_', |c|);
    }
    ReadCanonical(s, c, "");
  }

  /** A system name comes back with its id exactly when the project does not start with an
      underscore. */
  lemma SystemNameIff(raw: Bytes, name: Bytes)
    requires Valid(ParseSemanticId(raw)) && name != ""
    ensures var s := ParseSemanticId(raw);
            var text := WithSystemName(s, name);
            ParseSemanticId(text) == s.(raw := text, systemName := name) <==> s.project[0] != '_'
  {
    hide T.Split, KindOf, ParseParts;
    var s := ParseSemanticId(raw);
    var c := Id(s);
    var text := c + ("_" + name);
    ParsedShape(raw);
    CanonicalUnderscore(s);
    CanonicalParts(s);
    if s.project[0] == '_' {
      IndexOfIs(text, '_', 0);
      NameKept(text, T.Split(IdPart(text)), "");
    } else {
      assert text[|c|] == '_';
      assert forall k | 0 <= k < |c| :: text[k] == c[k];
      IndexOfIs(text, '_', |c|);
      assert text[..|c|] == c && text[|c| + 1..] == name;
      ReadCanonical(s, text, name);
    }
  }

  lemma NameKept(raw: Bytes, parts: seq<Bytes>, name: Bytes)
    ensures ParseParts(raw, parts, name).systemName == name
  {
  }

  /** The kind goes with the code. */
  lemma KindIff(raw: Bytes)
    ensures var s := ParseSemanticId(raw);
            && (s.kind == "field" <==> s.code == "F") && (s.kind == "model" <==> s.code == "M") && (s.kind == "collection" <==> s.code == "C")
            && (s.kind == "category" <==> s.code == "CAT") && (s.kind == "concept_list" <==> s.code == "CL")
            && (s.kind == "" <==> s.code == "") && s.raw == raw
  {
    hide T.Split, ParseInt, IndexOf;
    CodesApart();
    if raw != "" { ParsedCode(raw, T.Split(IdPart(raw)), SystemNameOf(raw)); }
  }

  lemma CodesApart()
    ensures KindOf("F") == "field" && KindOf("M") == "model" && KindOf("C") == "collection"
    ensures KindOf("CAT") == "category" && KindOf("CL") == "concept_list" && KindOf("") == ""
    ensures |"field"| == 5 && |"model"| == 5 && |"collection"| == 10 && |"category"| == 8 && |"concept_list"| == 12
    ensures "field"[0] == 'f' && "model"[0] == 'm'
  {
  }

  lemma ParsedCode(raw: Bytes, parts: seq<Bytes>, name: Bytes)
    ensures var s := ParseParts(raw, parts, name);
            && (s.code == "F" || s.code == "M" || s.code == "C" || s.code == "CAT" || s.code == "CL" || s.code == "")
            && s.kind == KindOf(s.code) && s.raw == raw
  {
    hide ParseInt;
  }

  /** Every printed id is read back: `PF.n`, `PM.n` and `PC.n`, `P.CAT.n` and `P.CL.n`. */
  lemma ParsePrinted(p: Bytes, code: Bytes, n: nat)
    requires p != "" && T.NoDot(p) && NoUnderscore(p) && 0 < n <= MAX
    requires code == "CAT" || code == "CL" || code == "F" || code == "M" || code == "C"
    ensures var t := if code == "CAT" || code == "CL" then p + ("." + (code + ("." + Itoa(n)))) else (p + code) + ("." + Itoa(n));
            ParseSemanticId(t) == SemanticId(t, p, code, KindOf(code), n, "")
  {
    hide T.Split, KindOf, ParseParts, Itoa;
    var s := SemanticId("", p, code, KindOf(code), n, "");
    KindOfNothing();
    CanonicalParts(s);
    CanonicalUnderscore(s);
    var c := Id(s);
    assert c == if code == "CAT" || code == "CL" then p + ("." + (code + ("." + Itoa(n)))) else (p + code) + ("." + Itoa(n)) by {
      assert p + "." + (code + "." + Itoa(n)) == p + ("." + (code + ("." + Itoa(n))));
      assert (p + code) + "." + Itoa(n) == (p + code) + ("." + Itoa(n));
    }
    IndexOfIs(c, '_', |c|);
    ReadCanonical(s, c, "");
  }

  // ---------------------------------------------------------------- slots and groups

  function ExampleSlot(overrideId: nat, occurrence: nat): Bytes {
    Itoa(overrideId) + (":" + Itoa(occurrence))
  }

  /** The segment after the last slash. */
  function Leaf(path: Bytes): Bytes {
    path[LastIndex(path, '/') + 1..]
  }

  function ParseSlotLeaf(path: Bytes): Option<(nat, nat)> {
    var leaf := Leaf(path);
    var k := IndexOf(leaf, ':', 0);
    if path == "" || k == |leaf| then None
    else
      var oid, occ := ParseInt(leaf[..k]), ParseInt(leaf[k + 1..]);
      if !oid.ok || !occ.ok || occ.number < 0 || oid.number <= 0 then None
      else if ExampleSlot(oid.number, occ.number) != leaf then None
      else Some((oid.number, occ.number))
  }

  /** The parser accepts exactly the printed slots of positive overrides, in 64 bits. */
  lemma SlotLeafIff(path: Bytes, oid: nat, occ: nat)
    ensures ParseSlotLeaf(path) == Some((oid, occ)) <==> 0 < oid <= MAX && occ <= MAX && Leaf(path) == ExampleSlot(oid, occ)
  {
    hide Itoa, ParseInt, IndexOf, LastIndex;
    var leaf := Leaf(path);
    if 0 < oid <= MAX && occ <= MAX && leaf == ExampleSlot(oid, occ) {
      var o, c := Itoa(oid), Itoa(occ);
      assert forall k | 0 <= k < |o| :: leaf[k] == o[k];
      assert leaf[|o|] == ':';
      IndexOfIs(leaf, ':', |o|);
      assert leaf[..|o|] == o && leaf[|o| + 1..] == c;
      ParseItoa(oid);
      ParseItoa(occ);
    }
    if ParseSlotLeaf(path) == Some((oid, occ)) {
      var k := IndexOf(leaf, ':', 0);
      ParseBound(leaf[..k]);
      ParseBound(leaf[k + 1..]);
    }
  }

  function SlashCount(path: Bytes): nat {
    if path == "" then 0 else (if path[0] == '/' then 1 else 0) + SlashCount(path[1..])
  }

  function SlotDepth(path: Bytes): nat {
    if path == "" then 0 else SlashCount(path) + 1
  }

  lemma {:induction false} SlashCountConcat(a: Bytes, b: Bytes)
    ensures SlashCount(a + b) == SlashCount(a) + SlashCount(b)
  {
    if a == "" {
      assert a + b == b;
    } else {
      assert (a + b)[0] == a[0] && (a + b)[1..] == a[1..] + b;
      SlashCountConcat(a[1..], b);
    }
  }

  lemma {:induction false} NoSlashes(s: Bytes)
    requires NoByte(s, '/')
    ensures SlashCount(s) == 0
  {
    if s != "" { NoSlashes(s[1..]); }
  }

  predicate NoByte(s: Bytes, c: byte) { forall k | 0 <= k < |s| :: s[k] != c }

  /** A path of one segment has depth 1, the empty path 0. */
  lemma OneSegment(segment: Bytes)
    requires NoByte(segment, '/')
    ensures SlotDepth(segment) == if segment == "" then 0 else 1
  {
    NoSlashes(segment);
  }

  /** Appending a slot to a path makes it the leaf and the path one deeper. */
  lemma AppendedSlot(path: Bytes, oid: nat, occ: nat)
    requires path != "" && 0 < oid <= MAX && occ <= MAX
    ensures var longer := path + ("/" + ExampleSlot(oid, occ));
            ParseSlotLeaf(longer) == Some((oid, occ)) && SlotDepth(longer) == SlotDepth(path) + 1
  {
    hide SlashCount, ExampleSlot, ParseSlotLeaf, LastIndex;
    var slot := ExampleSlot(oid, occ);
    SlotNoSlash(oid, occ);
    LeafOfAppended(path, slot);
    SlotLeafIff(path + ("/" + slot), oid, occ);
    SlashCountConcat(path, "/" + slot);
    SlashCountConcat("/", slot);
    NoSlashes(slot);
    OneSlash();
  }

  lemma OneSlash()
    ensures SlashCount("/") == 1
  {
    assert "/"[1..] == "";
  }

  lemma SlotNoSlash(oid: nat, occ: nat)
    ensures NoByte(ExampleSlot(oid, occ), '/')
  {
    hide Itoa;
  }

  lemma LeafOfAppended(path: Bytes, slot: Bytes)
    requires NoByte(slot, '/')
    ensures Leaf(path + ("/" + slot)) == slot
  {
    hide LastIndex;
    var longer := path + ("/" + slot);
    assert longer[|path|] == '/';
    assert forall k | |path| < k < |longer| :: longer[k] == slot[k - |path| - 1];
    LastIndexIs(longer, '/', |path|);
    assert longer[|path| + 1..] == slot;
  }

  function GroupSegment(collection: Bytes, instance: nat): Bytes {
    collection + (":" + Itoa(instance))
  }

  function ParseGroupSegment(seg: Bytes): Option<(Bytes, nat)> {
    var i := LastIndex(seg, ':');
    if i <= 0 || !NoByte(seg, '/') then None
    else
      var n := ParseInt(seg[i + 1..]);
      if !n.ok || n.number < 0 || Itoa(n.number) != seg[i + 1..] then None else Some((seg[..i], n.number))
  }

  /** The parser accepts exactly the printed segments of collections that are not empty and
      have no slash. */
  lemma GroupSegmentIff(seg: Bytes, collection: Bytes, instance: nat)
    ensures ParseGroupSegment(seg) == Some((collection, instance)) <==>
            collection != "" && NoByte(collection, '/') && instance <= MAX && seg == GroupSegment(collection, instance)
  {
    hide GroupSegment, ParseGroupSegment, NoByte;
    if collection != "" && NoByte(collection, '/') && instance <= MAX && seg == GroupSegment(collection, instance) {
      PrintedGroup(collection, instance);
    }
    if ParseGroupSegment(seg) == Some((collection, instance)) {
      ParsedGroup(seg, collection, instance);
    }
  }

  lemma PrintedGroup(collection: Bytes, instance: nat)
    requires collection != "" && NoByte(collection, '/') && instance <= MAX
    ensures ParseGroupSegment(GroupSegment(collection, instance)) == Some((collection, instance))
  {
    hide Itoa, ParseInt, LastIndex;
    var n := Itoa(instance);
    var seg := GroupSegment(collection, instance);
    assert seg[|collection|] == ':';
    assert forall k | |collection| < k < |seg| :: seg[k] == n[k - |collection| - 1];
    LastIndexIs(seg, ':', |collection|);
    assert seg[..|collection|] == collection && seg[|collection| + 1..] == n;
    ParseItoa(instance);
  }

  lemma ParsedGroup(seg: Bytes, collection: Bytes, instance: nat)
    requires ParseGroupSegment(seg) == Some((collection, instance))
    ensures collection != "" && NoByte(collection, '/') && instance <= MAX && seg == GroupSegment(collection, instance)
  {
    hide Itoa, ParseInt, LastIndex;
    var i := LastIndex(seg, ':');
    ParseBound(seg[i + 1..]);
    assert seg == seg[..i] + (":" + seg[i + 1..]);
  }
}
