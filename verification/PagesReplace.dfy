/** Splicing refines an update of the syntax tree: replacing the scanned ranges of an object
    rewrites exactly the requested string members. */
module PagesReplace {
  import opened Wrappers
  import opened Bytes
  import opened JsonGrammar
  import opened JsonScan
  import opened JsonStrings
  import opened JsonAgree
  import opened PagesEdit

  function Own(e: Entry): map<Bytes, Bytes> {
    if e.name.Name? && e.value.Str? then map[e.name.key := e.value.body] else map[]
  }

  /** The string members of an object: key to escaped body, the last occurrence winning. */
  function Strings(es: seq<Entry>): map<Bytes, Bytes> {
    if es == [] then map[] else Own(es[0]) + Strings(es[1..])
  }

  /** The requested string members rewritten, everything else as it was. */
  function Replace(es: seq<Entry>, kv: Updates): seq<Entry> {
    if es == [] then []
    else [if Hit(es, kv) then Rewritten(es[0], kv) else es[0]] + Replace(es[1..], kv)
  }

  /** The first entry is the last string member with its key, and that key is updated. */
  predicate Hit(es: seq<Entry>, kv: Updates)
    requires es != []
  {
    es[0].name.Name? && es[0].value.Str? && es[0].name.key in kv && es[0].name.key !in Strings(es[1..])
  }

  function Rewritten(e: Entry, kv: Updates): Entry
    requires e.name.Name? && e.name.key in kv
  {
    e.(value := Str(EncodeBody(kv[e.name.key])))
  }

  lemma {:induction false} ReplaceShape(es: seq<Entry>, kv: Updates)
    ensures |Replace(es, kv)| == |es|
    ensures forall j | 0 <= j < |es| :: var e := Replace(es, kv)[j];
              e.pre == es[j].pre && e.name == es[j].name && e.post == es[j].post &&
              (e.value == es[j].value || (e.value.Str? && es[j].value.Str?))
  {
    hide EncodeBody, Strings;
    if es != [] { ReplaceShape(es[1..], kv); }
  }

  lemma {:induction false} WfReplace(es: seq<Entry>, kv: Updates)
    requires WfEntries(Object, es)
    ensures WfEntries(Object, Replace(es, kv))
  {
    hide EncodeBody, WfBody, Strings;
    if es != [] {
      WfReplace(es[1..], kv);
      if Hit(es, kv) { EncodeWf(kv[es[0].name.key]); }
      assert WfEntry(Object, Replace(es, kv)[0]);
      assert Replace(es, kv)[1..] == Replace(es[1..], kv);
    }
  }

  // ---------------------------------------------------------------- the ranges of a scan

  /** Where the ranges of a scan come from. */
  lemma {:induction false} RangesOf(es: seq<Entry>, i: nat, acc: Ranges)
    ensures var r := AddRanges(es, i, acc);
            && r.Keys == acc.Keys + Strings(es).Keys
            && (forall k | k in Strings(es) :: i <= r[k].0 < r[k].1 <= i + |Entries(es)|)
            && (forall k | k in acc && k !in Strings(es) :: r[k] == acc[k])
    decreases es
  {
    hide NameText, EntryText;
    if es != [] {
      var n := |EntryText(es[0])|;
      EntryLength(es[0]);
      RangesOf(es[1..], i + n + 1, AddRange(es[0], i, acc));
    }
  }

  lemma EntryLength(e: Entry)
    ensures |EntryText(e)| == |e.pre| + |NameText(e.name)| + |Text(e.value)| + |e.post|
    ensures e.value.Str? ==> |Text(e.value)| >= 2
  {
  }

  /** The range of the first entry survives iff no later string member has its key. */
  lemma FirstRange(es: seq<Entry>, i: nat, acc: Ranges, k: Bytes)
    requires es != []
    requires k in Strings(es) && k !in Strings(es[1..])
    ensures es[0].name.Name? && es[0].value.Str? && es[0].name.key == k
    ensures var v := i + |es[0].pre| + |NameText(es[0].name)|;
            k in AddRanges(es, i, acc) && AddRanges(es, i, acc)[k] == (v, v + |Text(es[0].value)|)
  {
    hide NameText, EntryText, Text;
    RangesOf(es[1..], i + |EntryText(es[0])| + 1, AddRange(es[0], i, acc));
  }

  /** Every range of a scan stands before the first entry, is the first entry's own, or
      stands after it. */
  lemma RangePlaces(es: seq<Entry>, i: nat, acc: Ranges, k: Bytes)
    requires es != [] && Below(acc, i) && k in AddRanges(es, i, acc)
    requires forall l | l in acc :: acc[l].0 < acc[l].1
    ensures var s := AddRanges(es, i, acc)[k].0;
            || s < i
            || i + |EntryText(es[0])| < s
            || (es[0].name.Name? && es[0].value.Str? && es[0].name.key == k && k !in Strings(es[1..])
                && s == i + |es[0].pre| + |NameText(es[0].name)|)
  {
    hide NameText, EntryText, Text, AddRange, Own, Entries;
    if k !in Strings(es) {
      RangesOf(es, i, acc);
    } else if k in Strings(es[1..]) {
      RangesOf(es[1..], i + |EntryText(es[0])| + 1, AddRange(es[0], i, acc));
    } else {
      FirstRange(es, i, acc, k);
    }
  }

  // ---------------------------------------------------------------- patching entries

  /** One entry, whose value is replaced if `hit`. */
  lemma PatchEntry(data: Bytes, i: nat, e: Entry, hit: bool, body: Bytes, edits: Edits)
    requires At(data, i, EntryText(e))
    requires var v := i + |e.pre| + |NameText(e.name)|;
             && (forall s | s in edits :: s < i || i + |EntryText(e)| <= s || (hit && s == v))
             && (hit ==> e.value.Str? && v in edits && edits[v] == (v + |Text(e.value)|, Quoted(body)))
    ensures Patch(data, i, edits) ==
            EntryText(if hit then e.(value := Str(body)) else e) + Patch(data, i + |EntryText(e)|, edits)
  {
    hide At, NameText, Patch;
    var v := i + |e.pre| + |NameText(e.name)|;
    var w := v + |Text(e.value)|;
    var end := i + |EntryText(e)|;
    EntryLength(e);
    AtSlice(data, i, EntryText(e));
    if hit {
      EntryParts(data, i, e);
      AtSlice(data, i, e.pre);
      AtSlice(data, i + |e.pre|, NameText(e.name));
      AtSlice(data, w, e.post);
      assert data[i..v] == data[i..i + |e.pre|] + data[i + |e.pre|..v];
      PatchCopy(data, i, v, edits);
      PatchAt(data, v, edits);
      PatchCopy(data, w, end, edits);
      RegroupHit(e.pre, NameText(e.name), Quoted(body), e.post, Patch(data, end, edits));
    } else {
      PatchCopy(data, i, end, edits);
    }
  }

  lemma RegroupHit(a: Bytes, b: Bytes, c: Bytes, d: Bytes, rest: Bytes)
    ensures (a + b) + (c + (d + rest)) == (a + (b + (c + d))) + rest
  {
  }

  lemma PatchAt(data: Bytes, v: nat, edits: Edits)
    requires v in edits && v < edits[v].0 <= |data|
    ensures Patch(data, v, edits) == edits[v].1 + Patch(data, edits[v].0, edits)
  {
  }

  lemma {:induction false} PatchEntries(data: Bytes, i: nat, es: seq<Entry>, acc: Ranges, ranges: Ranges, kv: Updates)
    requires es != [] && At(data, i, Entries(es))
    requires Below(acc, i) && Disjoint(acc) && Disjoint(ranges) && ranges == AddRanges(es, i, acc)
    ensures Patch(data, i, EditsFor(ranges, kv)) ==
            Entries(Replace(es, kv)) + Patch(data, i + |Entries(es)|, EditsFor(ranges, kv))
    decreases es
  {
    hide At, EntryText, NameText, Text, Patch, EncodeBody, Strings, Disjoint, EditsFor;
    var n := |EntryText(es[0])|;
    var edits := EditsFor(ranges, kv);
    var hit := Hit(es, kv);
    var body := if hit then EncodeBody(kv[es[0].name.key]) else "";
    FirstEdit(i, es, acc, ranges, kv);
    if |es| == 1 {
      PatchEntry(data, i, es[0], hit, body, edits);
      assert Replace(es[1..], kv) == [];
    } else {
      EntriesParts(data, i, es);
      PatchEntry(data, i, es[0], hit, body, edits);
      AtSlice(data, i + n, ",");
      CommaNotEdited(i, es, acc, ranges, kv);
      PatchCopy(data, i + n, i + n + 1, edits);
      var acc' := AddRange(es[0], i, acc);
      AddRangeKept(es[0], i, acc);
      PatchEntries(data, i + n + 1, es[1..], acc', ranges, kv);
      assert Replace(es, kv)[1..] == Replace(es[1..], kv);
      assert Replace(es[1..], kv) != [];
      RegroupRest(EntryText(Replace(es, kv)[0]), Entries(Replace(es[1..], kv)), Patch(data, i + |Entries(es)|, edits));
    }
  }

  lemma RegroupRest(a: Bytes, b: Bytes, rest: Bytes)
    ensures a + ("," + (b + rest)) == (a + ("," + b)) + rest
  {
  }

  lemma AddRangeKept(e: Entry, i: nat, acc: Ranges)
    requires Below(acc, i) && Disjoint(acc)
    ensures Below(AddRange(e, i, acc), i + |EntryText(e)| + 1) && Disjoint(AddRange(e, i, acc))
  {
    hide NameText, EntryText, Text;
    EntryLength(e);
  }

  lemma FirstEdit(i: nat, es: seq<Entry>, acc: Ranges, ranges: Ranges, kv: Updates)
    requires es != [] && Below(acc, i) && Disjoint(acc) && Disjoint(ranges) && ranges == AddRanges(es, i, acc)
    ensures var e := es[0];
            var v := i + |e.pre| + |NameText(e.name)|;
            var edits := EditsFor(ranges, kv);
            && (forall s | s in edits :: s < i || i + |EntryText(e)| <= s || (Hit(es, kv) && s == v))
            && (Hit(es, kv) ==> v in edits && edits[v] == (v + |Text(e.value)|, Quoted(EncodeBody(kv[e.name.key]))))
  {
    hide EntryText, NameText, Text, EncodeBody, Quoted;
    var edits := EditsFor(ranges, kv);
    forall s | s in edits
      ensures s < i || i + |EntryText(es[0])| <= s || (Hit(es, kv) && s == i + |es[0].pre| + |NameText(es[0].name)|)
    {
      var k :| k in kv && k in ranges && ranges[k].0 == s;
      RangePlaces(es, i, acc, k);
    }
    if Hit(es, kv) {
      FirstRange(es, i, acc, es[0].name.key);
      RangesOf(es, i, acc);
    }
  }

  lemma CommaNotEdited(i: nat, es: seq<Entry>, acc: Ranges, ranges: Ranges, kv: Updates)
    requires es != [] && Below(acc, i) && Disjoint(acc) && Disjoint(ranges) && ranges == AddRanges(es, i, acc)
    ensures forall s | s in EditsFor(ranges, kv) :: s < i + |EntryText(es[0])| || i + |EntryText(es[0])| + 1 <= s
  {
    hide EntryText, NameText, Text, EncodeBody, Quoted;
    EntryLength(es[0]);
    forall s | s in EditsFor(ranges, kv)
      ensures s < i + |EntryText(es[0])| || i + |EntryText(es[0])| + 1 <= s
    {
      var k :| k in kv && k in ranges && ranges[k].0 == s;
      RangePlaces(es, i, acc, k);
    }
  }

  /** The scan of an object standing after `left`: its string members and nothing else. */
  lemma ScanWhole(left: Bytes, o: Value, right: Bytes)
    requires IsObject(o) && Wf(o)
    ensures var raw := left + (Text(o) + right);
            var ranges := AddRanges(o.entries, |left| + 1, map[]);
            && At(raw, |left|, Text(o))
            && Scan(raw, |left|) == Ok(ranges) && Disjoint(ranges)
            && ranges.Keys == Strings(o.entries).Keys
            && (forall k | k in ranges :: |left| < ranges[k].0 < |left| + 1 + |Inside(o.pad, o.entries)|)
  {
    hide At, Scan, Entries, WfEntries, Disjoint, AddRanges, Text, Strings;
    var raw := left + (Text(o) + right);
    assert raw == left + Text(o) + right;
    AtHere(left, Text(o), right);
    ScanObject(raw, |left|, o);
    ScanDisjoint(raw, |left|);
    RangesOf(o.entries, |left| + 1, map[]);
    if o.entries == [] { NoStrings(); }
  }

  lemma NoStrings()
    ensures Strings([]) == map[]
  {
  }

  /** Replacing the scanned ranges of the object standing after `left` rewrites that object
      and leaves every byte outside it as it was. */
  lemma PatchObject(left: Bytes, o: Value, right: Bytes, kv: Updates)
    requires IsObject(o) && Wf(o)
    ensures var raw := left + (Text(o) + right);
            && Scan(raw, |left|).Ok? && Disjoint(Scan(raw, |left|).value)
            && Scan(raw, |left|).value.Keys == Strings(o.entries).Keys
            && Patch(raw, 0, EditsFor(Scan(raw, |left|).value, kv)) ==
               left + (Text(o.(entries := Replace(o.entries, kv))) + right)
  {
    hide At, Scan, Patch, EditsFor, Entries, WfEntries, Disjoint, AddRanges, Strings;
    var raw := left + (Text(o) + right);
    var i := |left| + 1;
    ScanWhole(left, o, right);
    NodeParts(raw, |left|, o);
    var ranges := Scan(raw, |left|).value;
    var edits := EditsFor(ranges, kv);
    EditsInside(ranges, kv, i, i + |Inside(o.pad, o.entries)|);
    if o.entries == [] {
      NoStrings();
      EditsNone(ranges, kv);
      PatchBlank(raw, edits);
      assert Replace(o.entries, kv) == o.entries;
    } else {
      PatchFull(raw, i, o.entries, ranges, kv);
      FullObject(left, o, right, kv);
    }
  }

  lemma EditsNone(ranges: Ranges, kv: Updates)
    requires ranges.Keys == {} && Disjoint(ranges)
    ensures EditsFor(ranges, kv) == map[]
  {
  }

  lemma PatchBlank(raw: Bytes, edits: Edits)
    requires edits == map[]
    ensures Patch(raw, 0, edits) == raw
  {
    hide Patch;
    PatchCopy(raw, 0, |raw|, edits);
    PatchNothing(raw, edits);
    assert raw[0..|raw|] == raw;
  }

  lemma PatchAround(raw: Bytes, i: nat, end: nat, text: Bytes, edits: Edits)
    requires i <= end <= |raw| && forall s | s in edits :: i <= s < end
    requires Patch(raw, i, edits) == text + Patch(raw, end, edits)
    ensures Patch(raw, 0, edits) == raw[0..i] + (text + (raw[end..|raw|] + ""))
  {
    hide Patch;
    PatchCopy(raw, 0, i, edits);
    PatchCopy(raw, end, |raw|, edits);
    PatchNothing(raw, edits);
  }

  lemma PatchFull(raw: Bytes, i: nat, es: seq<Entry>, ranges: Ranges, kv: Updates)
    requires es != [] && ranges == AddRanges(es, i, map[]) && Disjoint(ranges) && At(raw, i, Entries(es))
    requires forall s | s in EditsFor(ranges, kv) :: i <= s < i + |Entries(es)|
    ensures Patch(raw, 0, EditsFor(ranges, kv)) ==
            raw[0..i] + (Entries(Replace(es, kv)) + (raw[i + |Entries(es)|..|raw|] + ""))
  {
    hide At, Patch, EditsFor, Entries, Disjoint, AddRanges, Replace;
    NoRanges();
    PatchEntries(raw, i, es, map[], ranges, kv);
    PatchAround(raw, i, i + |Entries(es)|, Entries(Replace(es, kv)), EditsFor(ranges, kv));
  }

  lemma FullObject(left: Bytes, o: Value, right: Bytes, kv: Updates)
    requires IsObject(o) && o.entries != []
    ensures var raw := left + (Text(o) + right);
            |left| + 1 + |Entries(o.entries)| <= |raw| &&
            raw[0..|left| + 1] + (Entries(Replace(o.entries, kv)) + (raw[|left| + 1 + |Entries(o.entries)|..|raw|] + "")) ==
            left + (Text(o.(entries := Replace(o.entries, kv))) + right)
  {
    hide Entries, Text, Replace;
    ReplaceShape(o.entries, kv);
    FullText(left, o, right);
    FullText(left, o.(entries := Replace(o.entries, kv)), right);
    NodeAround(left, Entries(o.entries), right, Entries(Replace(o.entries, kv)));
  }

  lemma FullText(left: Bytes, o: Value, right: Bytes)
    requires IsObject(o) && o.entries != []
    ensures left + (Text(o) + right) == left + (("{" + (Entries(o.entries) + "}")) + right)
  {
    hide Entries;
  }

  lemma NoRanges()
    ensures Disjoint(map[])
  {
  }

  lemma PatchNothing(data: Bytes, edits: Edits)
    ensures Patch(data, |data|, edits) == ""
  {
  }

  lemma NodeAround(left: Bytes, text: Bytes, right: Bytes, new_: Bytes)
    ensures var raw := left + (("{" + (text + "}")) + right);
            var end := |left| + 1 + |text|;
            end <= |raw| && raw[0..|left| + 1] + (new_ + (raw[end..|raw|] + "")) == left + (("{" + (new_ + "}")) + right)
  {
    var raw := left + (("{" + (text + "}")) + right);
    assert raw == (left + "{") + text + ("}" + right);
    assert raw[0..|left| + 1] == left + "{";
    assert raw[|left| + 1 + |text|..|raw|] == "}" + right;
  }

  lemma EditsInside(ranges: Ranges, kv: Updates, i: nat, end: nat)
    requires Disjoint(ranges) && forall k | k in ranges :: i <= ranges[k].0 < end
    ensures forall s | s in EditsFor(ranges, kv) :: i <= s < end
  {
  }
}
