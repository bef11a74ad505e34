/** The targeted edits of cmd/pages.go: splicing new string values into a language file
    and inserting new members, on raw bytes. */
module PagesEdit {
  import opened Wrappers
  import opened Bytes
  import opened JsonScan
  import opened JsonStrings
  import opened Sorting
  import Lexicographic

  datatype Pair = Pair(key: Bytes, value: Bytes)

  datatype Rep = Rep(start: nat, end: nat, val: Bytes)

  datatype EditError = PagesNotFound | Unbalanced | ScanFailed(error: ScanError)

  /** A new member's key and value, or a key's new value. */
  type Updates = map<Bytes, Bytes>

  // ---------------------------------------------------------------- specification: insertion

  /** The lines of `pairs` from index `i` on; all but the last end with a comma. */
  function Lines(pairs: seq<Pair>, i: nat): Bytes
    requires i <= |pairs|
    decreases |pairs| - i
  {
    if i == |pairs| then "" else Line(pairs[i], i < |pairs| - 1) + Lines(pairs, i + 1)
  }

  function Line(p: Pair, comma: bool): Bytes {
    "      \"" + p.key + "\": " + EncodeJsonString(p.value) + (if comma then "," else "") + "\n"
  }

  function BlockBody(pairs: seq<Pair>): Bytes {
    "\n" + Lines(pairs, 0) + "    "
  }

  function SlugMember(slug: Bytes, pairs: seq<Pair>): Bytes {
    "\n    \"" + slug + "\": {" + BlockBody(pairs) + "}\n  "
  }

  /** The last position in `lo..i` that is not white space, or `lo`. */
  function LastInk(raw: Bytes, lo: nat, i: nat): (k: nat)
    requires lo <= i < |raw|
    ensures lo <= k <= i
    ensures forall j | k < j <= i :: IsWs(raw[j])
    ensures k > lo ==> !IsWs(raw[k])
  {
    if i > lo && IsWs(raw[i]) then LastInk(raw, lo, i - 1) else i
  }

  /** `text` as the last entries of the object between `open` and `close`: in place of a
      blank inside, or after the last entry and a comma. */
  function InsertLast(raw: Bytes, open: nat, close: nat, text: Bytes): Bytes
    requires open < close < |raw|
  {
    if AllWs(raw[open + 1..close]) then raw[..open + 1] + text + raw[close..]
    else
      var i := LastInk(raw, open, close - 1);
      raw[..i + 1] + (if raw[i] != ',' then "," else "") + text + raw[close..]
  }

  function Insert(raw: Bytes, slug: Bytes, pairs: seq<Pair>): Result<Bytes, EditError> {
    match FindKey(raw, 0, "pages")
    case None => Err(PagesNotFound)
    case Some(pagesOpen) =>
      match BraceMatch(raw, pagesOpen)
      case None => Err(Unbalanced)
      case Some(pagesClose) =>
        match FindKey(raw[..pagesClose], pagesOpen + 1, slug)
        case None => Ok(InsertLast(raw, pagesOpen, pagesClose, SlugMember(slug, pairs)))
        case Some(slugOpen) =>
          match BraceMatch(raw, slugOpen)
          case None => Err(Unbalanced)
          case Some(slugClose) => Ok(InsertLast(raw, slugOpen, slugClose, BlockBody(pairs)))
  }

  // ---------------------------------------------------------------- specification: replacement

  /** Start of a range to its end and the bytes to stand there instead. */
  type Edits = map<nat, (nat, Bytes)>

  /** `data` from `i` on with every range of `edits` replaced, all at once. */
  function Patch(data: Bytes, i: nat, edits: Edits): Bytes
    requires i <= |data|
    decreases |data| - i
  {
    if i == |data| then ""
    else if i in edits && i < edits[i].0 <= |data| then edits[i].1 + Patch(data, edits[i].0, edits)
    else [data[i]] + Patch(data, i + 1, edits)
  }

  ghost predicate Disjoint(ranges: Ranges) {
    && (forall k | k in ranges :: ranges[k].0 < ranges[k].1)
    && (forall k, l | k in ranges && l in ranges && k != l ::
          ranges[k].1 <= ranges[l].0 || ranges[l].1 <= ranges[k].0)
  }

  ghost predicate Below(ranges: Ranges, i: nat) {
    forall k | k in ranges :: ranges[k].1 <= i
  }

  ghost function EditsFor(ranges: Ranges, kv: Updates): Edits
    requires Disjoint(ranges)
  {
    map k | k in kv && k in ranges :: ranges[k].0 := (ranges[k].1, EncodeJsonString(kv[k]))
  }

  predicate PairLess(a: Pair, b: Pair) { Lexicographic.Less(a.key, b.key) }

  ghost function PairsOf(kv: Updates): set<Pair> {
    set k | k in kv :: Pair(k, kv[k])
  }

  lemma PairsOrdered(kv: Updates)
    ensures Orders(PairLess, PairsOf(kv))
  {
    Lexicographic.Strict();
  }

  /** The updates as pairs, by ascending key. */
  ghost function SortedPairs(kv: Updates): seq<Pair> {
    PairsOrdered(kv);
    Arranged(PairsOf(kv), PairLess)
  }

  /** New members are written by ascending key, each once. */
  lemma PairsAscend(kv: Updates)
    ensures var ps := SortedPairs(kv);
            && (forall i, j | 0 <= i < j < |ps| :: Lexicographic.Less(ps[i].key, ps[j].key))
            && (forall k | k in kv :: exists i :: 0 <= i < |ps| && ps[i] == Pair(k, kv[k]))
            && (forall i | 0 <= i < |ps| :: ps[i].key in kv && kv[ps[i].key] == ps[i].value)
  {
    var ps := SortedPairs(kv);
    assert Elements(ps) == PairsOf(kv);
    forall i, j | 0 <= i < j < |ps| ensures Lexicographic.Less(ps[i].key, ps[j].key) { assert PairLess(ps[i], ps[j]); }
    forall k | k in kv ensures exists i :: 0 <= i < |ps| && ps[i] == Pair(k, kv[k]) { assert Pair(k, kv[k]) in Elements(ps); }
    forall i | 0 <= i < |ps| ensures ps[i].key in kv && kv[ps[i].key] == ps[i].value { assert ps[i] in Elements(ps); }
  }

  function FindSlug(raw: Bytes, slug: Bytes): (r: Option<nat>)
    ensures r.Some? ==> r.value < |raw|
  {
    match FindKey(raw, 0, "pages")
    case None => None
    case Some(pagesOpen) =>
      match BraceMatch(raw, pagesOpen)
      case None => None
      case Some(pagesClose) =>
        match FindKey(raw[..pagesClose], pagesOpen + 1, slug)
        case None => None
        case Some(slugOpen) => if BraceMatch(raw, slugOpen).None? then None else Some(slugOpen)
  }

  function Missing(kv: Updates, ranges: Ranges): Updates {
    map k | k in kv && k !in ranges :: kv[k]
  }

  /** The whole of `applySlugUpdates`, on any bytes. */
  ghost function Apply(raw: Bytes, slug: Bytes, kv: Updates): Result<Bytes, EditError> {
    if kv == map[] then Ok(raw)
    else
      match FindSlug(raw, slug)
      case None => Insert(raw, slug, SortedPairs(kv))
      case Some(open) =>
        match Scan(raw, open)
        case Err(error) => Err(ScanFailed(error))
        case Ok(ranges) =>
          ScanDisjoint(raw, open);
          var out := Patch(raw, 0, EditsFor(ranges, kv));
          var missing := Missing(kv, ranges);
          if missing == map[] then Ok(out) else Insert(out, slug, SortedPairs(missing))
  }

  /** On any bytes, the ranges a scan returns lie in the data and do not overlap. */
  lemma ScanDisjoint(data: Bytes, open: nat)
    requires Scan(data, open).Ok?
    ensures Disjoint(Scan(data, open).value) && Below(Scan(data, open).value, |data|)
  {
    ScanFromDisjoint(data, open + 1, map[]);
  }

  lemma {:induction false} ScanFromDisjoint(data: Bytes, i: nat, acc: Ranges)
    requires i <= |data| && Disjoint(acc) && Below(acc, i) && ScanFrom(data, i, acc).Ok?
    ensures Disjoint(ScanFrom(data, i, acc).value) && Below(ScanFrom(data, i, acc).value, |data|)
    decreases |data| - i
  {
    hide MemberAt, SkipWs;
    var at := SkipWs(data, i);
    if data[at] == ',' {
      ScanFromDisjoint(data, at + 1, acc);
    } else if data[at] == '"' {
      MemberDisjoint(data, at, acc);
      var (ranges, next) := MemberAt(data, at, acc).value;
      ScanFromDisjoint(data, next, ranges);
    }
  }

  lemma MemberDisjoint(data: Bytes, at: nat, acc: Ranges)
    requires at < |data| && Disjoint(acc) && Below(acc, at) && MemberAt(data, at, acc).Ok?
    ensures var (ranges, next) := MemberAt(data, at, acc).value; Disjoint(ranges) && Below(ranges, next)
  {
    hide SkipWs, StringEnd, BraceMatch, ArrayEnd, SkipAtom;
  }

  // ---------------------------------------------------------------- the methods of the source

  lemma LinesStep(sb: Bytes, pairs: seq<Pair>, i: nat)
    requires i < |pairs|
    ensures sb + Lines(pairs, i) == sb + Line(pairs[i], i < |pairs| - 1) + Lines(pairs, i + 1)
  {
  }

  method AppendPairs(prefix: Bytes, pairs: seq<Pair>) returns (sb: Bytes)
    ensures sb == prefix + Lines(pairs, 0)
  {
    hide EncodeJsonString, Lines;
    sb := prefix;
    var i := 0;
    while i < |pairs|
      invariant 0 <= i <= |pairs|
      invariant sb + Lines(pairs, i) == prefix + Lines(pairs, 0)
    {
      var line := "      \"";
      line := line + pairs[i].key;
      line := line + "\": ";
      line := line + EncodeJsonString(pairs[i].value);
      if i < |pairs| - 1 {
        line := line + ",";
      }
      line := line + "\n";
      LinesStep(sb, pairs, i);
      sb := sb + line;
      i := i + 1;
    }
    NoLines(pairs);
    assert prefix + Lines(pairs, 0) == sb + "" == sb;
  }

  lemma NoLines(pairs: seq<Pair>)
    ensures Lines(pairs, |pairs|) == ""
  {
  }

  method HasEntries(body: Bytes) returns (found: bool)
    ensures found <==> !AllWs(body)
  {
    for i := 0 to |body|
      invariant AllWs(body[..i])
    {
      if !IsWs(body[i]) {
        return true;
      }
    }
    assert body[..|body|] == body;
    return false;
  }

  method WalkBack(raw: Bytes, open: nat, last: nat) returns (i: nat)
    requires open <= last < |raw|
    ensures i == LastInk(raw, open, last)
  {
    i := last;
    while i > open && IsWs(raw[i])
      invariant open <= i <= last
      invariant LastInk(raw, open, last) == LastInk(raw, open, i)
    {
      i := i - 1;
    }
  }

  /** The part `createSlugBlock` and `appendIntoSlugBlock` share: find the last entry,
      and build the new bytes around it. */
  method Rebuild(raw: Bytes, open: nat, close: nat, insertion: Bytes) returns (out: Bytes)
    requires open < close < |raw|
    ensures out == InsertLast(raw, open, close, insertion)
  {
    hide LastInk;
    var hasEntries := HasEntries(raw[open + 1..close]);
    if hasEntries {
      var i := WalkBack(raw, open, close - 1);
      var needComma := raw[i] != ',';
      out := raw[..i + 1];
      if needComma {
        out := out + ",";
      }
      out := out + insertion;
      out := out + raw[close..];
    } else {
      out := raw[..open + 1];
      out := out + insertion;
      out := out + raw[close..];
    }
  }

  method CreateSlugBlock(raw: Bytes, pagesOpen: nat, pagesClose: nat, slug: Bytes, pairs: seq<Pair>)
      returns (out: Bytes)
    requires pagesOpen < pagesClose < |raw|
    ensures out == InsertLast(raw, pagesOpen, pagesClose, SlugMember(slug, pairs))
  {
    var sb := "\n    \"";
    sb := sb + slug;
    sb := sb + "\": {\n";
    sb := AppendPairs(sb, pairs);
    sb := sb + "    }\n  ";
    assert sb == SlugMember(slug, pairs);
    out := Rebuild(raw, pagesOpen, pagesClose, sb);
  }

  method AppendIntoSlugBlock(raw: Bytes, slugOpen: nat, slugClose: nat, pairs: seq<Pair>)
      returns (out: Bytes)
    requires slugOpen < slugClose < |raw|
    ensures out == InsertLast(raw, slugOpen, slugClose, BlockBody(pairs))
  {
    var sb := AppendPairs("\n", pairs);
    sb := sb + "    ";
    out := Rebuild(raw, slugOpen, slugClose, sb);
  }

  method InsertPageKeys(raw: Bytes, slug: Bytes, pairs: seq<Pair>) returns (r: Result<Bytes, EditError>)
    ensures r == Insert(raw, slug, pairs)
  {
    hide FindKey, BraceMatch, InsertLast, SlugMember, BlockBody;
    var pagesOpen := FindKeyObjectOpen(raw, 0, "pages");
    if pagesOpen == None {
      return Err(PagesNotFound);
    }
    var pagesClose := MatchBrace(raw, pagesOpen.value);
    if pagesClose == None {
      return Err(Unbalanced);
    }
    var slugOpen := FindKeyObjectOpen(raw[..pagesClose.value], pagesOpen.value + 1, slug);
    if slugOpen == None {
      var created := CreateSlugBlock(raw, pagesOpen.value, pagesClose.value, slug, pairs);
      return Ok(created);
    }
    var slugClose := MatchBrace(raw, slugOpen.value);
    if slugClose == None {
      return Err(Unbalanced);
    }
    var appended := AppendIntoSlugBlock(raw, slugOpen.value, slugClose.value, pairs);
    return Ok(appended);
  }

  method FindSlugBlock(data: Bytes, slug: Bytes) returns (r: Option<nat>)
    ensures r == FindSlug(data, slug)
  {
    hide FindKey, BraceMatch;
    var pagesOpen := FindKeyObjectOpen(data, 0, "pages");
    if pagesOpen == None {
      return None;
    }
    var pagesClose := MatchBrace(data, pagesOpen.value);
    if pagesClose == None {
      return None;
    }
    var slugOpen := FindKeyObjectOpen(data[..pagesClose.value], pagesOpen.value + 1, slug);
    if slugOpen == None {
      return None;
    }
    var slugClose := MatchBrace(data, slugOpen.value);
    return if slugClose == None then None else slugOpen;
  }

  /** Collects the updates of an iteration over the map, in whatever order it comes, and
      sorts them by key. */
  method CollectPairs(kv: Updates) returns (pairs: seq<Pair>)
    ensures pairs == SortedPairs(kv)
  {
    pairs := [];
    var keys := kv.Keys;
    while keys != {}
      invariant keys <= kv.Keys && Distinct(pairs)
      invariant Elements(pairs) == set k | k in kv.Keys - keys :: Pair(k, kv[k])
    {
      var k :| k in keys;
      keys := keys - {k};
      AppendElement(pairs, Pair(k, kv[k]));
      pairs := pairs + [Pair(k, kv[k])];
    }
    assert Elements(pairs) == PairsOf(kv);
    PairsOrdered(kv);
    pairs := Sort(pairs, PairLess);
  }

  predicate StartsLater(a: Rep, b: Rep) { a.start > b.start }

  ghost predicate RepsFor(reps: seq<Rep>, ranges: Ranges, kv: Updates) {
    && (forall k | k in kv && k in ranges :: Rep(ranges[k].0, ranges[k].1, kv[k]) in reps)
    && (forall r | r in reps :: exists k | k in kv && k in ranges :: r == Rep(ranges[k].0, ranges[k].1, kv[k]))
  }

  /** Splits the updates, in whatever order the map yields them, into replacements of known
      ranges and pairs for keys that have none. */
  method SplitUpdates(kv: Updates, ranges: Ranges) returns (reps: seq<Rep>, added: Updates)
    requires Disjoint(ranges)
    ensures RepsFor(reps, ranges, kv) && Distinct(reps)
    ensures added == Missing(kv, ranges)
  {
    reps := [];
    added := map[];
    var keys := kv.Keys;
    while keys != {}
      invariant keys <= kv.Keys && Distinct(reps)
      invariant Elements(reps) == set k | k in kv.Keys - keys && k in ranges :: Rep(ranges[k].0, ranges[k].1, kv[k])
      invariant added == map k | k in kv.Keys - keys && k !in ranges :: kv[k]
    {
      var k :| k in keys;
      keys := keys - {k};
      if k !in ranges {
        added := added[k := kv[k]];
        continue;
      }
      var rep := Rep(ranges[k].0, ranges[k].1, kv[k]);
      AppendElement(reps, rep);
      reps := reps + [rep];
    }
    forall k | k in kv && k in ranges ensures Rep(ranges[k].0, ranges[k].1, kv[k]) in reps {
      assert Rep(ranges[k].0, ranges[k].1, kv[k]) in Elements(reps);
    }
    forall r | r in reps ensures exists k | k in kv && k in ranges :: r == Rep(ranges[k].0, ranges[k].1, kv[k]) {
      assert r in Elements(reps);
    }
  }

  /** Outside the replaced ranges the data is copied. */
  lemma {:induction false} PatchCopy(data: Bytes, i: nat, j: nat, edits: Edits)
    requires i <= j <= |data| && forall s | s in edits :: s < i || j <= s
    ensures Patch(data, i, edits) == data[i..j] + Patch(data, j, edits)
    decreases j - i
  {
    if i == j {
      assert data[i..j] == "";
    } else {
      PatchCopy(data, i + 1, j, edits);
      assert data[i..j] == [data[i]] + data[i + 1..j];
      Prepend(data[i], data[i + 1..j], Patch(data, j, edits));
    }
  }

  lemma Prepend(c: byte, s: Bytes, t: Bytes)
    ensures ([c] + s) + t == [c] + (s + t)
  {
  }

  ghost predicate Sorted(reps: seq<Rep>) {
    forall i, j | 0 <= i < j < |reps| :: reps[j].end <= reps[i].start
  }

  /** Where the part of the text that is already final begins after `n` splices. */
  function Done(raw: Bytes, reps: seq<Rep>, n: nat): nat
    requires n <= |reps|
  {
    if n == 0 then |raw| else reps[n - 1].start
  }

  /** The splices of the source, right to left, leave the positions to the left alone. */
  method SpliceAll(raw: Bytes, reps: seq<Rep>, ghost edits: Edits) returns (out: Bytes)
    requires Sorted(reps) && forall i | 0 <= i < |reps| :: reps[i].start < reps[i].end <= |raw|
    requires forall i | 0 <= i < |reps| :: reps[i].start in edits &&
               edits[reps[i].start] == (reps[i].end, EncodeJsonString(reps[i].val))
    requires forall s | s in edits :: exists i | 0 <= i < |reps| :: reps[i].start == s
    ensures out == Patch(raw, 0, edits)
  {
    hide EncodeJsonString;
    out := raw;
    for n := 0 to |reps|
      invariant Done(raw, reps, n) <= |raw|
      invariant out == raw[..Done(raw, reps, n)] + Patch(raw, Done(raw, reps, n), edits)
    {
      var r := reps[n];
      var encoded := EncodeJsonString(r.val);
      SpliceStep(raw, reps, n, edits, out);
      var buf := out[..r.start];
      buf := buf + encoded;
      buf := buf + out[r.end..];
      out := buf;
    }
    SpliceRest(raw, reps, edits);
  }

  lemma SpliceStep(raw: Bytes, reps: seq<Rep>, n: nat, edits: Edits, out: Bytes)
    requires n < |reps| && Sorted(reps) && forall i | 0 <= i < |reps| :: reps[i].start < reps[i].end <= |raw|
    requires forall i | 0 <= i < |reps| :: reps[i].start in edits &&
               edits[reps[i].start] == (reps[i].end, EncodeJsonString(reps[i].val))
    requires forall s | s in edits :: exists i | 0 <= i < |reps| :: reps[i].start == s
    requires out == raw[..Done(raw, reps, n)] + Patch(raw, Done(raw, reps, n), edits)
    ensures reps[n].start <= reps[n].end <= |out|
    ensures out[..reps[n].start] + EncodeJsonString(reps[n].val) + out[reps[n].end..] ==
            raw[..reps[n].start] + Patch(raw, reps[n].start, edits)
  {
    hide EncodeJsonString;
    var p := Done(raw, reps, n);
    var r := reps[n];
    forall s | s in edits ensures s < r.end || p <= s {
      var i :| 0 <= i < |reps| && reps[i].start == s;
      if i < n - 1 { assert reps[n - 1].end <= reps[i].start; }
      if i > n { assert reps[i].end <= reps[n].start; }
    }
    PatchCopy(raw, r.end, p, edits);
    assert Patch(raw, r.start, edits) == EncodeJsonString(r.val) + Patch(raw, r.end, edits);
    assert out[..r.start] == raw[..r.start];
    assert out[r.end..] == raw[r.end..p] + Patch(raw, p, edits);
  }

  lemma SpliceRest(raw: Bytes, reps: seq<Rep>, edits: Edits)
    requires Sorted(reps) && forall i | 0 <= i < |reps| :: reps[i].start < reps[i].end <= |raw|
    requires forall s | s in edits :: exists i | 0 <= i < |reps| :: reps[i].start == s
    ensures Done(raw, reps, |reps|) <= |raw|
    ensures raw[..Done(raw, reps, |reps|)] + Patch(raw, Done(raw, reps, |reps|), edits) == Patch(raw, 0, edits)
  {
    var p := Done(raw, reps, |reps|);
    forall s | s in edits ensures s < 0 || p <= s {
      var i :| 0 <= i < |reps| && reps[i].start == s;
      if i < |reps| - 1 { assert reps[|reps| - 1].end <= reps[i].start; }
    }
    PatchCopy(raw, 0, p, edits);
    assert raw[0..p] == raw[..p];
  }

  /** Replacements with different ranges, once sorted, can be spliced right to left. */
  lemma SortedReps(reps: seq<Rep>, raw: Bytes, ranges: Ranges, kv: Updates)
    requires Disjoint(ranges) && Below(ranges, |raw|) && RepsFor(reps, ranges, kv) && SortedBy(reps, StartsLater)
    ensures Sorted(reps) && forall i | 0 <= i < |reps| :: reps[i].start < reps[i].end <= |raw|
    ensures var edits := EditsFor(ranges, kv);
            && (forall i | 0 <= i < |reps| :: reps[i].start in edits &&
                  edits[reps[i].start] == (reps[i].end, EncodeJsonString(reps[i].val)))
            && (forall s | s in edits :: exists i | 0 <= i < |reps| :: reps[i].start == s)
  {
    hide EncodeJsonString;
    var edits := EditsFor(ranges, kv);
    forall i | 0 <= i < |reps|
      ensures reps[i].start < reps[i].end <= |raw| && reps[i].start in edits
      ensures edits[reps[i].start] == (reps[i].end, EncodeJsonString(reps[i].val))
    {
      assert reps[i] in reps;
    }
    forall i, j | 0 <= i < j < |reps| ensures reps[j].end <= reps[i].start {
      assert StartsLater(reps[i], reps[j]);
      assert reps[i] in reps && reps[j] in reps;
    }
    forall s | s in edits ensures exists i | 0 <= i < |reps| :: reps[i].start == s {
      var k :| k in kv && k in ranges && ranges[k].0 == s;
      assert Rep(ranges[k].0, ranges[k].1, kv[k]) in reps;
    }
  }

  lemma RepsOrdered(reps: seq<Rep>, ranges: Ranges, kv: Updates)
    requires Disjoint(ranges) && RepsFor(reps, ranges, kv)
    ensures Orders(StartsLater, Elements(reps))
  {
    forall x, y | x in Elements(reps) && y in Elements(reps) && x != y
      ensures StartsLater(x, y) || StartsLater(y, x)
    {
      assert x in reps && y in reps;
    }
  }

  method ReplaceRanges(raw: Bytes, reps: seq<Rep>, ghost ranges: Ranges, ghost kv: Updates) returns (out: Bytes)
    requires Disjoint(ranges) && Below(ranges, |raw|) && RepsFor(reps, ranges, kv) && Distinct(reps)
    ensures out == Patch(raw, 0, EditsFor(ranges, kv))
  {
    RepsOrdered(reps, ranges, kv);
    var sorted := Sort(reps, StartsLater);
    forall r ensures r in sorted <==> r in reps {
      assert r in Elements(sorted) <==> r in Elements(reps);
    }
    SortedReps(sorted, raw, ranges, kv);
    out := SpliceAll(raw, sorted, EditsFor(ranges, kv));
  }

  method ApplySlugUpdates(raw: Bytes, slug: Bytes, kv: Updates) returns (r: Result<Bytes, EditError>)
    ensures r == Apply(raw, slug, kv)
  {
    hide FindSlug, Scan, Insert, Patch, SortedPairs, EditsFor, Disjoint, Below, RepsFor, Distinct;
    if kv == map[] {
      return Ok(raw);
    }
    var slugStart := FindSlugBlock(raw, slug);
    if slugStart == None {
      var pairs := CollectPairs(kv);
      r := InsertPageKeys(raw, slug, pairs);
      return;
    }
    var ranges := ScanLeafStringRanges(raw, slugStart.value);
    if ranges.Err? {
      return Err(ScanFailed(ranges.error));
    }
    ScanDisjoint(raw, slugStart.value);
    var reps, added := SplitUpdates(kv, ranges.value);
    var out := ReplaceRanges(raw, reps, ranges.value, kv);
    if added != map[] {
      var newPairs := CollectPairs(added);
      r := InsertPageKeys(out, slug, newPairs);
      return;
    }
    return Ok(out);
  }
}
