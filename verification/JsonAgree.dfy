/** The scanners agree with the grammar: started at a token, array or object of a
    well-formed text they land on its true end. */
module JsonAgree {
  import opened Wrappers
  import opened Bytes
  import opened JsonGrammar
  import opened JsonScan
  import JsonStrings

  predicate IsDelimiter(c: byte) {
    c == '"' || c == '{' || c == '}' || c == '[' || c == ']'
  }

  predicate Plain(s: Bytes) {
    forall k | 0 <= k < |s| :: !IsDelimiter(s[k])
  }

  /** The scanners' white space is that of section 2 of RFC 8259, by its code points. */
  lemma WhiteSpaceIff(c: byte)
    ensures IsWs(c) <==> c as int == 0x20 || c as int == 0x09 || c as int == 0x0A || c as int == 0x0D
  {
  }

  // ---------------------------------------------------------------- taking texts apart

  lemma NameParts(data: Bytes, i: nat, n: Name)
    requires n.Name? && At(data, i, NameText(n))
    ensures At(data, i, Quoted(n.key))
    ensures At(data, i + |Quoted(n.key)|, n.before)
    ensures At(data, i + |Quoted(n.key)| + |n.before|, ":")
    ensures At(data, i + |Quoted(n.key)| + |n.before| + 1, n.after)
    ensures |NameText(n)| == |Quoted(n.key)| + |n.before| + 1 + |n.after|
  {
    AtSplit(data, i, Quoted(n.key), n.before + (":" + n.after));
    AtSplit(data, i + |Quoted(n.key)|, n.before, ":" + n.after);
    AtSplit(data, i + |Quoted(n.key)| + |n.before|, ":", n.after);
  }

  lemma EntryParts(data: Bytes, i: nat, e: Entry)
    requires At(data, i, EntryText(e))
    ensures At(data, i, e.pre)
    ensures At(data, i + |e.pre|, NameText(e.name))
    ensures At(data, i + |e.pre| + |NameText(e.name)|, Text(e.value))
    ensures At(data, i + |e.pre| + |NameText(e.name)| + |Text(e.value)|, e.post)
    ensures |EntryText(e)| == |e.pre| + |NameText(e.name)| + |Text(e.value)| + |e.post|
  {
    AtSplit(data, i, e.pre, NameText(e.name) + (Text(e.value) + e.post));
    AtSplit(data, i + |e.pre|, NameText(e.name), Text(e.value) + e.post);
    AtSplit(data, i + |e.pre| + |NameText(e.name)|, Text(e.value), e.post);
  }

  lemma EntriesParts(data: Bytes, i: nat, es: seq<Entry>)
    requires |es| > 1 && At(data, i, Entries(es))
    ensures At(data, i, EntryText(es[0]))
    ensures At(data, i + |EntryText(es[0])|, ",")
    ensures At(data, i + |EntryText(es[0])| + 1, Entries(es[1..]))
    ensures |Entries(es)| == |EntryText(es[0])| + 1 + |Entries(es[1..])|
  {
    AtSplit(data, i, EntryText(es[0]), "," + Entries(es[1..]));
    AtSplit(data, i + |EntryText(es[0])|, ",", Entries(es[1..]));
  }

  lemma NodeParts(data: Bytes, i: nat, v: Value)
    requires v.Node? && At(data, i, Text(v))
    ensures At(data, i, Open(v.kind)) && data[i] == Open(v.kind)[0]
    ensures At(data, i + 1, Inside(v.pad, v.entries))
    ensures At(data, i + 1 + |Inside(v.pad, v.entries)|, Close(v.kind))
    ensures data[i + 1 + |Inside(v.pad, v.entries)|] == Close(v.kind)[0]
    ensures |Text(v)| == |Inside(v.pad, v.entries)| + 2
  {
    var inside := Inside(v.pad, v.entries);
    AtSplit(data, i, Open(v.kind), inside + Close(v.kind));
    AtSplit(data, i + 1, inside, Close(v.kind));
    AtChar(data, i, Open(v.kind), 0);
    AtChar(data, i + 1 + |inside|, Close(v.kind), 0);
  }

  // ---------------------------------------------------------------- strings

  lemma {:induction false} SkipBodyOver(data: Bytes, i: nat, b: Bytes)
    requires WfBody(b) && At(data, i, b)
    ensures SkipBody(data, i) == SkipBody(data, i + |b|)
    decreases |b|
  {
    if b != "" {
      var n := if b[0] != '\\' then 1 else if b[1] == 'u' then 6 else 2;
      assert b == b[..n] + b[n..];
      AtSplit(data, i, b[..n], b[n..]);
      if n == 6 {
        AtChar(data, i, b, 2);
        AtChar(data, i, b, 3);
        AtChar(data, i, b, 4);
        AtChar(data, i, b, 5);
        assert SkipBody(data, i + 5) == SkipBody(data, i + 6);
        assert SkipBody(data, i + 3) == SkipBody(data, i + 5);
      }
      SkipBodyOver(data, i + n, b[n..]);
    }
  }

  /** A well-formed string token is skipped as one token, whatever follows it. */
  lemma StringToken(data: Bytes, i: nat, body: Bytes)
    requires WfBody(body) && At(data, i, Quoted(body))
    ensures data[i] == '"' && StringEnd(data, i) == i + |Quoted(body)|
    ensures At(data, i + 1, body)
  {
    AtSplit(data, i, "\"" + body, "\"");
    AtSplit(data, i, "\"", body);
    AtChar(data, i, "\"", 0);
    AtChar(data, i + 1 + |body|, "\"", 0);
    SkipBodyOver(data, i + 1, body);
  }

  /** What the encoder prints is one token, whatever bytes it printed and whatever follows. */
  lemma EncodedToken(s: Bytes, rest: Bytes)
    ensures StringEnd(JsonStrings.EncodeJsonString(s) + rest, 0) == |JsonStrings.EncodeJsonString(s)|
  {
    var token := JsonStrings.EncodeJsonString(s);
    JsonStrings.EncodeWf(s);
    AtHere("", token, rest);
    assert "" + token + rest == token + rest;
    StringToken(token + rest, 0, JsonStrings.EncodeBody(s));
  }

  /** Two string tokens at one position are the same token. */
  lemma OneToken(data: Bytes, i: nat, a: Bytes, b: Bytes)
    requires WfBody(a) && WfBody(b) && At(data, i, Quoted(a)) && At(data, i, Quoted(b))
    ensures a == b
  {
    StringToken(data, i, a);
    StringToken(data, i, b);
    AtSlice(data, i + 1, a);
    AtSlice(data, i + 1, b);
  }

  // ---------------------------------------------------------------- white space and atoms

  lemma {:induction false} SkipWsOver(data: Bytes, i: nat, w: Bytes)
    requires AllWs(w) && At(data, i, w)
    ensures SkipWs(data, i) == SkipWs(data, i + |w|)
    decreases w
  {
    if w != "" {
      SkipWsOver(data, i + 1, w[1..]);
    }
  }

  lemma AtomPlain(t: Bytes)
    requires WfAtom(t)
    ensures Plain(t) && t != "" && forall k | 0 <= k < |t| :: !IsWs(t[k]) && t[k] != ',' && t[k] != ':'
  {
    AtomChars(t);
  }

  // ---------------------------------------------------------------- matchBrace and skipArray

  lemma {:induction false} CloserPlain(data: Bytes, i: nat, s: Bytes, kind: Kind, depth: int)
    requires Plain(s) && At(data, i, s)
    ensures Closer(data, i, kind, depth) == Closer(data, i + |s|, kind, depth)
    decreases s
  {
    if s != "" {
      CloserPlain(data, i + 1, s[1..], kind, depth);
    }
  }

  lemma CloserName(data: Bytes, i: nat, own: Kind, n: Name, kind: Kind, depth: int)
    requires WfName(own, n) && At(data, i, NameText(n))
    ensures Closer(data, i, kind, depth) == Closer(data, i + |NameText(n)|, kind, depth)
  {
    if n.Name? {
      NameParts(data, i, n);
      StringToken(data, i, n.key);
      CloserPlain(data, i + |Quoted(n.key)|, n.before, kind, depth);
      CloserPlain(data, i + |Quoted(n.key)| + |n.before|, ":", kind, depth);
      CloserPlain(data, i + |Quoted(n.key)| + |n.before| + 1, n.after, kind, depth);
    }
  }

  lemma {:induction false} CloserEntries(data: Bytes, i: nat, own: Kind, es: seq<Entry>, kind: Kind, depth: int)
    requires WfEntries(own, es) && At(data, i, Entries(es)) && depth >= 1
    ensures Closer(data, i, kind, depth) == Closer(data, i + |Entries(es)|, kind, depth)
    decreases es
  {
    hide Closer, At, EntryText, WfEntry, StringEnd;
    if es != [] {
      var n := |EntryText(es[0])|;
      if |es| > 1 { EntriesParts(data, i, es); }
      CloserEntry(data, i, own, es[0], kind, depth);
      if |es| > 1 {
        CloserPlain(data, i + n, ",", kind, depth);
        CloserEntries(data, i + n + 1, own, es[1..], kind, depth);
      }
    }
  }

  lemma {:induction false} CloserEntry(data: Bytes, i: nat, own: Kind, e: Entry, kind: Kind, depth: int)
    requires WfEntry(own, e) && At(data, i, EntryText(e)) && depth >= 1
    ensures Closer(data, i, kind, depth) == Closer(data, i + |EntryText(e)|, kind, depth)
    decreases e
  {
    hide Closer, At, Text, NameText, Wf, WfName, StringEnd;
    EntryParts(data, i, e);
    CloserPlain(data, i, e.pre, kind, depth);
    var name := i + |e.pre|;
    CloserName(data, name, own, e.name, kind, depth);
    var value := name + |NameText(e.name)|;
    CloserValue(data, value, e.value, kind, depth);
    var post := value + |Text(e.value)|;
    CloserPlain(data, post, e.post, kind, depth);
  }

  lemma {:induction false} CloserInside(data: Bytes, i: nat, v: Value, kind: Kind, depth: int)
    requires v.Node? && Wf(v) && At(data, i, Inside(v.pad, v.entries)) && depth >= 1
    ensures Closer(data, i, kind, depth) == Closer(data, i + |Inside(v.pad, v.entries)|, kind, depth)
    decreases v, 0
  {
    if v.entries == [] {
      CloserPlain(data, i, v.pad, kind, depth);
    } else {
      CloserEntries(data, i, v.kind, v.entries, kind, depth);
    }
  }

  lemma {:induction false} CloserValue(data: Bytes, i: nat, v: Value, kind: Kind, depth: int)
    requires Wf(v) && At(data, i, Text(v)) && depth >= 1
    ensures Closer(data, i, kind, depth) == Closer(data, i + |Text(v)|, kind, depth)
    decreases v, 1
  {
    hide At, StringEnd, WfAtom, WfBody;
    match v
    case Str(body) =>
      StringToken(data, i, body);
    case Atom(text) =>
      AtomPlain(text);
      CloserPlain(data, i, text, kind, depth);
    case Node(own, pad, entries) =>
      NodeParts(data, i, v);
      CloserInside(data, i + 1, v, kind, if own == kind then depth + 1 else depth);
  }

  /** `matchBrace` on a well-formed object, and the search in `skipArray` on a well-formed
      array, find its own closing delimiter. */
  lemma CloserOfNode(data: Bytes, i: nat, v: Value)
    requires v.Node? && Wf(v) && At(data, i, Text(v))
    ensures Closer(data, i, v.kind, 0) == Some(i + |Text(v)| - 1)
    ensures v.kind == Object ==> BraceMatch(data, i) == Some(i + |Text(v)| - 1)
    ensures v.kind == Array ==> ArrayEnd(data, i) == i + |Text(v)|
  {
    NodeParts(data, i, v);
    CloserInside(data, i + 1, v, v.kind, 1);
    assert Closer(data, i, v.kind, 0) == Closer(data, i + 1, v.kind, 1);
  }

  // ---------------------------------------------------------------- findKeyObjectOpen

  predicate IsObject(v: Value) { v.Node? && v.kind == Object }

  /** Where, inside the text of `v`, the first block named `key` opens, in document order. */
  function FirstBlock(v: Value, key: Bytes): (r: Option<nat>)
    decreases v
  {
    if v.Node? then Shift(1, FirstOfEntries(v.entries, key)) else None
  }

  function FirstOfEntry(e: Entry, key: Bytes): Option<nat>
    decreases e
  {
    var value := |e.pre| + |NameText(e.name)|;
    if e.name.Name? && e.name.key == key && IsObject(e.value) then Some(value)
    else Shift(value, FirstBlock(e.value, key))
  }

  function FirstOfEntries(es: seq<Entry>, key: Bytes): Option<nat>
    decreases es
  {
    if es == [] then None
    else
      var here := FirstOfEntry(es[0], key);
      if here.Some? then here else Shift(|EntryText(es[0])| + 1, FirstOfEntries(es[1..], key))
  }

  function Shift(n: nat, offset: Option<nat>): Option<nat> {
    if offset.Some? then Some(n + offset.value) else None
  }

  /** `FindKey` from `i`, when `offset` is the first block in the `n` characters after `i`. */
  function Found(data: Bytes, i: nat, n: nat, offset: Option<nat>, key: Bytes): Option<nat> {
    if offset.Some? then Some(i + offset.value) else FindKey(data, i + n, key)
  }

  /** The text goes on with the end of an entry, not with a colon. */
  predicate Ends(data: Bytes, i: nat) {
    i >= |data| || data[i] == ',' || data[i] == '}' || data[i] == ']'
  }

  /** The first character of a value tells its kind. */
  lemma ValueHead(data: Bytes, i: nat, v: Value)
    requires Wf(v) && At(data, i, Text(v))
    ensures i < |data| && Text(v) != "" && !IsWs(data[i])
    ensures data[i] == '{' <==> IsObject(v)
    ensures data[i] == '[' <==> v.Node? && !IsObject(v)
    ensures data[i] == '"' <==> v.Str?
    ensures data[i] != ',' && data[i] != '}' && data[i] != ':'
  {
    hide At, WfAtom, WfBody, Closer;
    match v
    case Str(body) => StringToken(data, i, body);
    case Atom(text) =>
      AtomPlain(text);
      AtChar(data, i, text, 0);
    case Node(_, _, _) => NodeParts(data, i, v);
  }

  lemma {:induction false} FindPlain(data: Bytes, i: nat, s: Bytes, key: Bytes)
    requires Plain(s) && At(data, i, s)
    ensures FindKey(data, i, key) == FindKey(data, i + |s|, key)
    decreases s
  {
    hide BlockAt;
    if s != "" {
      FindPlain(data, i + 1, s[1..], key);
    }
  }

  /** Where a member's name stands, there is a block named `key` iff it is the name of an
      object and equals `key`. */
  lemma BlockAtName(data: Bytes, i: nat, n: Name, v: Value, key: Bytes)
    requires n.Name? && WfName(Object, n) && Wf(v) && WfBody(key)
    requires At(data, i, NameText(n)) && At(data, i + |NameText(n)|, Text(v))
    ensures BlockAt(data, i, key) == if n.key == key && IsObject(v) then Some(i + |NameText(n)|) else None
  {
    hide At, NameText, WfBody, Wf, Text, SkipWs, Quoted, StringEnd;
    NameParts(data, i, n);
    if At(data, i, Quoted(key)) {
      OneToken(data, i, key, n.key);
      var before := i + |Quoted(n.key)|;
      var colon := before + |n.before|;
      SkipWsOver(data, before, n.before);
      AtChar(data, colon, ":", 0);
      SkipWsStop(data, colon);
      SkipWsOver(data, colon + 1, n.after);
      ValueHead(data, i + |NameText(n)|, v);
      SkipWsStop(data, i + |NameText(n)|);
    }
  }

  lemma SkipWsStop(data: Bytes, i: nat)
    requires i < |data| && !IsWs(data[i])
    ensures SkipWs(data, i) == i
  {
  }

  /** Where a string value stands, there is no block: no colon follows it. */
  lemma BlockAtString(data: Bytes, i: nat, body: Bytes, post: Bytes, key: Bytes)
    requires WfBody(body) && WfBody(key) && AllWs(post)
    requires At(data, i, Quoted(body)) && At(data, i + |Quoted(body)|, post)
    requires Ends(data, i + |Quoted(body)| + |post|)
    ensures BlockAt(data, i, key) == None
  {
    hide At, WfBody, SkipWs, Quoted, StringEnd;
    if At(data, i, Quoted(key)) {
      OneToken(data, i, key, body);
      var end := i + |Quoted(body)| + |post|;
      SkipWsOver(data, i + |Quoted(body)|, post);
      if end < |data| { SkipWsStop(data, end); }
    }
  }

  lemma {:induction false} FindValue(data: Bytes, i: nat, v: Value, post: Bytes, key: Bytes)
    requires Wf(v) && WfBody(key) && At(data, i, Text(v))
    requires AllWs(post) && At(data, i + |Text(v)|, post) && Ends(data, i + |Text(v)| + |post|)
    ensures FindKey(data, i, key) == Found(data, i, |Text(v)|, FirstBlock(v, key), key)
    decreases v
  {
    hide At, WfAtom, WfBody, StringEnd, BlockAt, FirstOfEntries, WfEntries, Quoted, Entries;
    match v
    case Str(body) =>
      StringToken(data, i, body);
      BlockAtString(data, i, body, post, key);
    case Atom(text) =>
      AtomPlain(text);
      FindPlain(data, i, text, key);
    case Node(kind, pad, entries) =>
      NodeParts(data, i, v);
      if entries == [] {
        FindPlain(data, i + 1, pad, key);
        assert FirstOfEntries(entries, key) == None by { NoEntries(key); }
      } else {
        FindEntries(data, i + 1, kind, entries, key);
      }
  }

  lemma NoEntries(key: Bytes)
    ensures FirstOfEntries([], key) == None
  {
  }

  /** A member's name is passed over unless it names the block searched for. */
  lemma FindName(data: Bytes, i: nat, n: Name, v: Value, key: Bytes)
    requires n.Name? && WfName(Object, n) && Wf(v) && WfBody(key)
    requires At(data, i, NameText(n)) && At(data, i + |NameText(n)|, Text(v))
    ensures FindKey(data, i, key) ==
            if n.key == key && IsObject(v) then Some(i + |NameText(n)|) else FindKey(data, i + |NameText(n)|, key)
  {
    hide At, Text, NameText, Wf, WfBody, StringEnd, BlockAt, Quoted;
    NameParts(data, i, n);
    StringToken(data, i, n.key);
    BlockAtName(data, i, n, v, key);
    var before := i + |Quoted(n.key)|;
    FindPlain(data, before, n.before, key);
    FindPlain(data, before + |n.before|, ":", key);
    FindPlain(data, before + |n.before| + 1, n.after, key);
  }

  lemma {:induction false} FindEntry(data: Bytes, i: nat, own: Kind, e: Entry, key: Bytes)
    requires WfEntry(own, e) && WfBody(key) && At(data, i, EntryText(e)) && Ends(data, i + |EntryText(e)|)
    ensures FindKey(data, i, key) == Found(data, i, |EntryText(e)|, FirstOfEntry(e, key), key)
    decreases e
  {
    hide At, Text, Quoted, Wf, WfBody, FirstBlock, FindKey;
    EntryParts(data, i, e);
    FindPlain(data, i, e.pre, key);
    var name := i + |e.pre|;
    var value := name + |NameText(e.name)|;
    if e.name.Name? {
      FindName(data, name, e.name, e.value, key);
    }
    FindValue(data, value, e.value, e.post, key);
    FindPlain(data, value + |Text(e.value)|, e.post, key);
  }

  /** `findKeyObjectOpen` over the entries of an object or array: it stops at the first
      block named `key` in document order, and passes over them when there is none. */
  lemma {:induction false} FindEntries(data: Bytes, i: nat, own: Kind, es: seq<Entry>, key: Bytes)
    requires WfEntries(own, es) && WfBody(key) && At(data, i, Entries(es)) && Ends(data, i + |Entries(es)|)
    ensures FindKey(data, i, key) == Found(data, i, |Entries(es)|, FirstOfEntries(es, key), key)
    decreases es
  {
    hide At, EntryText, WfEntry, WfBody, StringEnd, FirstOfEntry, BlockAt;
    if es != [] {
      var n := |EntryText(es[0])|;
      if |es| > 1 {
        EntriesParts(data, i, es);
        AtChar(data, i + n, ",", 0);
      }
      FindEntry(data, i, own, es[0], key);
      if |es| > 1 {
        FindPlain(data, i + n, ",", key);
        FindEntries(data, i + n + 1, own, es[1..], key);
      } else {
        NoEntries(key);
      }
    }
  }

  // ---------------------------------------------------------------- scanLeafStringRanges

  /** `acc` with the range of `e`, standing at `i`, if its value is a string. */
  function AddRange(e: Entry, i: nat, acc: Ranges): Ranges {
    if e.name.Name? && e.value.Str? then
      var v := i + |e.pre| + |NameText(e.name)|;
      acc[e.name.key := (v, v + |Text(e.value)|)]
    else acc
  }

  /** The ranges of the string members among `es`, standing at `i`; a later member wins. */
  function AddRanges(es: seq<Entry>, i: nat, acc: Ranges): Ranges {
    if es == [] then acc
    else AddRanges(es[1..], i + |EntryText(es[0])| + 1, AddRange(es[0], i, acc))
  }

  lemma ScanWs(data: Bytes, i: nat, w: Bytes, acc: Ranges)
    requires AllWs(w) && At(data, i, w)
    ensures ScanFrom(data, i, acc) == ScanFrom(data, i + |w|, acc)
  {
    hide At, MemberAt;
    SkipWsOver(data, i, w);
  }

  lemma {:induction false} SkipAtomOver(data: Bytes, i: nat, s: Bytes)
    requires At(data, i, s) && forall k | 0 <= k < |s| :: s[k] != ',' && s[k] != '}'
    ensures SkipAtom(data, i) == SkipAtom(data, i + |s|)
    decreases s
  {
    if s != "" {
      SkipAtomOver(data, i + 1, s[1..]);
    }
  }

  /** The value of a member: after it and its white space the scan is at its end. */
  lemma ScanValue(data: Bytes, i: nat, v: Value, post: Bytes, key: Bytes, acc: Ranges)
    requires Wf(v) && At(data, i, Text(v)) && AllWs(post) && At(data, i + |Text(v)|, post)
    requires i + |Text(v)| + |post| < |data|
    requires var c := data[i + |Text(v)| + |post|]; c == ',' || c == '}'
    ensures i < |data| && ValueAt(data, key, i, acc).Ok?
    ensures var (ranges, next) := ValueAt(data, key, i, acc).value;
            ranges == (if v.Str? then acc[key := (i, i + |Text(v)|)] else acc) &&
            ScanFrom(data, next, ranges) == ScanFrom(data, i + |Text(v)| + |post|, ranges)
  {
    hide At, WfAtom, WfBody, StringEnd, BraceMatch, ArrayEnd, ScanFrom, WfEntries;
    ValueHead(data, i, v);
    var end := i + |Text(v)|;
    match v
    case Str(body) =>
      StringToken(data, i, body);
      ScanWs(data, end, post, acc[key := (i, end)]);
    case Atom(text) =>
      AtomPlain(text);
      SkipAtomOver(data, i, text);
      SkipAtomOver(data, end, post);
    case Node(kind, _, _) =>
      CloserOfNode(data, i, v);
      ScanWs(data, end, post, acc);
  }

  lemma ScanName(data: Bytes, at: nat, n: Name, value: Value, acc: Ranges)
    requires n.Name? && WfName(Object, n) && Wf(value)
    requires At(data, at, NameText(n)) && At(data, at + |NameText(n)|, Text(value))
    ensures data[at] == '"' && at + |NameText(n)| < |data|
    ensures MemberAt(data, at, acc) == ValueAt(data, n.key, at + |NameText(n)|, acc)
  {
    hide At, Wf, Text, NameText, WfBody, SkipWs, ValueAt, StringEnd;
    NameParts(data, at, n);
    StringToken(data, at, n.key);
    AtSlice(data, at + 1, n.key);
    var before := at + |Quoted(n.key)|;
    SkipWsOver(data, before, n.before);
    var colon := before + |n.before|;
    AtChar(data, colon, ":", 0);
    SkipWsStop(data, colon);
    SkipWsOver(data, colon + 1, n.after);
    ValueHead(data, at + |NameText(n)|, value);
    SkipWsStop(data, at + |NameText(n)|);
  }

  lemma ScanEntry(data: Bytes, i: nat, e: Entry, acc: Ranges)
    requires WfEntry(Object, e) && At(data, i, EntryText(e))
    requires i + |EntryText(e)| < |data|
    requires var c := data[i + |EntryText(e)|]; c == ',' || c == '}'
    ensures ScanFrom(data, i, acc) == ScanFrom(data, i + |EntryText(e)|, AddRange(e, i, acc))
  {
    hide At, Wf, Text, EntryText, NameText, WfBody, SkipWs, ValueAt, MemberAt;
    EntryParts(data, i, e);
    ScanWs(data, i, e.pre, acc);
    var at := i + |e.pre|;
    var v := at + |NameText(e.name)|;
    ScanName(data, at, e.name, e.value, acc);
    SkipWsStop(data, at);
    ScanValue(data, v, e.value, e.post, e.name.key, acc);
  }

  lemma {:induction false} ScanEntries(data: Bytes, i: nat, es: seq<Entry>, acc: Ranges)
    requires es != [] && WfEntries(Object, es) && At(data, i, Entries(es))
    requires i + |Entries(es)| < |data| && data[i + |Entries(es)|] == '}'
    ensures ScanFrom(data, i, acc) == Ok(AddRanges(es, i, acc))
    decreases es
  {
    hide At, EntryText, WfEntry, SkipWs, MemberAt, AddRange;
    var n := |EntryText(es[0])|;
    var acc' := AddRange(es[0], i, acc);
    if |es| > 1 {
      EntriesParts(data, i, es);
      AtChar(data, i + n, ",", 0);
      SkipWsStop(data, i + n);
      ScanEntry(data, i, es[0], acc);
      ScanEntries(data, i + n + 1, es[1..], acc');
    } else {
      ScanEntry(data, i, es[0], acc);
      SkipWsStop(data, i + n);
      assert AddRanges(es[1..], i + n + 1, acc') == acc';
    }
  }

  /** `scanLeafStringRanges` on a well-formed object: exactly the top-level members whose
      value is a string, each with the range of its last occurrence. */
  lemma ScanObject(data: Bytes, i: nat, v: Value)
    requires IsObject(v) && Wf(v) && At(data, i, Text(v))
    ensures Scan(data, i) == Ok(AddRanges(v.entries, i + 1, map[]))
  {
    hide At, WfEntries, MemberAt, SkipWs, Text, Entries, AddRange;
    NodeParts(data, i, v);
    var close := i + 1 + |Inside(v.pad, v.entries)|;
    if v.entries == [] {
      ScanWs(data, i + 1, v.pad, map[]);
      SkipWsStop(data, close);
    } else {
      ScanEntries(data, i + 1, v.entries, map[]);
    }
  }
}
