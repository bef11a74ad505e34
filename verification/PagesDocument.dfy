/** A language file as a syntax tree, the place of `pages` and of one slug block in it, and
    what insertion does there. */
module PagesDocument {
  import opened Wrappers
  import opened Bytes
  import opened JsonGrammar
  import opened JsonScan
  import opened JsonStrings
  import opened JsonAgree
  import opened PagesEdit

  datatype Document = Document(lead: Bytes, root: Value, trail: Bytes)

  function DocText(d: Document): Bytes {
    d.lead + (Text(d.root) + d.trail)
  }

  predicate WfDoc(d: Document) {
    AllWs(d.lead) && AllWs(d.trail) && Wf(d.root) && IsObject(d.root)
  }

  // ---------------------------------------------------------------- one entry among others

  /** The text of `es` up to the value of entry `k`. */
  function Before(es: seq<Entry>, k: nat): Bytes
    requires k < |es|
    decreases k
  {
    if k == 0 then es[0].pre + NameText(es[0].name)
    else EntryText(es[0]) + ("," + Before(es[1..], k - 1))
  }

  /** The text of `es` after the value of entry `k`. */
  function After(es: seq<Entry>, k: nat): Bytes
    requires k < |es|
  {
    es[k].post + (if k + 1 < |es| then "," + Entries(es[k + 1..]) else "")
  }

  function SetValue(es: seq<Entry>, k: nat, v: Value): seq<Entry>
    requires k < |es|
  {
    es[k := es[k].(value := v)]
  }

  lemma {:induction false} EntriesAround(es: seq<Entry>, k: nat)
    requires k < |es|
    ensures Entries(es) == Before(es, k) + (Text(es[k].value) + After(es, k))
    decreases k
  {
    hide Text, NameText;
    if k > 0 {
      EntriesAround(es[1..], k - 1);
      assert es[1..][k..] == es[k + 1..];
      assert After(es[1..], k - 1) == After(es, k);
      Regroup(EntryText(es[0]), ",", Before(es[1..], k - 1), Text(es[k].value) + After(es, k));
    } else {
      var rest := if 1 < |es| then "," + Entries(es[1..]) else "";
      assert Entries(es) == EntryText(es[0]) + rest;
      RegroupEntry(es[0].pre, NameText(es[0].name), Text(es[0].value), es[0].post, rest);
    }
  }

  lemma Regroup(a: Bytes, b: Bytes, c: Bytes, d: Bytes)
    ensures a + (b + (c + d)) == (a + (b + c)) + d
  {
  }

  lemma RegroupEntry(a: Bytes, b: Bytes, c: Bytes, d: Bytes, e: Bytes)
    ensures (a + (b + (c + d))) + e == (a + b) + (c + (d + e))
  {
  }

  lemma {:induction false} SetValueAround(es: seq<Entry>, k: nat, v: Value)
    requires k < |es|
    ensures Before(SetValue(es, k, v), k) == Before(es, k)
    ensures After(SetValue(es, k, v), k) == After(es, k)
    decreases k
  {
    hide EntryText, NameText;
    var es' := SetValue(es, k, v);
    assert es'[k + 1..] == es[k + 1..];
    if k > 0 {
      assert es'[1..] == SetValue(es[1..], k - 1, v);
      SetValueAround(es[1..], k - 1, v);
    }
  }

  /** The text around entry `k` of an object that itself stands between `left` and `right`. */
  function Left(left: Bytes, es: seq<Entry>, k: nat): Bytes
    requires k < |es|
  {
    left + ("{" + Before(es, k))
  }

  function Right(right: Bytes, es: seq<Entry>, k: nat): Bytes
    requires k < |es|
  {
    After(es, k) + ("}" + right)
  }

  /** An object with the value of entry `k` set to `v`: only the text of that value changes. */
  lemma Hole(left: Bytes, o: Value, k: nat, v: Value, right: Bytes)
    requires IsObject(o) && k < |o.entries|
    ensures left + (Text(o.(entries := SetValue(o.entries, k, v))) + right) ==
            Left(left, o.entries, k) + (Text(v) + Right(right, o.entries, k))
  {
    hide Entries, Before, After;
    var es := SetValue(o.entries, k, v);
    EntriesAround(es, k);
    SetValueAround(o.entries, k, v);
    RegroupHole(left, Before(es, k), Text(v), After(es, k), right);
  }

  lemma RegroupHole(left: Bytes, b: Bytes, t: Bytes, a: Bytes, right: Bytes)
    ensures left + (("{" + ((b + (t + a)) + "}")) + right) == (left + ("{" + b)) + (t + (a + ("}" + right)))
  {
  }

  lemma SameValue(es: seq<Entry>, k: nat)
    requires k < |es|
    ensures SetValue(es, k, es[k].value) == es
  {
  }

  lemma WfSetValue(kind: Kind, es: seq<Entry>, k: nat, v: Value)
    requires WfEntries(kind, es) && k < |es| && Wf(v)
    ensures WfEntries(kind, SetValue(es, k, v))
  {
    WfEntriesFrom(kind, SetValue(es, k, v));
  }

  // ---------------------------------------------------------------- finding an entry's block

  /** Entry `k` is the first block named `key` in document order. */
  predicate IsFirst(es: seq<Entry>, k: nat, key: Bytes) {
    && k < |es| && es[k].name.Name? && es[k].name.key == key && IsObject(es[k].value)
    && forall j | 0 <= j < k :: FirstOfEntry(es[j], key) == None
  }

  lemma FirstHere(es: seq<Entry>, key: Bytes)
    requires IsFirst(es, 0, key)
    ensures FirstOfEntries(es, key) == Some(|Before(es, 0)|)
  {
    hide NameText;
  }

  lemma BeforeLength(es: seq<Entry>, k: nat)
    requires 0 < k < |es|
    ensures |Before(es, k)| == |EntryText(es[0])| + 1 + |Before(es[1..], k - 1)|
  {
    hide EntryText;
  }

  lemma FirstOfRest(es: seq<Entry>, key: Bytes)
    requires es != [] && FirstOfEntry(es[0], key) == None
    ensures FirstOfEntries(es, key) == Shift(|EntryText(es[0])| + 1, FirstOfEntries(es[1..], key))
  {
    hide EntryText, FirstOfEntry;
  }

  lemma {:induction false} FirstIsFirst(es: seq<Entry>, k: nat, key: Bytes)
    requires IsFirst(es, k, key)
    ensures FirstOfEntries(es, key) == Some(|Before(es, k)|)
    decreases k
  {
    hide EntryText, NameText, FirstOfEntry, IsObject, FirstOfEntries, Before;
    if k == 0 {
      FirstHere(es, key);
    } else {
      assert IsFirst(es[1..], k - 1, key);
      FirstIsFirst(es[1..], k - 1, key);
      FirstOfRest(es, key);
      BeforeLength(es, k);
    }
  }

  lemma {:induction false} NoneInEntries(es: seq<Entry>, key: Bytes)
    requires FirstOfEntries(es, key) == None
    ensures forall j | 0 <= j < |es| :: FirstOfEntry(es[j], key) == None
    decreases es
  {
    hide EntryText, FirstOfEntry;
    if es != [] { NoneInEntries(es[1..], key); }
  }

  /** The search lands on the block of entry `k`. */
  lemma FindsFirst(data: Bytes, i: nat, es: seq<Entry>, k: nat, key: Bytes)
    requires WfEntries(Object, es) && IsFirst(es, k, key) && WfBody(key)
    requires At(data, i, Entries(es)) && Ends(data, i + |Entries(es)|)
    ensures FindKey(data, i, key) == Some(i + |Before(es, k)|)
  {
    hide At, Entries, WfEntries, FirstOfEntries, Before, WfBody, FindKey;
    FirstIsFirst(es, k, key);
    FindEntries(data, i, Object, es, key);
  }

  // ---------------------------------------------------------------- inserting entries

  function PairEntry(p: Pair, last: bool): Entry {
    Entry("\n      ", Name(p.key, "", " "), Str(EncodeBody(p.value)), if last then "\n    " else "")
  }

  /** The members `insertPageKeys` writes for `pairs`, from index `i` on. */
  function PairEntries(pairs: seq<Pair>, i: nat): seq<Entry>
    requires i <= |pairs|
    decreases |pairs| - i
  {
    if i == |pairs| then [] else [PairEntry(pairs[i], i == |pairs| - 1)] + PairEntries(pairs, i + 1)
  }

  function BlockOf(pairs: seq<Pair>): Value {
    Node(Object, if pairs == [] then "\n    " else "", PairEntries(pairs, 0))
  }

  function SlugEntry(slug: Bytes, pairs: seq<Pair>): Entry {
    Entry("\n    ", Name(slug, "", " "), BlockOf(pairs), "\n  ")
  }

  /** A member's text without the comma, line break or white space after it. */
  function LineHead(p: Pair): Bytes {
    "      \"" + p.key + "\": " + EncodeJsonString(p.value)
  }

  lemma PairLine(p: Pair, last: bool)
    ensures EntryText(PairEntry(p, last)) == "\n" + LineHead(p) + (if last then "\n    " else "")
    ensures Line(p, !last) == LineHead(p) + (if last then "\n" else ",\n")
  {
    hide EncodeBody, NameText, Quoted;
    KeyText(p.key);
    PairParts("\"" + p.key + "\": ", Quoted(EncodeBody(p.value)), last);
    assert "      \"" + p.key + "\": " == "      " + ("\"" + p.key + "\": ");
  }

  lemma KeyText(key: Bytes)
    ensures NameText(Name(key, "", " ")) == "\"" + key + "\": "
  {
  }

  lemma PairParts(name: Bytes, e: Bytes, last: bool)
    ensures "\n      " + (name + (e + (if last then "\n    " else ""))) ==
            "\n" + ("      " + name + e) + (if last then "\n    " else "")
  {
  }

  lemma {:induction false} LinesText(pairs: seq<Pair>, i: nat)
    requires i < |pairs|
    ensures PairEntries(pairs, i) != []
    ensures Entries(PairEntries(pairs, i)) == "\n" + (Lines(pairs, i) + "    ")
    decreases |pairs| - i
  {
    hide LineHead, Line, EntryText;
    var last := i == |pairs| - 1;
    var es := PairEntries(pairs, i);
    PairLine(pairs[i], last);
    if last {
      assert es == [PairEntry(pairs[i], true)];
      NoLines(pairs);
      LastLine(LineHead(pairs[i]));
    } else {
      LinesText(pairs, i + 1);
      assert es[1..] == PairEntries(pairs, i + 1);
      NextLine(LineHead(pairs[i]), Lines(pairs, i + 1));
    }
  }

  lemma LastLine(head: Bytes)
    ensures "\n" + head + "\n    " == "\n" + (((head + "\n") + "") + "    ")
  {
  }

  lemma NextLine(head: Bytes, rest: Bytes)
    ensures ("\n" + head + "") + ("," + ("\n" + (rest + "    "))) == "\n" + (((head + ",\n") + rest) + "    ")
  {
  }

  lemma BodyText(pairs: seq<Pair>)
    ensures BlockBody(pairs) == Inside(BlockOf(pairs).pad, BlockOf(pairs).entries)
  {
    hide Lines, EntryText;
    if pairs == [] {
      assert Lines(pairs, 0) == "" by { NoLines(pairs); }
    } else {
      LinesText(pairs, 0);
    }
  }

  lemma SlugText(slug: Bytes, pairs: seq<Pair>)
    ensures SlugMember(slug, pairs) == Entries([SlugEntry(slug, pairs)])
  {
    hide Inside, BlockBody, NameText;
    BodyText(pairs);
    assert Text(BlockOf(pairs)) == "{" + (Inside(BlockOf(pairs).pad, BlockOf(pairs).entries) + "}");
    SlugParts(slug, Inside(BlockOf(pairs).pad, BlockOf(pairs).entries));
  }

  lemma SlugParts(slug: Bytes, body: Bytes)
    ensures "\n    \"" + slug + "\": {" + body + "}\n  " ==
            "\n    " + (NameText(Name(slug, "", " ")) + (("{" + (body + "}")) + "\n  "))
  {
    assert NameText(Name(slug, "", " ")) == "\"" + slug + "\": ";
  }

  predicate WfKeys(pairs: seq<Pair>) {
    forall k | 0 <= k < |pairs| :: WfBody(pairs[k].key)
  }

  lemma WfPairEntry(p: Pair, last: bool)
    requires WfBody(p.key)
    ensures WfEntry(Object, PairEntry(p, last))
  {
    hide WfBody, EncodeBody;
    EncodeWf(p.value);
    assert AllWs("\n      ") && AllWs("\n    ") && AllWs(" ") && AllWs("");
  }

  lemma {:induction false} WfPairEntries(pairs: seq<Pair>, i: nat)
    requires i <= |pairs| && WfKeys(pairs)
    ensures WfEntries(Object, PairEntries(pairs, i))
    decreases |pairs| - i
  {
    hide WfBody, PairEntry, WfEntry;
    if i < |pairs| {
      WfPairEntries(pairs, i + 1);
      WfPairEntry(pairs[i], i == |pairs| - 1);
      assert PairEntries(pairs, i)[1..] == PairEntries(pairs, i + 1);
    }
  }

  lemma WfSlugEntry(slug: Bytes, pairs: seq<Pair>)
    requires WfBody(slug) && WfKeys(pairs)
    ensures WfEntries(Object, [SlugEntry(slug, pairs)])
  {
    hide WfBody, PairEntry, WfEntries;
    WfPairEntries(pairs, 0);
    assert AllWs("\n    ") && AllWs("\n  ") && AllWs(" ") && AllWs("");
    assert WfEntry(Object, SlugEntry(slug, pairs));
    WfEntriesFrom(Object, [SlugEntry(slug, pairs)]);
  }

  /** The last entry without the white space after it. */
  function Trimmed(es: seq<Entry>): seq<Entry> {
    if es == [] then [] else es[|es| - 1 := es[|es| - 1].(post := "")]
  }

  /** An object with `new` after its own entries. */
  function Extend(o: Value, new_: seq<Entry>): Value
    requires IsObject(o)
  {
    Node(Object, "", Trimmed(o.entries) + new_)
  }

  lemma WfExtend(o: Value, new_: seq<Entry>)
    requires IsObject(o) && Wf(o) && new_ != [] && WfEntries(Object, new_)
    ensures Wf(Extend(o, new_))
  {
    WfEntriesFrom(Object, Trimmed(o.entries) + new_);
  }

  lemma {:induction false} EntriesConcat(a: seq<Entry>, b: seq<Entry>)
    requires a != [] && b != []
    ensures Entries(a + b) == Entries(a) + ("," + Entries(b))
    decreases a
  {
    hide EntryText;
    if |a| == 1 {
      assert (a + b)[1..] == b;
    } else {
      assert (a + b)[1..] == a[1..] + b;
      EntriesConcat(a[1..], b);
      Regroup(EntryText(a[0]), ",", Entries(a[1..]), "," + Entries(b));
    }
  }

  lemma {:induction false} TrimmedText(es: seq<Entry>)
    requires es != []
    ensures Entries(es) == Entries(Trimmed(es)) + es[|es| - 1].post
    decreases es
  {
    hide EntryText;
    var last := es[|es| - 1];
    if |es| == 1 {
      assert Trimmed(es) == [last.(post := "")];
      TrimmedEntry(last);
    } else {
      assert Trimmed(es)[1..] == Trimmed(es[1..]) && Trimmed(es)[0] == es[0];
      TrimmedText(es[1..]);
      Regroup(EntryText(es[0]), ",", Entries(Trimmed(es[1..])), last.post);
    }
  }

  lemma TrimmedEntry(e: Entry)
    ensures EntryText(e) == EntryText(e.(post := "")) + e.post
  {
    hide Text, NameText;
    RegroupPost(e.pre, NameText(e.name), Text(e.value), e.post);
  }

  lemma RegroupPost(a: Bytes, b: Bytes, c: Bytes, d: Bytes)
    ensures a + (b + (c + d)) == (a + (b + (c + ""))) + d
  {
  }

  /** A value ends neither in white space nor in a comma. */
  lemma ValueTail(v: Value)
    requires Wf(v)
    ensures Text(v) != "" && !IsWs(Text(v)[|Text(v)| - 1]) && Text(v)[|Text(v)| - 1] != ','
  {
    hide WfBody, WfAtom, WfEntries, Inside;
    if v.Atom? { AtomPlain(v.text); }
  }

  lemma {:induction false} TrimmedTail(es: seq<Entry>)
    requires es != [] && WfEntries(Object, es)
    ensures var t := Entries(Trimmed(es)); t != "" && !IsWs(t[|t| - 1]) && t[|t| - 1] != ','
    decreases es
  {
    hide Text, NameText, Wf;
    if |es| == 1 {
      ValueTail(es[0].value);
    } else {
      assert Trimmed(es)[1..] == Trimmed(es[1..]);
      TrimmedTail(es[1..]);
    }
  }

  /** Insertion into a well-formed object adds the new entries after its own, and changes
      nothing outside it. */
  lemma InsertedText(left: Bytes, o: Value, right: Bytes, new_: seq<Entry>)
    requires IsObject(o) && Wf(o) && new_ != []
    ensures var raw := left + (Text(o) + right);
            InsertLast(raw, |left|, |left| + |Text(o)| - 1, Entries(new_)) ==
            left + (Text(Extend(o, new_)) + right)
  {
    hide Entries, WfEntries, LastInk, InsertLast;
    if o.entries == [] {
      assert Extend(o, new_).entries == new_;
      InsertIntoBlank(left, o.pad, right, Entries(new_));
    } else {
      var t := Entries(Trimmed(o.entries));
      TrimmedText(o.entries);
      TrimmedTail(o.entries);
      EntriesConcat(Trimmed(o.entries), new_);
      InsertAfterInk(left, t, o.entries[|o.entries| - 1].post, right, Entries(new_));
    }
  }

  /** Insertion between an opening brace, white space and a closing brace. */
  lemma InsertIntoBlank(left: Bytes, pad: Bytes, right: Bytes, text: Bytes)
    requires AllWs(pad)
    ensures InsertLast(left + (("{" + (pad + "}")) + right), |left|, |left| + 1 + |pad|, text) ==
            left + (("{" + (text + "}")) + right)
  {
    var raw := left + (("{" + (pad + "}")) + right);
    assert raw == (left + "{") + pad + ("}" + right);
    assert raw[|left| + 1..|left| + 1 + |pad|] == pad;
    assert raw[..|left| + 1] == left + "{" && raw[|left| + 1 + |pad|..] == "}" + right;
  }

  /** Insertion after the text `t` of some entries, followed by white space. */
  lemma InsertAfterInk(left: Bytes, t: Bytes, post: Bytes, right: Bytes, text: Bytes)
    requires AllWs(post) && t != "" && !IsWs(t[|t| - 1]) && t[|t| - 1] != ','
    ensures InsertLast(left + (("{" + ((t + post) + "}")) + right), |left|, |left| + 1 + |t + post|, text) ==
            left + (("{" + ((t + ("," + text)) + "}")) + right)
  {
    hide InsertLast;
    var raw := left + (("{" + ((t + post) + "}")) + right);
    InkParts(left, t, post, right, text);
    InsertAtInk(raw, |left|, |left| + 1 + |t + post|, |left| + |t|, text);
  }

  lemma InsertAtInk(raw: Bytes, open: nat, close: nat, k: nat, text: Bytes)
    requires open < k < close < |raw| && !IsWs(raw[k]) && raw[k] != ','
    requires forall j | k < j < close :: IsWs(raw[j])
    ensures InsertLast(raw, open, close, text) == raw[..k + 1] + "," + text + raw[close..]
  {
    hide LastInk;
    assert !IsWs(raw[open + 1..close][k - open - 1]);
    LastInkIs(raw, open, close - 1, k);
  }

  lemma InkParts(left: Bytes, t: Bytes, post: Bytes, right: Bytes, text: Bytes)
    requires t != ""
    ensures var raw := left + (("{" + ((t + post) + "}")) + right);
            var close := |left| + 1 + |t + post|;
            && raw[|left| + |t|] == t[|t| - 1]
            && (forall j | |left| + |t| < j < close :: raw[j] == post[j - |left| - |t| - 1])
            && raw[close..] == "}" + right
            && raw[..|left| + |t| + 1] == left + "{" + t
    ensures left + "{" + t + "," + text + ("}" + right) == left + (("{" + ((t + ("," + text)) + "}")) + right)
  {
  }

  lemma {:induction false} LastInkIs(raw: Bytes, lo: nat, i: nat, k: nat)
    requires lo < k <= i < |raw| && !IsWs(raw[k]) && forall j | k < j <= i :: IsWs(raw[j])
    ensures LastInk(raw, lo, i) == k
    decreases i
  {
    if i > k { LastInkIs(raw, lo, i - 1, k); }
  }
}
