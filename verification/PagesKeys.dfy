/** The keys `pages promote` makes: sanitized path parts, which need no escaping when they are
    inserted and no splitting when they are looked up. */
module PagesKeys {
  import opened Bytes
  import JsonGrammar
  import JsonStrings
  import PagesText

  // ---------------------------------------------------------------- the steps

  predicate IsKeyByte(c: byte) {
    'a' <= c <= 'z' || '0' <= c <= '9' || c == '_'
  }

  /** One byte for every character: itself, its lower case, or an underscore. */
  function MapByte(c: byte): byte {
    if IsKeyByte(c) then c else if 'A' <= c <= 'Z' then (c as int + 32) as char else '_'
  }

  function Mapped(s: Bytes): (r: Bytes)
    ensures forall k | 0 <= k < |r| :: IsKeyByte(r[k])
    decreases |s|
  {
    if s == "" then ""
    else if s[0] < '\U{80}' then [MapByte(s[0])] + Mapped(s[1..])
    else if JsonStrings.RuneLen(s) == 0 then "_" + Mapped(s[1..])
    else "_" + Mapped(s[JsonStrings.RuneLen(s)..])
  }

  /** Runs of underscores reduced to one. */
  function Collapse(s: Bytes): (r: Bytes)
    ensures s != "" ==> r != "" && r[0] == s[0]
    decreases |s|
  {
    if |s| < 2 then s
    else if s[0] == '_' && s[1] == '_' then Collapse(s[1..])
    else [s[0]] + Collapse(s[1..])
  }

  function TrimLeft(s: Bytes): Bytes
    decreases |s|
  {
    if s != "" && s[0] == '_' then TrimLeft(s[1..]) else s
  }

  function TrimRight(s: Bytes): Bytes
    decreases |s|
  {
    if s != "" && s[|s| - 1] == '_' then TrimRight(s[..|s| - 1]) else s
  }

  function Sanitized(s: Bytes): Bytes {
    TrimRight(TrimLeft(Collapse(Mapped(s))))
  }

  predicate NoDouble(s: Bytes) {
    forall k | 0 < k < |s| :: s[k - 1] != '_' || s[k] != '_'
  }

  // ---------------------------------------------------------------- sanitizeKeyPart

  const DOUBLE: Bytes := "__"

  lemma DoubleAt(s: Bytes)
    ensures At(s, 0, DOUBLE) <==> |s| >= 2 && s[0] == '_' && s[1] == '_'
  {
    AtSlice(s, 0, DOUBLE);
    if |s| >= 2 { assert s[0..2] == [s[0], s[1]]; }
  }

  /** Replacing pairs by single underscores keeps the collapsed form and the first byte, and
      shortens what has a pair. */
  lemma {:induction false} ReplaceDoubles(s: Bytes)
    ensures var r := ReplaceAll(s, DOUBLE, "_");
            && Collapse(r) == Collapse(s) && |r| <= |s| && (!NoDouble(s) ==> |r| < |s|)
            && (s == "" <==> r == "") && (s != "" ==> r[0] == s[0])
    decreases |s|
  {
    hide At;
    if s != "" {
      DoubleAt(s);
      if At(s, 0, DOUBLE) {
        ReplaceDoubles(s[2..]);
        CollapsePair(s, ReplaceAll(s[2..], DOUBLE, "_"));
      } else {
        ReplaceDoubles(s[1..]);
        CollapseOne(s, ReplaceAll(s[1..], DOUBLE, "_"));
      }
    }
  }

  lemma CollapsePair(s: Bytes, r: Bytes)
    requires |s| >= 2 && s[0] == '_' && s[1] == '_'
    requires Collapse(r) == Collapse(s[2..]) && (s[2..] == "" <==> r == "") && (r != "" ==> r[0] == s[2])
    ensures Collapse("_" + r) == Collapse(s)
  {
    assert s[1..][1..] == s[2..] && ("_" + r)[1..] == r;
  }

  lemma CollapseOne(s: Bytes, r: Bytes)
    requires s != "" && !(|s| >= 2 && s[0] == '_' && s[1] == '_')
    requires Collapse(r) == Collapse(s[1..]) && (s[1..] == "" <==> r == "") && (r != "" ==> r[0] == s[1])
    requires |r| <= |s| - 1 && (!NoDouble(s[1..]) ==> |r| < |s| - 1)
    ensures Collapse([s[0]] + r) == Collapse(s) && (!NoDouble(s) ==> |r| + 1 < |s|)
  {
    assert ([s[0]] + r)[1..] == r;
    if NoDouble(s[1..]) {
      forall k | 0 < k < |s| ensures s[k - 1] != '_' || s[k] != '_' {
        if k > 1 { assert s[1..][k - 2] != '_' || s[1..][k - 1] != '_'; }
      }
    }
  }

  lemma {:induction false} CollapseNothing(s: Bytes)
    requires NoDouble(s)
    ensures Collapse(s) == s
    decreases |s|
  {
    if |s| >= 2 {
      assert s[0] != '_' || s[1] != '_';
      forall k | 0 < k < |s[1..]| ensures s[1..][k - 1] != '_' || s[1..][k] != '_' {
        assert s[k] != '_' || s[k + 1] != '_';
      }
      CollapseNothing(s[1..]);
      assert s == [s[0]] + s[1..];
    }
  }

  method ContainsDouble(s: Bytes) returns (found: bool)
    ensures found <==> !NoDouble(s)
  {
    var i := 1;
    while i < |s|
      invariant 1 <= i && forall k | 0 < k < i && k < |s| :: s[k - 1] != '_' || s[k] != '_'
    {
      if s[i - 1] == '_' && s[i] == '_' {
        return true;
      }
      i := i + 1;
    }
    return false;
  }

  /** The loop over the characters. */
  method MapRunes(s: Bytes) returns (b: Bytes)
    ensures b == Mapped(s)
  {
    hide Mapped, JsonStrings.RuneLen, MapByte;
    b := "";
    var i := 0;
    assert s[0..] == s;
    while i < |s|
      invariant 0 <= i <= |s| && b + Mapped(s[i..]) == Mapped(s)
    {
      var n := if s[i] < '\U{80}' || JsonStrings.RuneLen(s[i..]) == 0 then 1 else JsonStrings.RuneLen(s[i..]);
      var c := if s[i] < '\U{80}' then MapByte(s[i]) else '_';
      MappedStep(s[i..]);
      assert s[i..][n..] == s[i + n..];
      assert b + ([c] + Mapped(s[i + n..])) == (b + [c]) + Mapped(s[i + n..]);
      b := b + [c];
      i := i + n;
    }
    assert s[i..] == "";
    MappedNothing();
  }

  lemma MappedNothing()
    ensures Mapped("") == ""
  {
  }

  /** The loop that replaces pairs of underscores until there is none. */
  method Squeeze(s: Bytes) returns (out: Bytes)
    ensures out == Collapse(s)
  {
    hide Collapse, NoDouble, ReplaceAll;
    out := s;
    var more := ContainsDouble(out);
    while more
      invariant Collapse(out) == Collapse(s) && (more <==> !NoDouble(out))
      decreases |out|, more
    {
      ReplaceDoubles(out);
      out := ReplaceAll(out, DOUBLE, "_");
      more := ContainsDouble(out);
    }
    CollapseNothing(out);
  }

  method SanitizeKeyPart(s: Bytes) returns (r: Bytes)
    ensures r == Sanitized(s)
  {
    var b := MapRunes(s);
    var out := Squeeze(b);
    r := TrimRight(TrimLeft(out));
  }

  lemma MappedStep(s: Bytes)
    requires s != ""
    ensures var n := if s[0] < '\U{80}' || JsonStrings.RuneLen(s) == 0 then 1 else JsonStrings.RuneLen(s);
            1 <= n <= |s| && Mapped(s) == [if s[0] < '\U{80}' then MapByte(s[0]) else '_'] + Mapped(s[n..])
  {
    hide JsonStrings.RuneLen;
  }

  // ---------------------------------------------------------------- what a key part looks like

  /** Lower-case alphanumerics and single underscores strictly between them. */
  predicate IsKeyPart(s: Bytes) {
    && (forall k | 0 <= k < |s| :: IsKeyByte(s[k])) && NoDouble(s)
    && (s != "" ==> s[0] != '_' && s[|s| - 1] != '_')
  }

  lemma {:induction false} MappedIs(s: Bytes)
    requires forall k | 0 <= k < |s| :: IsKeyByte(s[k])
    ensures Mapped(s) == s
    decreases |s|
  {
    if s != "" {
      assert IsKeyByte(s[0]);
      MappedIs(s[1..]);
      assert s == [s[0]] + s[1..];
    }
  }

  lemma {:induction false} CollapseClean(s: Bytes)
    requires forall k | 0 <= k < |s| :: IsKeyByte(s[k])
    ensures NoDouble(Collapse(s)) && forall k | 0 <= k < |Collapse(s)| :: IsKeyByte(Collapse(s)[k])
    decreases |s|
  {
    if |s| >= 2 {
      CollapseClean(s[1..]);
      assert s[1..] != "" && s[1..][0] == s[1];
      var rest := Collapse(s[1..]);
      if !(s[0] == '_' && s[1] == '_') {
        var r := [s[0]] + rest;
        forall k | 0 < k < |r| ensures r[k - 1] != '_' || r[k] != '_' {
          if k > 1 { assert rest[k - 2] != '_' || rest[k - 1] != '_'; }
        }
      }
    }
  }

  lemma {:induction false} TrimLeftClean(s: Bytes)
    requires (forall k | 0 <= k < |s| :: IsKeyByte(s[k])) && NoDouble(s)
    ensures var r := TrimLeft(s);
            (forall k | 0 <= k < |r| :: IsKeyByte(r[k])) && NoDouble(r) && (r != "" ==> r[0] != '_')
    decreases |s|
  {
    if s != "" && s[0] == '_' {
      forall k | 0 < k < |s[1..]| ensures s[1..][k - 1] != '_' || s[1..][k] != '_' {
        assert s[k] != '_' || s[k + 1] != '_';
      }
      TrimLeftClean(s[1..]);
    }
  }

  lemma {:induction false} TrimRightClean(s: Bytes)
    requires (forall k | 0 <= k < |s| :: IsKeyByte(s[k])) && NoDouble(s) && (s != "" ==> s[0] != '_')
    ensures IsKeyPart(TrimRight(s))
    decreases |s|
  {
    if s != "" && s[|s| - 1] == '_' {
      TrimRightClean(s[..|s| - 1]);
    }
  }

  /** Sanitizing gives a key part, and leaves exactly the key parts as they are. */
  lemma SanitizedIff(s: Bytes)
    ensures IsKeyPart(Sanitized(s))
    ensures Sanitized(s) == s <==> IsKeyPart(s)
    ensures Sanitized(Sanitized(s)) == Sanitized(s)
  {
    SanitizedClean(s);
    if IsKeyPart(s) { SanitizedSame(s); }
    SanitizedSame(Sanitized(s));
  }

  lemma SanitizedClean(s: Bytes)
    ensures IsKeyPart(Sanitized(s))
  {
    hide Mapped, Collapse, TrimLeft, TrimRight, NoDouble;
    CollapseClean(Mapped(s));
    TrimLeftClean(Collapse(Mapped(s)));
    TrimRightClean(TrimLeft(Collapse(Mapped(s))));
  }

  lemma SanitizedSame(s: Bytes)
    requires IsKeyPart(s)
    ensures Sanitized(s) == s
  {
    MappedIs(s);
    CollapseNothing(s);
  }

  /** A key part is inserted as it is by the byte-level editor and is a single part of a
      dotted key. */
  lemma {:induction false} KeyPartFits(s: Bytes)
    requires forall k | 0 <= k < |s| :: IsKeyByte(s[k])
    ensures JsonGrammar.WfBody(s) && PagesText.NoDot(s)
    decreases |s|
  {
    if s != "" {
      assert IsKeyByte(s[0]);
      KeyPartFits(s[1..]);
    }
  }

  // ---------------------------------------------------------------- the words of a key part

  /** Letters become their lower case, digits and underscores stay, every other character is one
      underscore. */
  lemma MapByteIs(c: byte)
    ensures 'A' <= c <= 'Z' ==> 'a' <= MapByte(c) <= 'z' && MapByte(c) as int - 'a' as int == c as int - 'A' as int
    ensures 'a' <= c <= 'z' || '0' <= c <= '9' ==> MapByte(c) == c
    ensures MapByte(c) == '_' <==> !('A' <= c <= 'Z' || 'a' <= c <= 'z' || '0' <= c <= '9')
  {
  }

  /** The runs of characters other than underscores. */
  function Words(s: Bytes): seq<Bytes>
    decreases |s|
  {
    if s == "" then []
    else if s[0] == '_' then Words(s[1..])
    else var i := IndexOf(s, '_', 0); [s[..i]] + Words(s[i..])
  }

  function Joined(ws: seq<Bytes>): Bytes {
    if ws == [] then "" else if |ws| == 1 then ws[0] else ws[0] + ("_" + Joined(ws[1..]))
  }

  lemma WordStep(c: byte, t: Bytes)
    requires c != '_'
    ensures t == "" || t[0] == '_' ==> Words([c] + t) == [[c]] + Words(t)
    ensures t != "" && t[0] != '_' ==> Words(t) != [] && Words([c] + t) == [[c] + Words(t)[0]] + Words(t)[1..]
  {
    hide IndexOf;
    var s := [c] + t;
    var j := IndexOf(t, '_', 0);
    assert forall k | 0 < k <= |t| :: s[k] == t[k - 1];
    IndexOfIs(s, '_', j + 1);
    assert s[..j + 1] == [c] + t[..j] && s[j + 1..] == t[j..];
    if t == "" || t[0] == '_' {
      assert j == 0;
      assert t[0..] == t && t[..0] == "";
    }
  }

  lemma {:induction false} WordsCollapse(s: Bytes)
    ensures Words(Collapse(s)) == Words(s)
    decreases |s|
  {
    hide IndexOf;
    if |s| >= 2 {
      WordsCollapse(s[1..]);
      if s[0] == '_' {
        if s[1] != '_' { assert ([s[0]] + Collapse(s[1..]))[1..] == Collapse(s[1..]); }
      } else {
        assert s == [s[0]] + s[1..];
        WordStep(s[0], s[1..]);
        WordStep(s[0], Collapse(s[1..]));
      }
    }
  }

  lemma {:induction false} WordsTrimLeft(s: Bytes)
    ensures Words(TrimLeft(s)) == Words(s)
    decreases |s|
  {
    hide IndexOf;
    if s != "" && s[0] == '_' { WordsTrimLeft(s[1..]); }
  }

  lemma {:induction false} WordsBeforeLine(s: Bytes)
    ensures Words(s + "_") == Words(s)
    decreases |s|
  {
    hide IndexOf;
    if s == "" {
      var line: Bytes := "_";
      assert line[1..] == "" && s + "_" == line;
    } else {
      var t := s[1..];
      assert s == [s[0]] + t && s + "_" == [s[0]] + (t + "_") && (s + "_")[1..] == t + "_";
      WordsBeforeLine(t);
      if s[0] != '_' {
        WordStep(s[0], t);
        WordStep(s[0], t + "_");
      }
    }
  }

  lemma {:induction false} WordsTrimRight(s: Bytes)
    ensures Words(TrimRight(s)) == Words(s)
    decreases |s|
  {
    hide Words;
    if s != "" && s[|s| - 1] == '_' {
      WordsTrimRight(s[..|s| - 1]);
      WordsBeforeLine(s[..|s| - 1]);
      assert s == s[..|s| - 1] + "_";
    }
  }

  lemma {:induction false} JoinedWords(s: Bytes)
    requires NoDouble(s) && (s != "" ==> s[0] != '_' && s[|s| - 1] != '_')
    ensures Joined(Words(s)) == s
    decreases |s|
  {
    hide IndexOf;
    if s != "" {
      var t := s[1..];
      assert s == [s[0]] + t;
      WordStep(s[0], t);
      assert NoDouble(t) by { NoDoubleFrom(s, 1); }
      if t != "" && t[0] == '_' {
        assert s[1] != '_' || s[2] != '_';
        assert NoDouble(t[1..]) by { NoDoubleFrom(t, 1); }
        JoinedWords(t[1..]);
        assert Words(t) == Words(t[1..]);
        assert Words(s)[1..] == Words(t);
        assert t == "_" + t[1..];
      } else if t != "" {
        JoinedWords(t);
        JoinedLonger(s[0], Words(t));
      }
    }
  }

  lemma NoDoubleFrom(s: Bytes, n: nat)
    requires NoDouble(s) && n <= |s|
    ensures NoDouble(s[n..])
  {
    forall k | 0 < k < |s| - n ensures s[n..][k - 1] != '_' || s[n..][k] != '_' {
      assert s[n + k - 1] != '_' || s[n + k] != '_';
    }
  }

  lemma JoinedLonger(c: byte, ws: seq<Bytes>)
    requires ws != []
    ensures Joined([[c] + ws[0]] + ws[1..]) == [c] + Joined(ws)
  {
    var longer := [[c] + ws[0]] + ws[1..];
    assert longer[1..] == ws[1..];
    if |ws| > 1 {
      assert ([c] + ws[0]) + ("_" + Joined(ws[1..])) == [c] + (ws[0] + ("_" + Joined(ws[1..])));
    }
  }

  /** The key part is the words of the mapped text with single underscores between them. */
  lemma SanitizedIsWords(s: Bytes)
    ensures Sanitized(s) == Joined(Words(Mapped(s)))
  {
    hide Mapped, Collapse, TrimLeft, TrimRight, NoDouble, Words;
    var m := Mapped(s);
    SanitizedClean(s);
    WordsCollapse(m);
    WordsTrimLeft(Collapse(m));
    WordsTrimRight(TrimLeft(Collapse(m)));
    JoinedWords(Sanitized(s));
  }
}
