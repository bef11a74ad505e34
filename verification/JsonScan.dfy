/** The hand-written scanners of cmd/pages.go, first as functions of the text and a
    position, then as the loops of the source, each proved equal to its function. */
module JsonScan {
  import opened Wrappers
  import opened Bytes
  import opened JsonGrammar

  datatype ScanError =
    | NotAtBrace
    | ExpectedKey(at: nat)
    | ExpectedColon(key: Bytes)
    | UnexpectedEof(key: Bytes)
    | NoMatchingBrace
    | Unterminated
    | SliceOutOfRange // Go panics: the key would be data[n:n-1]

  /** Key to the half-open range of its string value, quotes included. */
  type Ranges = map<Bytes, (nat, nat)>

  // ---------------------------------------------------------------- specifications

  function SkipWs(data: Bytes, i: nat): (j: nat)
    requires i <= |data|
    ensures i <= j <= |data|
    ensures forall k | i <= k < j :: IsWs(data[k])
    ensures j < |data| ==> !IsWs(data[j])
    decreases |data| - i
  {
    if i < |data| && IsWs(data[i]) then SkipWs(data, i + 1) else i
  }

  /** From inside a string: just past the closing quotation mark, or the end of the data. */
  function SkipBody(data: Bytes, i: nat): (j: nat)
    ensures j <= |data|
    ensures i < |data| ==> i < j
    decreases if i < |data| then |data| - i else 0
  {
    if i >= |data| then |data|
    else if data[i] == '\\' then SkipBody(data, i + 2)
    else if data[i] == '"' then i + 1
    else SkipBody(data, i + 1)
  }

  function StringEnd(data: Bytes, start: nat): (j: nat)
    requires start < |data|
    ensures start < j <= |data|
  {
    SkipBody(data, start + 1)
  }

  /** The position of the closing delimiter that brings `depth` to zero. Strings are
      skipped; only the delimiters of `kind` count. */
  function Closer(data: Bytes, i: nat, kind: Kind, depth: int): (r: Option<nat>)
    requires i <= |data|
    ensures r.Some? ==> i <= r.value < |data| && data[r.value] == Close(kind)[0]
    decreases |data| - i
  {
    if i == |data| then None
    else if data[i] == '"' then Closer(data, StringEnd(data, i), kind, depth)
    else if data[i] == Open(kind)[0] then Closer(data, i + 1, kind, depth + 1)
    else if data[i] == Close(kind)[0] then
      if depth == 1 then Some(i) else Closer(data, i + 1, kind, depth - 1)
    else Closer(data, i + 1, kind, depth)
  }

  function BraceMatch(data: Bytes, open: nat): (r: Option<nat>)
    ensures r.Some? ==> open < r.value < |data| && data[r.value] == '}'
  {
    if open >= |data| || data[open] != '{' then None else Closer(data, open, Object, 0)
  }

  /** Just past the array at `start`, or the end of the data. */
  function ArrayEnd(data: Bytes, start: nat): (j: nat)
    requires start <= |data|
    ensures start <= j <= |data|
  {
    match Closer(data, start, Array, 0)
    case None => |data|
    case Some(close) => close + 1
  }

  /** If `"key"`, a colon and `{` stand at `i`, the position of the `{`. */
  function BlockAt(data: Bytes, i: nat, key: Bytes): (r: Option<nat>)
    ensures r.Some? ==> i < r.value < |data| && data[r.value] == '{'
  {
    if !At(data, i, Quoted(key)) then None
    else
      var colon := SkipWs(data, i + |Quoted(key)|);
      if colon == |data| || data[colon] != ':' then None
      else
        var open := SkipWs(data, colon + 1);
        if open < |data| && data[open] == '{' then Some(open) else None
  }

  /** The first block named `key` at or after `i`, at whatever depth. */
  function FindKey(data: Bytes, i: nat, key: Bytes): (r: Option<nat>)
    ensures r.Some? ==> i < r.value < |data| && data[r.value] == '{'
    decreases if i < |data| then |data| - i else 0
  {
    if i >= |data| then None
    else if data[i] == '"' then
      var block := BlockAt(data, i, key);
      if block.Some? then block else FindKey(data, StringEnd(data, i), key)
    else FindKey(data, i + 1, key)
  }

  /** The first comma or closing brace at or after `i`. */
  function SkipAtom(data: Bytes, i: nat): (j: nat)
    requires i <= |data|
    ensures i <= j <= |data|
    ensures forall k | i <= k < j :: data[k] != ',' && data[k] != '}'
    ensures j < |data| ==> data[j] == ',' || data[j] == '}'
    decreases |data| - i
  {
    if i < |data| && data[i] != ',' && data[i] != '}' then SkipAtom(data, i + 1) else i
  }

  /** The value at `v`: where it ends, and `acc` with its range if it is a string. */
  function ValueAt(data: Bytes, key: Bytes, v: nat, acc: Ranges): (r: Result<(Ranges, nat), ScanError>)
    requires v < |data|
    ensures r.Ok? ==> v <= r.value.1 <= |data|
  {
    if data[v] == '"' then Ok((acc[key := (v, StringEnd(data, v))], StringEnd(data, v)))
    else if data[v] == '{' then
      match BraceMatch(data, v)
      case None => Err(NoMatchingBrace)
      case Some(close) => Ok((acc, close + 1))
    else if data[v] == '[' then Ok((acc, ArrayEnd(data, v)))
    else Ok((acc, SkipAtom(data, v)))
  }

  /** The member whose key starts at `at`: where it ends, and the ranges so far. */
  function MemberAt(data: Bytes, at: nat, acc: Ranges): (r: Result<(Ranges, nat), ScanError>)
    requires at < |data|
    ensures r.Ok? ==> at < r.value.1 <= |data|
  {
    var keyEnd := StringEnd(data, at) - 1;
    if keyEnd == at then Err(SliceOutOfRange)
    else
      var key := data[at + 1..keyEnd];
      var colon := SkipWs(data, keyEnd + 1);
      if colon == |data| || data[colon] != ':' then Err(ExpectedColon(key))
      else
        var v := SkipWs(data, colon + 1);
        if v == |data| then Err(UnexpectedEof(key)) else ValueAt(data, key, v, acc)
  }

  /** The top-level string members from `i` to the closing brace, on top of `acc`. */
  function ScanFrom(data: Bytes, i: nat, acc: Ranges): Result<Ranges, ScanError>
    requires i <= |data|
    decreases |data| - i
  {
    var at := SkipWs(data, i);
    if at == |data| then Err(Unterminated)
    else if data[at] == '}' then Ok(acc)
    else if data[at] == ',' then ScanFrom(data, at + 1, acc)
    else if data[at] != '"' then Err(ExpectedKey(at))
    else
      match MemberAt(data, at, acc)
      case Err(error) => Err(error)
      case Ok((ranges, next)) => ScanFrom(data, next, ranges)
  }

  function Scan(data: Bytes, open: nat): Result<Ranges, ScanError> {
    if open >= |data| || data[open] != '{' then Err(NotAtBrace) else ScanFrom(data, open + 1, map[])
  }

  // ---------------------------------------------------------------- the loops of the source

  method SkipString(data: Bytes, start: nat) returns (end: nat)
    requires start < |data|
    ensures end == StringEnd(data, start)
  {
    var i := start + 1;
    while i < |data|
      invariant StringEnd(data, start) == SkipBody(data, i)
      decreases if i < |data| then |data| - i else 0
    {
      var c := data[i];
      if c == '\\' {
        i := i + 2;
        continue;
      }
      if c == '"' {
        return i + 1;
      }
      i := i + 1;
    }
    return |data|;
  }

  method MatchBrace(data: Bytes, openIdx: nat) returns (r: Option<nat>)
    ensures r == BraceMatch(data, openIdx)
  {
    if openIdx >= |data| || data[openIdx] != '{' {
      return None;
    }
    var depth := 0;
    var i := openIdx;
    while i < |data|
      invariant openIdx <= i <= |data|
      invariant BraceMatch(data, openIdx) == Closer(data, i, Object, depth)
    {
      match data[i] {
        case '"' =>
          var end := SkipString(data, i);
          i := end - 1;
        case '{' =>
          depth := depth + 1;
        case '}' =>
          depth := depth - 1;
          if depth == 0 {
            return Some(i);
          }
        case _ =>
      }
      i := i + 1;
    }
    return None;
  }

  method SkipArray(data: Bytes, start: nat) returns (end: nat)
    requires start <= |data|
    ensures end == ArrayEnd(data, start)
  {
    var depth := 0;
    var i := start;
    while i < |data|
      invariant start <= i <= |data|
      invariant Closer(data, start, Array, 0) == Closer(data, i, Array, depth)
    {
      match data[i] {
        case '"' =>
          i := SkipString(data, i);
          continue;
        case '[' =>
          depth := depth + 1;
        case ']' =>
          depth := depth - 1;
          if depth == 0 {
            return i + 1;
          }
        case _ =>
      }
      i := i + 1;
    }
    return |data|;
  }

  /** The white-space loop the source writes out at each use. */
  method SkipSpaces(data: Bytes, start: nat) returns (i: nat)
    requires start <= |data|
    ensures i == SkipWs(data, start)
  {
    i := start;
    while i < |data| && IsWs(data[i])
      invariant start <= i <= |data|
      invariant SkipWs(data, start) == SkipWs(data, i)
    {
      i := i + 1;
    }
  }

  method FindKeyObjectOpen(data: Bytes, from: nat, key: Bytes) returns (r: Option<nat>)
    ensures r == FindKey(data, from, key)
  {
    var needle := Quoted(key);
    var i := from;
    while i < |data|
      invariant FindKey(data, from, key) == FindKey(data, i, key)
      decreases |data| - i
    {
      if data[i] == '"' {
        AtSlice(data, i, needle);
        if i + |needle| <= |data| && data[i..i + |needle|] == needle {
          var j := SkipSpaces(data, i + |needle|);
          if j < |data| && data[j] == ':' {
            j := SkipSpaces(data, j + 1);
            if j < |data| && data[j] == '{' {
              return Some(j);
            }
          }
        }
        i := SkipString(data, i);
        continue;
      }
      i := i + 1;
    }
    return None;
  }

  /** The body of the loop below: one key and its value. */
  method ScanMember(data: Bytes, start: nat, ranges: Ranges) returns (r: Result<(Ranges, nat), ScanError>)
    requires start < |data|
    ensures r == MemberAt(data, start, ranges)
  {
    hide StringEnd, SkipBody, SkipWs, Closer, BraceMatch, ArrayEnd;
    var keyStart := start + 1;
    var afterKey := SkipString(data, start);
    var keyEnd := afterKey - 1;
    if keyEnd < keyStart {
      return Err(SliceOutOfRange);
    }
    var key := data[keyStart..keyEnd];
    var i := SkipSpaces(data, keyEnd + 1);
    if i >= |data| || data[i] != ':' {
      return Err(ExpectedColon(key));
    }
    i := SkipSpaces(data, i + 1);
    if i >= |data| {
      return Err(UnexpectedEof(key));
    }
    match data[i] {
      case '"' =>
        var valEnd := SkipString(data, i);
        return Ok((ranges[key := (i, valEnd)], valEnd));
      case '{' =>
        var closeIdx := MatchBrace(data, i);
        return if closeIdx == None then Err(NoMatchingBrace) else Ok((ranges, closeIdx.value + 1));
      case '[' =>
        i := SkipArray(data, i);
        return Ok((ranges, i));
      case _ =>
        ghost var atom := i;
        while i < |data| && data[i] != ',' && data[i] != '}'
          invariant atom <= i <= |data|
          invariant SkipAtom(data, atom) == SkipAtom(data, i)
        {
          i := i + 1;
        }
        return Ok((ranges, i));
    }
  }

  method ScanLeafStringRanges(data: Bytes, objOpen: nat) returns (r: Result<Ranges, ScanError>)
    ensures r == Scan(data, objOpen)
  {
    hide SkipWs, MemberAt;
    if objOpen >= |data| || data[objOpen] != '{' {
      return Err(NotAtBrace);
    }
    var out: Ranges := map[];
    var i := objOpen + 1;
    while i < |data|
      invariant objOpen < i <= |data|
      invariant Scan(data, objOpen) == ScanFrom(data, i, out)
    {
      i := SkipSpaces(data, i);
      if i >= |data| {
        break;
      }
      if data[i] == '}' {
        return Ok(out);
      }
      if data[i] == ',' {
        i := i + 1;
        continue;
      }
      if data[i] != '"' {
        return Err(ExpectedKey(i));
      }
      var member := ScanMember(data, i, out);
      if member.Err? {
        return Err(member.error);
      }
      out, i := member.value.0, member.value.1;
    }
    return Err(Unterminated);
  }
}
