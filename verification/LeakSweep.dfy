/** The streaming leak scanner and the whole-buffer scanner it must agree with.

    A stream arrives in arbitrary non-empty chunks.  Between reads the streaming
    scanner holds back a bounded tail, yet must find every occurrence of every
    token exactly once, as a search of the whole buffer does. */
module LeakSweep {

  import opened Common

  datatype Token = Token(name: string, needle: bytes)
  datatype LeakHit = LeakHit(token: string, offset: nat, context: string)

  /** `_token_bytes` drops empty tokens, so every scanner sees non-empty needles. */
  predicate TokensOk(tokens: seq<Token>) {
    forall i :: 0 <= i < |tokens| ==> tokens[i].needle != []
  }

  // ---------------------------------------------------------------- occurrences

  predicate Occurs(s: bytes, needle: bytes, o: int) {
    0 <= o && o + |needle| <= |s| && s[o..o + |needle|] == needle
  }

  /** All occurrences starting in [lo, hi), ascending; overlapping ones included. */
  function Offsets(s: bytes, needle: bytes, lo: nat, hi: nat): seq<nat>
    decreases hi - lo
  {
    if lo >= hi then []
    else (if Occurs(s, needle, lo) then [lo] else []) + Offsets(s, needle, lo + 1, hi)
  }

  lemma {:induction false} OffsetsSkip(s: bytes, needle: bytes, lo: nat, mid: nat, hi: nat)
    requires lo <= mid <= hi
    requires forall o :: lo <= o < mid ==> !Occurs(s, needle, o)
    ensures Offsets(s, needle, lo, hi) == Offsets(s, needle, mid, hi)
    decreases mid - lo
  {
    if lo < mid { OffsetsSkip(s, needle, lo + 1, mid, hi); }
  }

  lemma {:induction false} OffsetsSplit(s: bytes, needle: bytes, lo: nat, mid: nat, hi: nat)
    requires lo <= mid <= hi
    ensures Offsets(s, needle, lo, hi) == Offsets(s, needle, lo, mid) + Offsets(s, needle, mid, hi)
    decreases mid - lo
  {
    if lo < mid { OffsetsSplit(s, needle, lo + 1, mid, hi); }
  }

  // ---------------------------------------------------------------- context

  function HexDigit(n: int): char
    requires 0 <= n < 16
  {
    "0123456789abcdef"[n]
  }

  function PrintableByte(b: byte): string {
    if b == 9 then "\\t"
    else if b == 10 then "\\n"
    else if b == 13 then "\\r"
    else if 32 <= b <= 126 then [b as char]
    else "\\x" + [HexDigit(b as int / 16), HexDigit(b as int % 16)]
  }

  function Printable(data: bytes): string {
    if data == [] then [] else PrintableByte(data[0]) + Printable(data[1..])
  }

  lemma {:induction false} PrintableConcat(a: bytes, b: bytes)
    ensures Printable(a + b) == Printable(a) + Printable(b)
  {
    if a == [] {
      assert a + b == b;
    } else {
      assert (a + b)[1..] == a[1..] + b;
      PrintableConcat(a[1..], b);
    }
  }

  function HexValue(c: char): int {
    if '0' <= c <= '9' then c as int - '0' as int
    else if 'a' <= c <= 'f' then c as int - 'a' as int + 10
    else -1
  }

  /** Printable ASCII shows as itself, tab, newline and carriage return as their escapes, and
      every other byte as its two hexadecimal digits. */
  lemma PrintableByteShows(b: byte)
    ensures Printable([b]) == PrintableByte(b)
    ensures 32 <= b <= 126 ==>
      |PrintableByte(b)| == 1 && PrintableByte(b)[0] as int == b as int
    ensures b == 9 || b == 10 || b == 13 ==>
      PrintableByte(b) == ['\\', if b == 9 then 't' else if b == 10 then 'n' else 'r']
    ensures (b < 32 || b > 126) && b != 9 && b != 10 && b != 13 ==>
      var t := PrintableByte(b);
      && |t| == 4 && t[0] == '\\' && t[1] == 'x' && 0 <= HexValue(t[2]) && 0 <= HexValue(t[3])
      && 16 * HexValue(t[2]) + HexValue(t[3]) == b as int
  {
    assert Printable([b]) == PrintableByte(b) + Printable([]);
    HexDigitValue(b as int / 16);
    HexDigitValue(b as int % 16);
  }

  lemma HexDigitValue(n: int)
    requires 0 <= n < 16
    ensures HexValue(HexDigit(n)) == n
  {
  }

  method PrintableContext(data: bytes) returns (text: string)
    ensures text == Printable(data)
  {
    text := "";
    for i := 0 to |data|
      invariant text == Printable(data[..i])
    {
      PrintableConcat(data[..i], [data[i]]);
      assert data[..i] + [data[i]] == data[..i + 1];
      assert Printable([data[i]]) == PrintableByte(data[i]) + Printable([]);
      text := text + PrintableByte(data[i]);
    }
    assert data[..|data|] == data;
  }

  function Max(a: int, b: int): int { if a < b then b else a }
  function Min(a: int, b: int): int { if a < b then a else b }

  /** Python's `buffer[start:end]` for non-negative bounds: out-of-range bounds clamp. */
  function Slice(buffer: bytes, start: nat, end: nat): bytes {
    if start < Min(|buffer|, end) then buffer[start..Min(|buffer|, end)] else []
  }

  /** The bytes shown around a match of length `n` at `rel` in `buffer`. */
  function Window(buffer: bytes, rel: nat, n: nat, context: nat): bytes {
    Slice(buffer, Max(0, rel - context), Min(|buffer|, rel + n + context))
  }

  /** Around a match the window shows the match, and on each side as many of its
      neighbours as the context asks for and the buffer has. */
  lemma WindowShowsMatch(buffer: bytes, rel: nat, needle: bytes, context: nat)
    returns (left: bytes, right: bytes)
    requires Occurs(buffer, needle, rel)
    ensures Window(buffer, rel, |needle|, context) == left + needle + right
    ensures |left| == (if context < rel then context else rel) && left == buffer[rel - |left|..rel]
    ensures var room := |buffer| - rel - |needle|;
      |right| == (if context < room then context else room)
      && right == buffer[rel + |needle|..rel + |needle| + |right|]
  {
    var start, end := Max(0, rel - context), Min(|buffer|, rel + |needle| + context);
    left, right := buffer[start..rel], buffer[rel + |needle|..end];
    assert buffer[start..end] == left + needle + right by {
      assert buffer[start..end] == buffer[start..rel] + buffer[rel..rel + |needle|] + buffer[rel + |needle|..end];
    }
  }

  method HitFromBuffer(token: Token, offset: nat, buffer: bytes, rel: nat, context: nat)
    returns (hit: LeakHit)
    ensures hit == LeakHit(token.name, offset, Printable(Window(buffer, rel, |token.needle|, context)))
  {
    var text := PrintableContext(Window(buffer, rel, |token.needle|, context));
    hit := LeakHit(token.name, offset, text);
  }

  // ---------------------------------------------------------------- the two loops

  /** Python's `data.find(needle, offset)`. */
  method Find(data: bytes, needle: bytes, offset: nat) returns (m: int)
    requires needle != []
    ensures m == -1 || (offset <= m && Occurs(data, needle, m))
    ensures forall o :: offset <= o < (if m == -1 then |data| else m) ==> !Occurs(data, needle, o)
  {
    m := offset;
    while m + |needle| <= |data|
      invariant offset <= m
      invariant forall o :: offset <= o < m ==> !Occurs(data, needle, o)
    {
      if data[m..m + |needle|] == needle { return; }
      m := m + 1;
    }
    m := -1;
  }

  function HitOf(t: Token, data: bytes, base: nat, context: nat, rel: nat): LeakHit
  {
    LeakHit(t.name, base + rel, Printable(Window(data, rel, |t.needle|, context)))
  }

  function HitsAt(t: Token, data: bytes, base: nat, context: nat, at: seq<nat>): seq<LeakHit>
  {
    if at == [] then []
    else
      var last := |at| - 1;
      HitsAt(t, data, base, context, at[..last]) + [HitOf(t, data, base, context, at[last])]
  }

  function TokenHits(t: Token, data: bytes, base: nat, context: nat, upto: nat): seq<LeakHit> {
    HitsAt(t, data, base, context, Offsets(data, t.needle, 0, upto))
  }

  /** What scanning `data` for starts below `upto` must report, token by token. */
  function RegionHits(data: bytes, tokens: seq<Token>, context: nat, base: nat, upto: nat): seq<LeakHit> {
    if tokens == [] then []
    else
      var last := |tokens| - 1;
      RegionHits(data, tokens[..last], context, base, upto)
      + TokenHits(tokens[last], data, base, context, upto)
  }

  lemma {:induction false} OffsetsOccur(s: bytes, needle: bytes, lo: nat, hi: nat, i: nat)
    requires i < |Offsets(s, needle, lo, hi)|
    ensures lo <= Offsets(s, needle, lo, hi)[i] < hi && Occurs(s, needle, Offsets(s, needle, lo, hi)[i])
    decreases hi - lo
  {
    hide Occurs;
    var here := if Occurs(s, needle, lo) then 1 else 0;
    if i >= here { OffsetsOccur(s, needle, lo + 1, hi, i - here); }
  }

  lemma {:induction false} OffsetsAscend(s: bytes, needle: bytes, lo: nat, hi: nat, i: nat, j: nat)
    requires i < j < |Offsets(s, needle, lo, hi)|
    ensures Offsets(s, needle, lo, hi)[i] < Offsets(s, needle, lo, hi)[j]
    decreases hi - lo
  {
    hide Occurs;
    var here := if Occurs(s, needle, lo) then 1 else 0;
    if i >= here {
      OffsetsAscend(s, needle, lo + 1, hi, i - here, j - here);
    } else {
      OffsetsOccur(s, needle, lo + 1, hi, j - here);
    }
  }

  lemma {:induction false} HitsAtIndex(t: Token, data: bytes, base: nat, context: nat, at: seq<nat>, i: nat)
    requires i < |at|
    ensures |HitsAt(t, data, base, context, at)| == |at|
    ensures HitsAt(t, data, base, context, at)[i] == HitOf(t, data, base, context, at[i])
  {
    if |at| > 1 { HitsAtIndex(t, data, base, context, at[..|at| - 1], if i < |at| - 1 then i else 0); }
  }

  /** The hits of one token come in ascending order. */
  lemma TokenHitsAscend(t: Token, data: bytes, base: nat, context: nat, upto: nat)
    ensures var hits := TokenHits(t, data, base, context, upto);
      && (forall i :: 0 <= i < |hits| ==> hits[i].token == t.name)
      && (forall i, j :: 0 <= i < j < |hits| ==> hits[i].offset < hits[j].offset)
  {
    var at := Offsets(data, t.needle, 0, upto);
    var hits := TokenHits(t, data, base, context, upto);
    if at != [] { HitsAtIndex(t, data, base, context, at, 0); }
    forall i | 0 <= i < |at| ensures hits[i].token == t.name && hits[i].offset == base + at[i] {
      HitsAtIndex(t, data, base, context, at, i);
    }
    forall i, j | 0 <= i < j < |hits| ensures hits[i].offset < hits[j].offset {
      OffsetsAscend(data, t.needle, 0, upto, i, j);
    }
  }

  /** The tokens' hits follow one another in the order of the tokens. */
  lemma {:induction false} RegionConcat(
    data: bytes, a: seq<Token>, b: seq<Token>, context: nat, base: nat, upto: nat)
    ensures RegionHits(data, a + b, context, base, upto)
      == RegionHits(data, a, context, base, upto) + RegionHits(data, b, context, base, upto)
    ensures |b| == 1 ==> RegionHits(data, b, context, base, upto) == TokenHits(b[0], data, base, context, upto)
  {
    hide TokenHits;
    if b == [] {
      assert a + b == a;
    } else {
      assert (a + b)[..|a + b| - 1] == a + b[..|b| - 1];
      RegionConcat(data, a, b[..|b| - 1], context, base, upto);
    }
  }

  lemma NoTokenHits(t: Token, data: bytes, base: nat, context: nat)
    ensures TokenHits(t, data, base, context, 0) == []
  {
  }

  lemma NoFurtherHit(t: Token, data: bytes, base: nat, context: nat, offset: nat, upto: nat)
    requires offset <= upto
    requires forall o :: offset <= o < upto ==> !Occurs(data, t.needle, o)
    ensures TokenHits(t, data, base, context, upto) == TokenHits(t, data, base, context, offset)
  {
    OffsetsSplit(data, t.needle, 0, offset, upto);
    OffsetsSkip(data, t.needle, offset, upto, upto);
    assert Offsets(data, t.needle, offset, upto) == [];
    assert Offsets(data, t.needle, 0, upto) == Offsets(data, t.needle, 0, offset);
  }

  lemma NextHit(t: Token, data: bytes, base: nat, context: nat, offset: nat, m: nat)
    requires offset <= m && Occurs(data, t.needle, m)
    requires forall o :: offset <= o < m ==> !Occurs(data, t.needle, o)
    ensures TokenHits(t, data, base, context, m + 1)
         == TokenHits(t, data, base, context, offset)
          + [HitOf(t, data, base, context, m)]
  {
    NoFurtherHit(t, data, base, context, offset, m);
    OffsetsSplit(data, t.needle, 0, m, m + 1);
    assert Offsets(data, t.needle, m, m + 1) == [m] + Offsets(data, t.needle, m + 1, m + 1);
    HitsAtAppend(t, data, base, context, Offsets(data, t.needle, 0, m), m);
  }

  lemma HitsAtAppend(t: Token, data: bytes, base: nat, context: nat, at: seq<nat>, m: nat)
    ensures HitsAt(t, data, base, context, at + [m])
         == HitsAt(t, data, base, context, at)
          + [HitOf(t, data, base, context, m)]
  {
    assert (at + [m])[..|at|] == at;
  }

  lemma RegionStep(data: bytes, tokens: seq<Token>, context: nat, base: nat, upto: nat, i: nat)
    requires i < |tokens|
    ensures RegionHits(data, tokens[..i + 1], context, base, upto)
         == RegionHits(data, tokens[..i], context, base, upto)
          + TokenHits(tokens[i], data, base, context, upto)
  {
    assert tokens[..i + 1][..i] == tokens[..i];
  }

  /** What has been reported once the first `i` tokens are done and token `i`
      has been searched for starts below `offset`. */
  ghost function Reported(data: bytes, tokens: seq<Token>, context: nat, base: nat, upto: nat, i: nat, offset: nat)
    : seq<LeakHit>
    requires i < |tokens|
  {
    RegionHits(data, tokens[..i], context, base, upto) + TokenHits(tokens[i], data, base, context, offset)
  }

  lemma ReportedStart(data: bytes, tokens: seq<Token>, context: nat, base: nat, upto: nat, i: nat)
    requires i < |tokens|
    ensures Reported(data, tokens, context, base, upto, i, 0) == RegionHits(data, tokens[..i], context, base, upto)
  {
    NoTokenHits(tokens[i], data, base, context);
  }

  lemma ReportedNext(data: bytes, tokens: seq<Token>, context: nat, base: nat, upto: nat, i: nat, offset: nat, m: nat)
    requires i < |tokens|
    requires offset <= m && Occurs(data, tokens[i].needle, m)
    requires forall o :: offset <= o < m ==> !Occurs(data, tokens[i].needle, o)
    ensures Reported(data, tokens, context, base, upto, i, m + 1)
         == Reported(data, tokens, context, base, upto, i, offset) + [HitOf(tokens[i], data, base, context, m)]
  {
    NextHit(tokens[i], data, base, context, offset, m);
  }

  lemma ReportedEnd(data: bytes, tokens: seq<Token>, context: nat, base: nat, upto: nat, i: nat, offset: nat)
    requires i < |tokens| && offset <= upto
    requires forall o :: offset <= o < upto ==> !Occurs(data, tokens[i].needle, o)
    ensures Reported(data, tokens, context, base, upto, i, offset)
         == RegionHits(data, tokens[..i + 1], context, base, upto)
  {
    NoFurtherHit(tokens[i], data, base, context, offset, upto);
    RegionStep(data, tokens, context, base, upto, i);
  }

  method ScanBufferRegion(data: bytes, tokens: seq<Token>, context: nat, base: nat, upto: nat)
    returns (hits: seq<LeakHit>)
    requires TokensOk(tokens) && upto <= |data|
    ensures hits == RegionHits(data, tokens, context, base, upto)
  {
    hits := [];
    for i := 0 to |tokens|
      invariant hits == RegionHits(data, tokens[..i], context, base, upto)
    {
      var t := tokens[i];
      var offset := 0;
      ReportedStart(data, tokens, context, base, upto, i);
      while true
        invariant 0 <= offset <= upto
        invariant hits == Reported(data, tokens, context, base, upto, i, offset)
        decreases upto - offset
      {
        var m := Find(data, t.needle, offset);
        if m < 0 || m >= upto {
          ReportedEnd(data, tokens, context, base, upto, i, offset);
          break;
        }
        ReportedNext(data, tokens, context, base, upto, i, offset, m);
        var hit := HitFromBuffer(t, base + m, data, m, context);
        assert hit == HitOf(t, data, base, context, m);
        hits := hits + [hit];
        offset := m + 1;
      }
    }
    assert tokens[..|tokens|] == tokens;
  }

  /** `_scan_mmap`: the plain search of the whole buffer. */
  method ScanMmap(data: bytes, tokens: seq<Token>, context: nat) returns (hits: seq<LeakHit>)
    requires TokensOk(tokens)
    ensures hits == RegionHits(data, tokens, context, 0, |data|)
  {
    hits := [];
    if |data| == 0 {
      EmptyRegion(data, tokens, context, 0);
      return;
    }
    for i := 0 to |tokens|
      invariant hits == RegionHits(data, tokens[..i], context, 0, |data|)
    {
      var t := tokens[i];
      var offset := 0;
      ReportedStart(data, tokens, context, 0, |data|, i);
      while true
        invariant 0 <= offset <= |data|
        invariant hits == Reported(data, tokens, context, 0, |data|, i, offset)
        decreases |data| - offset
      {
        var m := Find(data, t.needle, offset);
        if m < 0 {
          ReportedEnd(data, tokens, context, 0, |data|, i, offset);
          break;
        }
        ReportedNext(data, tokens, context, 0, |data|, i, offset, m);
        var hit := HitFromBuffer(t, m, data, m, context);
        assert hit == HitOf(t, data, 0, context, m);
        hits := hits + [hit];
        offset := m + 1;
      }
    }
    assert tokens[..|tokens|] == tokens;
  }

  lemma {:induction false} EmptyRegion(data: bytes, tokens: seq<Token>, context: nat, base: nat)
    ensures RegionHits(data, tokens, context, base, 0) == []
  {
    if tokens != [] { EmptyRegion(data, tokens[..|tokens| - 1], context, base); }
  }

  // ---------------------------------------------------------------- what both must report

  /** How many of `hits` name this token at this offset. */
  function Count(hits: seq<LeakHit>, name: string, o: nat): nat {
    if hits == [] then 0
    else
      var last := |hits| - 1;
      Count(hits[..last], name, o) + (if hits[last].token == name && hits[last].offset == o then 1 else 0)
  }

  ghost function HitIndices(hits: seq<LeakHit>, name: string, o: nat): set<int> {
    set i | 0 <= i < |hits| && hits[i].token == name && hits[i].offset == o
  }

  lemma HitIndicesStep(front: seq<LeakHit>, last: LeakHit, name: string, o: nat)
    ensures HitIndices(front + [last], name, o)
      == HitIndices(front, name, o) + (if last.token == name && last.offset == o then {|front|} else {})
  {
  }

  lemma {:induction false} CountIsNumber(hits: seq<LeakHit>, name: string, o: nat)
    ensures Count(hits, name, o) == |HitIndices(hits, name, o)|
  {
    if hits != [] {
      var front, last := hits[..|hits| - 1], hits[|hits| - 1];
      CountIsNumber(front, name, o);
      assert hits == front + [last];
      HitIndicesStep(front, last, name, o);
    }
  }

  /** How many listed tokens of this name occur in `s` at `o`. */
  function Multiplicity(tokens: seq<Token>, s: bytes, name: string, o: int): nat {
    if tokens == [] then 0
    else
      var last := |tokens| - 1;
      Multiplicity(tokens[..last], s, name, o)
      + (if tokens[last].name == name && Occurs(s, tokens[last].needle, o) then 1 else 0)
  }

  /** `hits` reports every occurrence that starts below `upto`, as often as it occurs, and nothing else. */
  ghost predicate ReportsBelow(hits: seq<LeakHit>, tokens: seq<Token>, s: bytes, upto: nat) {
    forall name: string, o: nat ::
      Count(hits, name, o) == if o < upto then Multiplicity(tokens, s, name, o) else 0
  }

  ghost predicate ReportsExactly(hits: seq<LeakHit>, tokens: seq<Token>, s: bytes) {
    forall name: string, o: nat :: Count(hits, name, o) == Multiplicity(tokens, s, name, o)
  }

  lemma {:induction false} CountConcat(a: seq<LeakHit>, b: seq<LeakHit>, name: string, o: nat)
    ensures Count(a + b, name, o) == Count(a, name, o) + Count(b, name, o)
  {
    if b == [] {
      assert a + b == a;
    } else {
      assert (a + b)[..|a + b| - 1] == a + b[..|b| - 1];
      CountConcat(a, b[..|b| - 1], name, o);
    }
  }

  lemma CountSnoc(a: seq<LeakHit>, h: LeakHit, name: string, o: nat)
    ensures Count(a + [h], name, o) == Count(a, name, o) + (if h.token == name && h.offset == o then 1 else 0)
  {
    assert (a + [h])[..|a|] == a;
  }

  lemma {:induction false} CountTokenHits(
    t: Token, data: bytes, base: nat, context: nat, upto: nat, name: string, o: nat)
    ensures Count(TokenHits(t, data, base, context, upto), name, o)
         == if t.name == name && base <= o < base + upto && Occurs(data, t.needle, o - base) then 1 else 0
    decreases upto
  {
    hide TokenHits;
    NoTokenHits(t, data, base, context);
    if upto > 0 {
      var m := upto - 1;
      CountTokenHits(t, data, base, context, m, name, o);
      if Occurs(data, t.needle, m) {
        NextHit(t, data, base, context, m, m);
        CountSnoc(TokenHits(t, data, base, context, m), HitOf(t, data, base, context, m), name, o);
      } else {
        NoFurtherHit(t, data, base, context, m, upto);
      }
    }
  }

  lemma {:induction false} CountRegion(
    data: bytes, tokens: seq<Token>, context: nat, base: nat, upto: nat, name: string, o: nat)
    ensures Count(RegionHits(data, tokens, context, base, upto), name, o)
         == if base <= o < base + upto then Multiplicity(tokens, data, name, o - base) else 0
  {
    if tokens != [] {
      var last := |tokens| - 1;
      CountRegion(data, tokens[..last], context, base, upto, name, o);
      CountConcat(RegionHits(data, tokens[..last], context, base, upto),
                  TokenHits(tokens[last], data, base, context, upto), name, o);
      CountTokenHits(tokens[last], data, base, context, upto, name, o);
    }
  }

  lemma {:induction false} NoOccurrencePastEnd(tokens: seq<Token>, s: bytes, name: string, o: nat)
    requires TokensOk(tokens) && |s| <= o
    ensures Multiplicity(tokens, s, name, o) == 0
  {
    if tokens != [] { NoOccurrencePastEnd(tokens[..|tokens| - 1], s, name, o); }
  }

  /** The whole-buffer scan reports each occurrence exactly as often as it occurs. */
  lemma WholeScanIsExact(s: bytes, tokens: seq<Token>, context: nat)
    requires TokensOk(tokens)
    ensures ReportsExactly(RegionHits(s, tokens, context, 0, |s|), tokens, s)
  {
    forall name: string, o: nat
      ensures Count(RegionHits(s, tokens, context, 0, |s|), name, o) == Multiplicity(tokens, s, name, o)
    {
      CountRegion(s, tokens, context, 0, |s|, name, o);
      if |s| <= o { NoOccurrencePastEnd(tokens, s, name, o); }
    }
  }

  /** When token names are distinct, as in a set of tokens, an occurrence counts once. */
  lemma {:induction false} DistinctNamesOccurOnce(tokens: seq<Token>, s: bytes, i: nat, o: nat)
    requires i < |tokens|
    requires forall j, k :: 0 <= j < k < |tokens| ==> tokens[j].name != tokens[k].name
    ensures Multiplicity(tokens, s, tokens[i].name, o) == if Occurs(s, tokens[i].needle, o) then 1 else 0
  {
    var last := |tokens| - 1;
    if i < last {
      DistinctNamesOccurOnce(tokens[..last], s, i, o);
    } else {
      UnknownNameOccursNever(tokens[..last], s, tokens[i].name, o);
    }
  }

  lemma {:induction false} UnknownNameOccursNever(tokens: seq<Token>, s: bytes, name: string, o: nat)
    requires forall j :: 0 <= j < |tokens| ==> tokens[j].name != name
    ensures Multiplicity(tokens, s, name, o) == 0
  {
    if tokens != [] { UnknownNameOccursNever(tokens[..|tokens| - 1], s, name, o); }
  }

  // ---------------------------------------------------------------- the stream

  function Concat(chunks: seq<bytes>): bytes {
    if chunks == [] then [] else Concat(chunks[..|chunks| - 1]) + chunks[|chunks| - 1]
  }

  function MaxNeedle(tokens: seq<Token>): (r: nat)
    ensures forall i :: 0 <= i < |tokens| ==> |tokens[i].needle| <= r
  {
    if tokens == [] then 0 else Max(MaxNeedle(tokens[..|tokens| - 1]), |tokens[|tokens| - 1].needle|)
  }

  /** What is held back is no longer than the longest token asks for. */
  lemma {:induction false} MaxNeedleIsLength(tokens: seq<Token>)
    ensures tokens == [] ==> MaxNeedle(tokens) == 0
    ensures tokens != [] ==> exists i :: 0 <= i < |tokens| && MaxNeedle(tokens) == |tokens[i].needle|
  {
    if tokens != [] {
      var last := |tokens| - 1;
      MaxNeedleIsLength(tokens[..last]);
      if MaxNeedle(tokens) != |tokens[last].needle| && last > 0 {
        var i :| 0 <= i < last && MaxNeedle(tokens[..last]) == |tokens[..last][i].needle|;
        assert MaxNeedle(tokens) == |tokens[i].needle|;
      }
    }
  }

  lemma {:induction false} ConcatJoins(a: seq<bytes>, b: seq<bytes>)
    ensures Concat(a + b) == Concat(a) + Concat(b)
    ensures |b| == 1 ==> Concat(b) == b[0]
  {
    if b == [] {
      assert a + b == a;
    } else {
      assert (a + b)[..|a + b| - 1] == a + b[..|b| - 1];
      ConcatJoins(a, b[..|b| - 1]);
    }
  }

  /** `data[-keep:] if keep else b""` */
  function LastBytes(data: bytes, keep: nat): (r: bytes)
    ensures |r| == Min(keep, |data|)
  {
    if keep == 0 then [] else if |data| <= keep then data else data[|data| - keep..]
  }

  lemma SliceOfSlice<T>(s: seq<T>, base: nat, len: nat, a: nat, b: nat)
    requires a <= b <= len && base + len <= |s|
    ensures s[base..base + len][a..b] == s[base + a..base + b]
  {
    var x, y := s[base..base + len][a..b], s[base + a..base + b];
    assert forall k :: 0 <= k < b - a ==> x[k] == y[k];
  }

  /** A window of the stream sees exactly the occurrences that fit inside it. */
  lemma OccursInWindow(s: bytes, needle: bytes, base: nat, len: nat, rel: nat)
    requires base + len <= |s|
    requires rel + |needle| <= len || base + len == |s|
    ensures Occurs(s[base..base + len], needle, rel) <==> Occurs(s, needle, base + rel)
  {
    if rel + |needle| <= len {
      SliceOfSlice(s, base, len, rel, rel + |needle|);
    }
  }

  lemma {:induction false} MultiplicityInWindow(
    tokens: seq<Token>, s: bytes, base: nat, len: nat, rel: nat, name: string, longest: nat)
    requires base + len <= |s|
    requires forall i :: 0 <= i < |tokens| ==> |tokens[i].needle| <= longest
    requires rel + longest <= len || base + len == |s|
    ensures Multiplicity(tokens, s[base..base + len], name, rel) == Multiplicity(tokens, s, name, base + rel)
  {
    if tokens != [] {
      var last := |tokens| - 1;
      MultiplicityInWindow(tokens[..last], s, base, len, rel, name, longest);
      OccursInWindow(s, tokens[last].needle, base, len, rel);
    }
  }

  /** One round: scanning a window for starts below `upto` extends the report from
      `base` to `base + upto`. */
  lemma RoundExtendsReport(
    hits: seq<LeakHit>, tokens: seq<Token>, s: bytes, context: nat, base: nat, len: nat, upto: nat)
    requires base + len <= |s| && upto <= len
    requires upto == 0 || upto + MaxNeedle(tokens) <= len || base + len == |s|
    requires ReportsBelow(hits, tokens, s, base)
    ensures ReportsBelow(hits + RegionHits(s[base..base + len], tokens, context, base, upto), tokens, s, base + upto)
  {
    hide RegionHits;
    hide Multiplicity;
    hide Count;
    var region := RegionHits(s[base..base + len], tokens, context, base, upto);
    forall name: string, o: nat
      ensures Count(hits + region, name, o) == if o < base + upto then Multiplicity(tokens, s, name, o) else 0
    {
      CountConcat(hits, region, name, o);
      CountRegion(s[base..base + len], tokens, context, base, upto, name, o);
      if base <= o < base + upto {
        MultiplicityInWindow(tokens, s, base, len, o - base, name, MaxNeedle(tokens));
      }
    }
  }

  // ---------------------------------------------------------------- context of a streamed hit

  /** The hit shows the whole-buffer context of token `t`, except that bytes to the
      left of position `lo` (at or before the token) are cut off. */
  ghost predicate ShowsFrom(hit: LeakHit, t: Token, s: bytes, context: nat, lo: nat) {
    && hit.token == t.name && Occurs(s, t.needle, hit.offset)
    && Max(0, hit.offset - context) <= lo <= hit.offset
    && hit.context == Printable(Slice(s, lo, Min(|s|, hit.offset + |t.needle| + context)))
  }

  ghost predicate Shows(hit: LeakHit, tokens: seq<Token>, s: bytes, context: nat) {
    exists i, lo: nat :: 0 <= i < |tokens| && ShowsFrom(hit, tokens[i], s, context, lo)
  }

  ghost predicate AllShow(hits: seq<LeakHit>, tokens: seq<Token>, s: bytes, context: nat) {
    forall k :: 0 <= k < |hits| ==> Shows(hits[k], tokens, s, context)
  }

  lemma WindowHitShows(t: Token, s: bytes, base: nat, len: nat, context: nat, rel: nat)
    requires base + len <= |s|
    requires rel + |t.needle| + context <= len || base + len == |s|
    requires Occurs(s[base..base + len], t.needle, rel)
    ensures ShowsFrom(HitOf(t, s[base..base + len], base, context, rel), t, s, context,
                      base + Max(0, rel - context))
  {
    hide Printable;
    OccursInWindow(s, t.needle, base, len, rel);
    var w := s[base..base + len];
    var a, b := Max(0, rel - context), Min(len, rel + |t.needle| + context);
    SliceOfSlice(s, base, len, a, b);
  }

  lemma {:induction false} TokenHitsShow(
    tokens: seq<Token>, i: nat, s: bytes, base: nat, len: nat, context: nat, upto: nat)
    requires i < |tokens| && base + len <= |s| && upto <= len
    requires upto == 0 || upto + |tokens[i].needle| + context <= len || base + len == |s|
    ensures AllShow(TokenHits(tokens[i], s[base..base + len], base, context, upto), tokens, s, context)
    decreases upto
  {
    hide TokenHits;
    hide HitOf;
    hide ShowsFrom;
    var w := s[base..base + len];
    NoTokenHits(tokens[i], w, base, context);
    if upto > 0 {
      var m := upto - 1;
      TokenHitsShow(tokens, i, s, base, len, context, m);
      if Occurs(w, tokens[i].needle, m) {
        NextHit(tokens[i], w, base, context, m, m);
        WindowHitShows(tokens[i], s, base, len, context, m);
      } else {
        NoFurtherHit(tokens[i], w, base, context, m, upto);
      }
    }
  }

  lemma {:induction false} RegionHitsShow(
    tokens: seq<Token>, n: nat, s: bytes, base: nat, len: nat, context: nat, upto: nat)
    requires n <= |tokens| && base + len <= |s| && upto <= len
    requires upto == 0 || upto + MaxNeedle(tokens) + context <= len || base + len == |s|
    ensures AllShow(RegionHits(s[base..base + len], tokens[..n], context, base, upto), tokens, s, context)
  {
    if n > 0 {
      RegionHitsShow(tokens, n - 1, s, base, len, context, upto);
      TokenHitsShow(tokens, n - 1, s, base, len, context, upto);
      RegionStep(s[base..base + len], tokens, context, base, upto, n - 1);
    }
  }

  /** The whole-buffer scan reports each occurrence with its full context. */
  lemma {:induction false} WholeScanHit(tokens: seq<Token>, i: nat, s: bytes, context: nat, o: nat)
    requires i < |tokens| && Occurs(s, tokens[i].needle, o) && tokens[i].needle != []
    ensures HitOf(tokens[i], s, 0, context, o) in RegionHits(s, tokens, context, 0, |s|)
  {
    hide TokenHits;
    hide HitOf;
    var last := |tokens| - 1;
    if i < last {
      WholeScanHit(tokens[..last], i, s, context, o);
    } else {
      TokenHitReported(tokens[i], s, context, o, |s|);
    }
  }

  lemma {:induction false} TokenHitReported(t: Token, s: bytes, context: nat, o: nat, upto: nat)
    requires Occurs(s, t.needle, o) && o < upto
    ensures HitOf(t, s, 0, context, o) in TokenHits(t, s, 0, context, upto)
    decreases upto
  {
    hide TokenHits;
    hide HitOf;
    var m := upto - 1;
    if Occurs(s, t.needle, m) {
      NextHit(t, s, 0, context, m, m);
    } else {
      NoFurtherHit(t, s, 0, context, m, upto);
    }
    if o < m { TokenHitReported(t, s, context, o, m); }
  }

  ghost predicate IsSuffix(a: string, b: string) {
    |a| <= |b| && b[|b| - |a|..] == a
  }

  lemma {:induction false} PrintableSuffix(s: bytes, a: nat, b: nat, c: nat)
    requires a <= b <= c <= |s|
    ensures IsSuffix(Printable(s[b..c]), Printable(s[a..c]))
  {
    PrintableConcat(s[a..b], s[b..c]);
    assert s[a..b] + s[b..c] == s[a..c];
  }

  /** The whole-buffer scan reports the same hit with a context of which the streamed
      one is a suffix; the token and everything to its right are complete. */
  ghost predicate TrimmedOnLeft(hit: LeakHit, t: Token, s: bytes, context: nat, whole: seq<LeakHit>) {
    var full := HitOf(t, s, 0, context, hit.offset);
    && full in whole && hit.token == full.token && Occurs(s, t.needle, hit.offset)
    && IsSuffix(hit.context, full.context)
    && IsSuffix(Printable(s[hit.offset..Min(|s|, hit.offset + |t.needle| + context)]), hit.context)
  }

  lemma FullContext(t: Token, s: bytes, context: nat, o: nat)
    requires Occurs(s, t.needle, o) && t.needle != []
    ensures HitOf(t, s, 0, context, o)
         == LeakHit(t.name, o, Printable(s[Max(0, o - context)..Min(|s|, o + |t.needle| + context)]))
  {
    hide Printable;
  }

  lemma ShownContext(hit: LeakHit, t: Token, s: bytes, context: nat, lo: nat)
    requires ShowsFrom(hit, t, s, context, lo) && t.needle != []
    ensures Max(0, hit.offset - context) <= lo <= hit.offset < Min(|s|, hit.offset + |t.needle| + context)
    ensures hit.token == t.name && Occurs(s, t.needle, hit.offset)
    ensures hit.context == Printable(s[lo..Min(|s|, hit.offset + |t.needle| + context)])
  {
    hide Printable;
  }

  lemma ShownToken(hit: LeakHit, t: Token, s: bytes, context: nat, lo: nat)
    requires ShowsFrom(hit, t, s, context, lo)
    ensures Occurs(s, t.needle, hit.offset)
  {
  }

  lemma StreamedContextIsSuffix(hit: LeakHit, tokens: seq<Token>, s: bytes, context: nat)
    requires TokensOk(tokens) && Shows(hit, tokens, s, context)
    ensures exists i ::
      0 <= i < |tokens| && TrimmedOnLeft(hit, tokens[i], s, context, RegionHits(s, tokens, context, 0, |s|))
  {
    var i, lo: nat :| 0 <= i < |tokens| && ShowsFrom(hit, tokens[i], s, context, lo);
    hide RegionHits;
    hide HitOf;
    hide TrimmedOnLeft;
    ShownToken(hit, tokens[i], s, context, lo);
    hide ShowsFrom;
    WholeScanHit(tokens, i, s, context, hit.offset);
    ShownIsTrimmed(hit, tokens[i], s, context, lo, RegionHits(s, tokens, context, 0, |s|));
  }

  lemma ShownIsTrimmed(hit: LeakHit, t: Token, s: bytes, context: nat, lo: nat, whole: seq<LeakHit>)
    requires ShowsFrom(hit, t, s, context, lo) && t.needle != []
    requires HitOf(t, s, 0, context, hit.offset) in whole
    ensures TrimmedOnLeft(hit, t, s, context, whole)
  {
    hide Printable;
    hide IsSuffix;
    hide HitOf;
    hide ShowsFrom;
    hide TrimmedOnLeft;
    hide Occurs;
    ShownContext(hit, t, s, context, lo);
    FullContext(t, s, context, hit.offset);
    ContextsNest(s, Max(0, hit.offset - context), lo, hit.offset, Min(|s|, hit.offset + |t.needle| + context));
    TrimmedParts(hit, t, s, context, whole);
  }

  lemma ContextsNest(s: bytes, start: nat, lo: nat, o: nat, end: nat)
    requires start <= lo <= o <= end <= |s|
    ensures IsSuffix(Printable(s[lo..end]), Printable(s[start..end]))
    ensures IsSuffix(Printable(s[o..end]), Printable(s[lo..end]))
  {
    PrintableSuffix(s, start, lo, end);
    PrintableSuffix(s, lo, o, end);
  }

  lemma TrimmedParts(hit: LeakHit, t: Token, s: bytes, context: nat, whole: seq<LeakHit>)
    requires Occurs(s, t.needle, hit.offset) && HitOf(t, s, 0, context, hit.offset) in whole
    requires hit.token == HitOf(t, s, 0, context, hit.offset).token
    requires IsSuffix(hit.context, HitOf(t, s, 0, context, hit.offset).context)
    requires IsSuffix(Printable(s[hit.offset..Min(|s|, hit.offset + |t.needle| + context)]), hit.context)
    ensures TrimmedOnLeft(hit, t, s, context, whole)
  {
    hide HitOf;
    hide IsSuffix;
    hide Printable;
  }

  // ---------------------------------------------------------------- the streaming scan

  /** `pending` is the last `keep` bytes of the stream read so far and starts at `base`. */
  ghost predicate HoldsTail(pending: bytes, base: nat, keep: nat, chunks: seq<bytes>, k: nat)
    requires k <= |chunks|
  {
    var read, s := Concat(chunks[..k]), Concat(chunks);
    && pending == LastBytes(read, keep) && base + |pending| == |read| <= |s|
    && pending == s[base..base + |pending|]
  }

  lemma LastBytesAppend(read: bytes, chunk: bytes, keep: nat)
    ensures LastBytes(LastBytes(read, keep) + chunk, keep) == LastBytes(read + chunk, keep)
  {
    if keep == 0 {
    } else if |read| <= keep {
    } else {
      var cut := |read| - keep;
      assert LastBytes(read, keep) == read[cut..];
      assert (read + chunk)[cut..] == read[cut..] + chunk;
      assert (read + chunk)[|read + chunk| - keep..] == (read + chunk)[cut..][|chunk|..];
    }
  }

  lemma LastBytesIsSuffix(data: bytes, keep: nat)
    ensures LastBytes(data, keep) == data[|data| - |LastBytes(data, keep)|..]
  {
  }

  lemma ReadStep(pending: bytes, base: nat, keep: nat, chunks: seq<bytes>, k: nat)
    requires k < |chunks| && HoldsTail(pending, base, keep, chunks, k)
    ensures var data, s := pending + chunks[k], Concat(chunks);
      && base + |data| <= |s| && data == s[base..base + |data|]
      && HoldsTail(LastBytes(data, keep), base + |data| - |LastBytes(data, keep)|, keep, chunks, k + 1)
      && LastBytes(data, keep) == LastBytes(Concat(chunks[..k + 1]), keep)
  {
    hide LastBytes;
    hide Concat;
    var read, read', s := Concat(chunks[..k]), Concat(chunks[..k + 1]), Concat(chunks);
    var data := pending + chunks[k];
    assert read' == read + chunks[k] by { ConcatStep(chunks, k); }
    assert read' <= s by { PrefixOfStream(chunks, k + 1); }
    assert read' == s[..|read'|];
    assert data == s[base..base + |data|];
    LastBytesAppend(read, chunks[k], keep);
    LastBytesIsSuffix(data, keep);
  }

  lemma AllRead(pending: bytes, base: nat, keep: nat, chunks: seq<bytes>)
    requires HoldsTail(pending, base, keep, chunks, |chunks|)
    ensures base + |pending| == |Concat(chunks)| && pending == Concat(chunks)[base..base + |pending|]
  {
    assert chunks[..|chunks|] == chunks;
  }

  lemma ConcatStep(chunks: seq<bytes>, k: nat)
    requires k < |chunks|
    ensures Concat(chunks[..k + 1]) == Concat(chunks[..k]) + chunks[k]
  {
    assert chunks[..k + 1][..k] == chunks[..k];
  }

  /** `_scan_stream`.  `held[k]` records what is held back after the k-th read. */
  method ScanStream(chunks: seq<bytes>, tokens: seq<Token>, context: nat)
    returns (hits: seq<LeakHit>, ghost held: seq<bytes>)
    requires TokensOk(tokens)
    requires forall k :: 0 <= k < |chunks| ==> chunks[k] != []
    ensures ReportsExactly(hits, tokens, Concat(chunks))
    ensures AllShow(hits, tokens, Concat(chunks), context)
    ensures |held| == |chunks|
    ensures forall k :: 0 <= k < |held| ==>
      held[k] == LastBytes(Concat(chunks[..k + 1]), MaxNeedle(tokens) + context)
  {
    hide RegionHits;
    hide ReportsBelow;
    hide ReportsExactly;
    hide AllShow;
    hide HoldsTail;
    hide Concat;
    ghost var s := Concat(chunks);
    var keep := MaxNeedle(tokens) + context;
    var pending: bytes := [];
    var base: nat := 0;
    hits, held := [], [];
    NothingRead(chunks, keep);
    StartReport(tokens, s, context);
    for k := 0 to |chunks|
      invariant HoldsTail(pending, base, keep, chunks, k)
      invariant ReportsBelow(hits, tokens, s, base)
      invariant AllShow(hits, tokens, s, context)
      invariant |held| == k
      invariant forall j :: 0 <= j < k ==> held[j] == LastBytes(Concat(chunks[..j + 1]), keep)
    {
      ReadStep(pending, base, keep, chunks, k);
      var data := pending + chunks[k];
      var upto := Max(0, |data| - keep);
      var found := ScanBufferRegion(data, tokens, context, base, upto);
      RoundReport(hits, tokens, s, context, base, data, upto);
      hits := hits + found;
      pending := LastBytes(data, keep);
      base := base + |data| - |pending|;
      held := held + [pending];
    }
    AllRead(pending, base, keep, chunks);
    var rest := ScanBufferRegion(pending, tokens, context, base, |pending|);
    RoundReport(hits, tokens, s, context, base, pending, |pending|);
    hits := hits + rest;
    ReportIsComplete(hits, tokens, s);
  }

  lemma RoundReport(
    hits: seq<LeakHit>, tokens: seq<Token>, s: bytes, context: nat, base: nat, data: bytes, upto: nat)
    requires base + |data| <= |s| && data == s[base..base + |data|] && upto <= |data|
    requires upto == 0 || upto + MaxNeedle(tokens) + context <= |data| || base + |data| == |s|
    requires ReportsBelow(hits, tokens, s, base) && AllShow(hits, tokens, s, context)
    ensures ReportsBelow(hits + RegionHits(data, tokens, context, base, upto), tokens, s, base + upto)
    ensures AllShow(hits + RegionHits(data, tokens, context, base, upto), tokens, s, context)
  {
    hide RegionHits;
    hide ReportsBelow;
    hide Shows;
    RoundExtendsReport(hits, tokens, s, context, base, |data|, upto);
    RegionHitsShow(tokens, |tokens|, s, base, |data|, context, upto);
    assert tokens[..|tokens|] == tokens;
  }

  lemma NothingRead(chunks: seq<bytes>, keep: nat)
    ensures HoldsTail([], 0, keep, chunks, 0)
  {
    assert chunks[..0] == [];
  }

  lemma StartReport(tokens: seq<Token>, s: bytes, context: nat)
    ensures ReportsBelow([], tokens, s, 0) && AllShow([], tokens, s, context)
  {
  }

  lemma ReportIsComplete(hits: seq<LeakHit>, tokens: seq<Token>, s: bytes)
    requires TokensOk(tokens) && ReportsBelow(hits, tokens, s, |s|)
    ensures ReportsExactly(hits, tokens, s)
  {
    forall name: string, o: nat
      ensures Count(hits, name, o) == Multiplicity(tokens, s, name, o)
    {
      if |s| <= o { NoOccurrencePastEnd(tokens, s, name, o); }
    }
  }

  lemma {:induction false} PrefixOfStream(chunks: seq<bytes>, k: nat)
    requires k <= |chunks|
    ensures Concat(chunks[..k]) <= Concat(chunks)
  {
    if k == |chunks| {
      assert chunks[..k] == chunks;
    } else {
      var front := chunks[..|chunks| - 1];
      PrefixOfStream(front, k);
      assert front[..k] == chunks[..k];
    }
  }

  /** However a buffer is cut into chunks, the stream scan and the whole-buffer scan
      report the same (token, offset) pairs equally often. */
  method ScanBothWays(chunks: seq<bytes>, tokens: seq<Token>, context: nat)
    returns (streamed: seq<LeakHit>, whole: seq<LeakHit>)
    requires TokensOk(tokens)
    requires forall k :: 0 <= k < |chunks| ==> chunks[k] != []
    ensures whole == RegionHits(Concat(chunks), tokens, context, 0, |Concat(chunks)|)
    ensures forall name: string, o: nat :: Count(streamed, name, o) == Count(whole, name, o)
    ensures forall k :: 0 <= k < |streamed| ==>
      exists i :: 0 <= i < |tokens| && TrimmedOnLeft(streamed[k], tokens[i], Concat(chunks), context, whole)
  {
    ghost var held;
    streamed, held := ScanStream(chunks, tokens, context);
    whole := ScanMmap(Concat(chunks), tokens, context);
    WholeScanIsExact(Concat(chunks), tokens, context);
    forall k | 0 <= k < |streamed|
      ensures exists i :: 0 <= i < |tokens| && TrimmedOnLeft(streamed[k], tokens[i], Concat(chunks), context, whole)
    {
      StreamedContextIsSuffix(streamed[k], tokens, Concat(chunks), context);
    }
  }
}
