/** Parsing and serializing undo each other. */
module JsonRoundTrip {
  import opened Bytes
  import opened Json
  import opened Wrappers

  ghost predicate At(t: seq<u8>, p: nat, s: seq<u8>) {
    p + |s| <= |t| && t[p..p + |s|] == s
  }

  lemma AtConcat(t: seq<u8>, p: nat, a: seq<u8>, b: seq<u8>)
    requires At(t, p, a + b)
    ensures At(t, p, a) && At(t, p + |a|, b)
  {
    var s := a + b;
    assert a == s[..|a|] && b == s[|a|..];
    assert t[p..p + |a|] == t[p..p + |s|][..|a|];
    assert t[p + |a|..p + |s|] == t[p..p + |s|][|a|..];
  }

  lemma AtByte(t: seq<u8>, p: nat, s: seq<u8>)
    requires At(t, p, s) && s != []
    ensures t[p] == s[0]
  {
    assert t[p..p + |s|][0] == t[p];
  }

  // ---- Parsing a serialized tree

  lemma EscapedCons(s: CString)
    requires s != []
    ensures var first := if Special(s[0]) then [BACKSLASH, s[0] as u8] else [s[0] as u8];
            Escaped(s) + [QUOTE] == first + (Escaped(s[1..]) + [QUOTE])
  {}

  lemma {:induction false} CharsRoundTrip(t: seq<u8>, p: nat, s: CString)
    requires At(t, p, Escaped(s) + [QUOTE])
    ensures ParseChars(t, p) == Some((s, p + |Escaped(s)| + 1))
    decreases |s|
  {
    if s == [] {
      AtByte(t, p, [QUOTE]);
    } else {
      var first := if Special(s[0]) then [BACKSLASH, s[0] as u8] else [s[0] as u8];
      EscapedCons(s);
      AtConcat(t, p, first, Escaped(s[1..]) + [QUOTE]);
      hide Escaped;
      assert t[p..p + |first|][|first| - 1] == s[0];
      AtByte(t, p, first);
      hide At;
      CharsRoundTrip(t, p + |first|, s[1..]);
      assert s == [s[0]] + s[1..];
    }
  }

  lemma StringRoundTrip(t: seq<u8>, p: nat, s: CString)
    requires At(t, p, StringText(s))
    ensures ParseString(t, p) == Some((s, p + |StringText(s)|))
    ensures t[p] == QUOTE
  {
    assert StringText(s) == [QUOTE] + (Escaped(s) + [QUOTE]);
    AtConcat(t, p, [QUOTE], Escaped(s) + [QUOTE]);
    AtByte(t, p, [QUOTE]);
    CharsRoundTrip(t, p + 1, s);
  }

  lemma NextDigit(t: seq<u8>, p: nat, front: u64, n: u64)
    requires p < |t| && t[p] == ZERO + n % 10 && front == n / 10
    ensures ParseDigits(t, p, front) == ParseDigits(t, p + 1, n)
  {
    var next := front * 10 + (t[p] - ZERO);
    assert next == n && next % TWO64 == n;
  }

  lemma {:induction false} DigitsRoundTrip(t: seq<u8>, p: nat, n: u64)
    requires At(t, p, Digits(n))
    ensures ParseDigits(t, p, 0) == ParseDigits(t, p + |Digits(n)|, n)
    decreases n
  {
    if n != 0 {
      hide ParseDigits;
      var front, digit := n / 10, n % 10;
      AtConcat(t, p, Digits(front), [ZERO + digit]);
      DigitsRoundTrip(t, p, front);
      var at := p + |Digits(front)|;
      AtByte(t, at, [ZERO + digit]);
      NextDigit(t, at, front, n);
    }
  }

  lemma NumberRoundTrip(t: seq<u8>, p: nat, n: u64)
    requires At(t, p, NumberText(n))
    requires var end := p + |NumberText(n)|; end < |t| && !IsDigit(t[end])
    ensures ParseNumber(t, p) == Some((Number(n), p + |NumberText(n)|)) && IsDigit(t[p])
  {
    FirstDigit(n);
    AtByte(t, p, NumberText(n));
    if n == 0 {
      assert ParseDigits(t, p, 0) == ParseDigits(t, p + 1, 0);
    } else {
      DigitsRoundTrip(t, p, n);
    }
  }

  lemma {:induction false} FirstDigit(n: nat)
    ensures IsDigit(NumberText(n)[0])
    decreases n
  {
    if n >= 10 {
      FirstDigit(n / 10);
    } else {
      OneDigit(n);
    }
  }

  lemma OneDigit(n: nat)
    requires n < 10
    ensures NumberText(n) == [ZERO + n]
  {
    assert n > 0 ==> Digits(n) == Digits(0) + [ZERO + n];
  }

  lemma BooleanRoundTrip(t: seq<u8>, p: nat, b: bool)
    requires At(t, p, Text(Boolean(b))) && p + |Text(Boolean(b))| < |t|
    ensures ParseValue(t, p) == Some((Boolean(b), p + |Text(Boolean(b))|))
  {
    AtByte(t, p, Text(Boolean(b)));
    if !b {
      assert t[p..p + 4][0] != TRUE[0];
    }
  }

  /** A value's text, followed by a byte that does not extend it, parses to the value. */
  lemma {:induction false} ValueRoundTrip(t: seq<u8>, p: nat, v: Value)
    requires At(t, p, Text(v))
    requires v.Object? || (p + |Text(v)| < |t| && !IsDigit(t[p + |Text(v)|]))
    ensures ParseValue(t, p) == Some((v, p + |Text(v)|))
    decreases v, 1
  {
    match v
    case String(s) => StringRoundTrip(t, p, s);
    case Number(n) => NumberRoundTrip(t, p, n);
    case Boolean(b) => BooleanRoundTrip(t, p, b);
    case Object(pairs) =>
      ObjectRoundTrip(t, p, pairs);
      AtByte(t, p, Text(v));
      ObjectIsParsed(t, p);
  }

  /** What begins with a brace is parsed as an object. */
  lemma ObjectIsParsed(t: seq<u8>, p: nat)
    requires p < |t| && t[p] == OPEN
    ensures ParseValue(t, p) == ParseObject(t, p)
  {
    hide ParseObject;
    if p + 5 <= |t| {
      assert t[p..p + 4][0] != TRUE[0] && t[p..p + 5][0] != FALSE[0];
    }
  }

  lemma {:induction false} ObjectRoundTrip(t: seq<u8>, p: nat, pairs: seq<Pair>)
    requires At(t, p, [OPEN] + PairsText(pairs))
    ensures ParseObject(t, p) == Some((Object(pairs), p + 1 + |PairsText(pairs)|))
    decreases pairs, 1
  {
    hide StringText, Text, At, PairsText, ParsePairs;
    AtConcat(t, p, [OPEN], PairsText(pairs));
    AtByte(t, p, [OPEN]);
    OpensWithQuote(pairs);
    AtByte(t, p + 1, PairsText(pairs));
    if pairs != [] {
      PairsRoundTrip(t, p + 1, pairs);
    }
  }

  lemma OpensWithQuote(pairs: seq<Pair>)
    ensures PairsText(pairs)[0] == if pairs == [] then CLOSE else QUOTE
    ensures pairs == [] ==> |PairsText(pairs)| == 1
  {}

  lemma PairTextIs(pair: Pair)
    ensures PairText(pair) == StringText(pair.key) + ([COLON] + Text(pair.value))
  {
    hide Text, StringText;
    assert StringText(pair.key) + [COLON] + Text(pair.value) == StringText(pair.key) + ([COLON] + Text(pair.value));
  }

  lemma PairAt(t: seq<u8>, p: nat, pair: Pair) returns (p1: nat)
    requires At(t, p, PairText(pair))
    ensures At(t, p, StringText(pair.key)) && p1 == p + |StringText(pair.key)| < |t|
    ensures t[p1] == COLON && At(t, p1 + 1, Text(pair.value))
    ensures p1 + 1 + |Text(pair.value)| == p + |PairText(pair)|
  {
    hide Text, PairText, StringText;
    var key, value := StringText(pair.key), Text(pair.value);
    PairTextIs(pair);
    AtConcat(t, p, key, [COLON] + value);
    AtConcat(t, p + |key|, [COLON], value);
    AtByte(t, p + |key|, [COLON]);
    p1 := p + |key|;
  }

  /** A pair's text is followed by a comma and more pairs, or by the closing brace. */
  lemma PairsAt(t: seq<u8>, p: nat, pairs: seq<Pair>) returns (p2: nat)
    requires At(t, p, PairsText(pairs)) && pairs != []
    ensures At(t, p, PairText(pairs[0])) && p2 == p + |PairText(pairs[0])| < |t|
    ensures |pairs| > 1 ==> t[p2] == COMMA && p2 + 1 < |t| && At(t, p2 + 1, PairsText(pairs[1..]))
    ensures |pairs| > 1 ==> p + |PairsText(pairs)| == p2 + 1 + |PairsText(pairs[1..])|
    ensures |pairs| == 1 ==> t[p2] == CLOSE && p + |PairsText(pairs)| == p2 + 1
  {
    var pair, rest := PairText(pairs[0]), PairsText(pairs[1..]);
    var behind := (if |pairs| > 1 then [COMMA] else []) + rest;
    assert PairsText(pairs) == pair + behind;
    assert |pairs| == 1 ==> pairs[1..] == [] && behind == [CLOSE];
    assert |pairs| > 1 ==> behind == [COMMA] + rest && behind[0] == COMMA;
    hide PairText, PairsText, At;
    AtConcat(t, p, pair, behind);
    p2 := p + |pair|;
    AtByte(t, p2, behind);
    if |pairs| > 1 { AtConcat(t, p2, [COMMA], rest); }
  }

  /** One iteration of the pair loop. */
  lemma ParseOnePair(t: seq<u8>, p: nat, p1: nat, p2: nat, pair: Pair)
    requires ParseString(t, p) == Some((pair.key, p1)) && p1 < p2 < |t|
    requires t[p1] == COLON && ParseValue(t, p1 + 1) == Some((pair.value, p2))
    ensures t[p2] == CLOSE ==> ParsePairs(t, p) == Some(([pair], p2 + 1))
    ensures t[p2] == COMMA && p2 + 1 < |t| && ParsePairs(t, p2 + 1).Some? ==>
              ParsePairs(t, p) == Some(([pair] + ParsePairs(t, p2 + 1).value.0, ParsePairs(t, p2 + 1).value.1))
  {
    hide ParseString, ParseValue;
  }

  lemma {:induction false} PairRoundTrip(t: seq<u8>, p: nat, pair: Pair) returns (p1: nat)
    requires At(t, p, PairText(pair))
    requires var p2 := p + |PairText(pair)|; p2 < |t| && !IsDigit(t[p2])
    ensures p < p1 < p + |PairText(pair)| && t[p1] == COLON
    ensures ParseString(t, p) == Some((pair.key, p1))
    ensures ParseValue(t, p1 + 1) == Some((pair.value, p + |PairText(pair)|))
    decreases pair, 0
  {
    hide At, Text, PairText, PairsText, StringText, ParseValue, ParseString, ParsePairs;
    p1 := PairAt(t, p, pair);
    StringRoundTrip(t, p, pair.key);
    ValueRoundTrip(t, p1 + 1, pair.value);
  }

  lemma {:induction false} PairsRoundTrip(t: seq<u8>, p: nat, pairs: seq<Pair>)
    requires At(t, p, PairsText(pairs)) && pairs != []
    ensures ParsePairs(t, p) == Some((pairs, p + |PairsText(pairs)|))
    decreases pairs, 0
  {
    hide At, Text, PairText, PairsText, StringText, ParseValue, ParseString, ParsePairs;
    var p2 := PairsAt(t, p, pairs);
    var p1 := PairRoundTrip(t, p, pairs[0]);
    ParseOnePair(t, p, p1, p2, pairs[0]);
    if |pairs| > 1 {
      PairsRoundTrip(t, p2 + 1, pairs[1..]);
      assert pairs == [pairs[0]] + pairs[1..];
    } else {
      assert pairs == [pairs[0]];
    }
  }

  /** Every object survives serialization and parsing: pair order, duplicate keys, every string and number. */
  lemma ParseUndoesText(v: Value, suffix: seq<u8>)
    requires v.Object?
    ensures Parse(Text(v) + suffix) == Some(v)
  {
    assert (Text(v) + suffix)[0..|Text(v)|] == Text(v);
    ObjectRoundTrip(Text(v) + suffix, 0, v.pairs);
  }

  // ---- Serializing a parsed tree

  lemma {:induction false} CharsFit(t: seq<u8>, p: nat)
    requires ParseChars(t, p).Some?
    ensures var (s, end) := ParseChars(t, p).value; |Escaped(s)| + 1 <= end - p
    decreases |t| - p
  {
    if t[p] != QUOTE {
      var q := if t[p] == BACKSLASH then p + 1 else p;
      CharsFit(t, q + 1);
      var (s, end) := ParseChars(t, p).value;
      assert s[1..] == ParseChars(t, q + 1).value.0;
    }
  }

  lemma StringFits(t: seq<u8>, p: nat)
    requires ParseString(t, p).Some?
    ensures var (s, end) := ParseString(t, p).value; |StringText(s)| <= end - p
  {
    CharsFit(t, FirstInk(t, p) + 1);
  }

  lemma {:induction false} SmallerIsShorter(a: nat, b: nat)
    requires a <= b
    ensures |NumberText(a)| <= |NumberText(b)|
    decreases b
  {
    if a >= 10 {
      SmallerIsShorter(a / 10, b / 10);
    } else {
      OneDigit(a);
    }
  }

  lemma OneMoreDigit(n: nat, d: nat)
    requires d < 10
    ensures |NumberText(n * 10 + d)| <= |NumberText(n)| + 1
  {
    var more := n * 10 + d;
    assert more / 10 == n;
    assert more > 0 ==> |Digits(more)| == |Digits(n)| + 1;
  }

  /** One more digit, modulo 2^64, takes at most one more byte. */
  lemma WrappedFits(n: u64, digit: nat) returns (more: u64)
    requires digit <= 9
    ensures more == (n * 10 + digit) % TWO64 && |NumberText(more)| <= |NumberText(n)| + 1
  {
    hide NumberText;
    OneMoreDigit(n, digit);
    more := (n * 10 + digit) % TWO64;
    SmallerIsShorter(more, n * 10 + digit);
  }

  lemma AnyDigit(t: seq<u8>, p: nat, n: u64) returns (more: u64)
    requires p < |t| && IsDigit(t[p])
    ensures ParseDigits(t, p, n) == ParseDigits(t, p + 1, more) && |NumberText(more)| <= |NumberText(n)| + 1
  {
    hide NumberText;
    more := WrappedFits(n, t[p] - ZERO);
  }

  lemma {:induction false} DigitsFit(t: seq<u8>, p: nat, n: u64, k: nat)
    requires p <= |t| && |NumberText(n)| <= k
    ensures var (m, end) := ParseDigits(t, p, n); |NumberText(m)| <= k + (end - p)
    decreases |t| - p
  {
    hide NumberText, IsDigit;
    if p < |t| && IsDigit(t[p]) {
      var more := AnyDigit(t, p, n);
      hide ParseDigits;
      DigitsFit(t, p + 1, more, k + 1);
    }
  }

  lemma NumberFits(t: seq<u8>, p: nat)
    requires ParseNumber(t, p).Some?
    ensures var (v, end) := ParseNumber(t, p).value; |Text(v)| <= end - p
  {
    var q := FirstInk(t, p);
    var d := t[q] - ZERO;
    assert ParseDigits(t, q, 0) == ParseDigits(t, q + 1, d);
    OneDigit(d);
    DigitsFit(t, q + 1, d, 1);
  }

  lemma {:induction false} ValueFits(t: seq<u8>, p: nat)
    requires ParseValue(t, p).Some?
    ensures var (v, end) := ParseValue(t, p).value; |Text(v)| <= end - p
    decreases |t| - p, 2
  {
    if ParseString(t, p).Some? {
      StringFits(t, p);
    } else if ParseNumber(t, p).Some? {
      NumberFits(t, p);
    } else if ParseBoolean(t, p).None? {
      ObjectFits(t, p);
    }
  }

  lemma {:induction false} ObjectFits(t: seq<u8>, p: nat)
    requires ParseObject(t, p).Some?
    ensures var (v, end) := ParseObject(t, p).value; |Text(v)| <= end - p
    decreases |t| - p, 1
  {
    var q := FirstInk(t, p);
    if t[q + 1] != CLOSE {
      PairsFit(t, q + 1);
    }
  }

  lemma PairsSize(pair: Pair, rest: seq<Pair>)
    ensures |PairsText([pair] + rest)|
         == |StringText(pair.key)| + 1 + |Text(pair.value)| + (if rest == [] then 0 else 1) + |PairsText(rest)|
    ensures |PairsText([])| == 1
  {
    assert ([pair] + rest)[1..] == rest;
    hide Text, StringText;
  }

  lemma {:induction false} PairsFit(t: seq<u8>, p: nat)
    requires ParsePairs(t, p).Some?
    ensures var (pairs, end) := ParsePairs(t, p).value; |PairsText(pairs)| <= end - p
    decreases |t| - p, 0
  {
    hide ParseString, ParseValue, StringText, Text, PairsText;
    match ParseString(t, p)
    case None => PairsSize(Pair([], Boolean(false)), []);
    case Some((key, p1)) =>
      StringFits(t, p);
      ValueFits(t, p1 + 1);
      var (value, p2) := ParseValue(t, p1 + 1).value;
      if t[p2] == COMMA {
        PairsFit(t, p2 + 1);
        PairsSize(Pair(key, value), ParsePairs(t, p2 + 1).value.0);
      } else {
        PairsSize(Pair(key, value), []);
        assert [Pair(key, value)] + [] == [Pair(key, value)];
      }
  }

  /**
   * Whatever json_parse accepts is written back in no more bytes than it was
   * read from, and reading that text again gives the same tree.
   */
  lemma TextOfParsedFits(t: seq<u8>)
    requires Parse(t).Some?
    ensures |Text(Parse(t).value)| <= |t|
    ensures Parse(Text(Parse(t).value)) == Parse(t)
  {
    ObjectFits(t, 0);
    ParseUndoesText(Parse(t).value, []);
    assert Text(Parse(t).value) + [] == Text(Parse(t).value);
  }
}
