/**
 * The recursive-descent parser as it runs: cursors that advance over the input
 * bytes `[0, end)`. A string that ends with the input makes it read one byte
 * too many; if that byte is a quote, a string of one byte too much comes back,
 * and the caller's bounds check rejects it.
 */
module JsonParser {
  import opened Bytes
  import opened Json
  import opened Wrappers

  /** The mutable object that pairs are pushed to. */
  class JsonObject {
    var pairs: seq<Pair>

    constructor ()
      ensures pairs == []
    {
      pairs := [];
    }

    method Push(key: CString, child: Value)
      modifies this
      ensures pairs == old(pairs) + [Pair(key, child)]
    {
      pairs := pairs + [Pair(key, child)];
    }

    /** The first pair with that key. */
    method Get(key: CString) returns (child: Option<Value>)
      ensures child == Find(pairs, key)
    {
      assert pairs[0..] == pairs;
      for i := 0 to |pairs|
        invariant Find(pairs, key) == Find(pairs[i..], key)
      {
        assert pairs[i..][1..] == pairs[i + 1..];
        if pairs[i].key == key { return Some(pairs[i].value); }
      }
      return None;
    }
  }

  /** The outcome is the specified one, or a value that ends behind the input. */
  ghost predicate Agrees<T>(r: Option<(T, nat)>, spec: Option<(T, nat)>, end: nat) {
    r == spec || (spec.None? && r.Some? && r.value.1 == end + 1)
  }

  method SkipWhitespace(input: array<u8>, end: nat, p0: nat) returns (ok: bool, p: nat)
    requires end < input.Length
    ensures ok <==> !Blank(input[..end], p0)
    ensures p == SkipSpace(input[..end], p0)
  {
    ghost var t := input[..end];
    p := p0;
    if p >= end { return false, p; }
    while input[p] == BLANK || input[p] == NEWLINE
      invariant p0 <= p < end
      invariant Blank(t, p0) == Blank(t, p)
      invariant !Blank(t, p0) ==> FirstInk(t, p0) == FirstInk(t, p)
      decreases end - p
    {
      p := p + 1;
      if p >= end { return false, p0; }
    }
    ok := true;
  }

  /** The string at `p0`; `p` is moved over whitespace even if there is none. */
  method ParseStringAt(input: array<u8>, end: nat, p0: nat) returns (r: Option<(CString, nat)>, p: nat)
    requires end < input.Length
    ensures Agrees(r, ParseString(input[..end], p0), end)
    ensures r.Some? ==> !Blank(input[..end], p0) && input[..end][FirstInk(input[..end], p0)] == QUOTE
    ensures r.None? ==> p == SkipSpace(input[..end], p0)
  {
    ghost var t := input[..end];
    var ok;
    ok, p := SkipWhitespace(input, end, p0);
    if !ok { return None, p; }
    if input[p] != QUOTE { return None, p; }
    var q := p + 1;
    var s: CString := [];
    assert forall rest: CString :: [] + rest == rest;
    while q < end && input[q] != 0 && input[q] != QUOTE
      invariant p < q <= end
      invariant ParseChars(t, p + 1) ==
                match ParseChars(t, q)
                case None => None
                case Some((rest, after)) => Some((s + rest, after))
      decreases end - q
    {
      if input[q] == BACKSLASH {
        q := q + 1;
        if q >= end || input[q] == 0 { return None, p; }
      }
      ghost var one: CString := [input[q]];
      assert forall rest: CString :: s + (one + rest) == s + one + rest;
      s := s + [input[q]];
      q := q + 1;
    }
    assert s + [] == s;
    // reads input[end] when the string was cut off
    if input[q] != QUOTE { return None, p; }
    r := Some((s, q + 1));
  }

  method ParseNumberAt(input: array<u8>, end: nat, p0: nat) returns (r: Option<(Value, nat)>)
    requires end < input.Length
    ensures r == ParseNumber(input[..end], p0)
  {
    ghost var t := input[..end];
    var ok, start := SkipWhitespace(input, end, p0);
    if !ok { return None; }
    var n: u64, p := 0, start;
    while p < end
      invariant start <= p <= end
      invariant ParseDigits(t, start, 0) == ParseDigits(t, p, n)
    {
      if input[p] < ZERO || input[p] > ZERO + 9 { break; }
      n := (n * 10 + (input[p] - ZERO)) % TWO64;
      p := p + 1;
    }
    if p == start { return None; }
    r := Some((Number(n), p));
  }

  method ParseBooleanAt(input: array<u8>, end: nat, p0: nat) returns (r: Option<(Value, nat)>)
    requires end < input.Length
    ensures r == ParseBoolean(input[..end], p0)
  {
    ghost var t := input[..end];
    var ok, p := SkipWhitespace(input, end, p0);
    if !ok { return None; }
    if end <= p + 4 { return None; }
    assert t[p..p + 4] == input[p..p + 4];
    if input[p..p + 4] == TRUE { return Some((Boolean(true), p + 4)); }
    if end <= p + 5 { return None; }
    assert t[p..p + 5] == input[p..p + 5];
    if input[p..p + 5] == FALSE { return Some((Boolean(false), p + 5)); }
    r := None;
  }

  method ParseValueAt(input: array<u8>, end: nat, p: nat) returns (r: Option<(Value, nat)>)
    requires end < input.Length
    ensures Agrees(r, ParseValue(input[..end], p), end)
    decreases end - p, 2
  {
    ghost var t := input[..end];
    var quoted, _ := ParseStringAt(input, end, p);
    if quoted.Some? {
      if ParseString(t, p).None? { QuoteIsString(t, p); }
      return Some((String(quoted.value.0), quoted.value.1));
    }
    r := ParseNumberAt(input, end, p);
    if r.Some? { return; }
    r := ParseBooleanAt(input, end, p);
    if r.Some? { return; }
    r := ParseObjectAt(input, end, p);
  }

  /** What begins with a quote is a string or nothing. */
  lemma QuoteIsString(t: seq<u8>, p: nat)
    requires !Blank(t, p) && t[FirstInk(t, p)] == QUOTE
    ensures ParseValue(t, p).Some? ==> ParseString(t, p).Some?
  {
    var q := FirstInk(t, p);
    assert !IsDigit(t[q]) && ParseDigits(t, q, 0) == (0, q);
    assert ParseNumber(t, p).None?;
    assert ParseBoolean(t, p).None? by {
      if q + 4 < |t| { assert t[q..q + 4][0] == QUOTE; }
      if q + 5 < |t| { assert t[q..q + 5][0] == QUOTE; }
    }
    assert ParseObject(t, p).None?;
  }

  /** `more` behind the pairs already pushed. */
  ghost function Behind(pairs: seq<Pair>, more: Option<(seq<Pair>, nat)>): Option<(seq<Pair>, nat)> {
    match more
    case None => None
    case Some((rest, end)) => Some((pairs + rest, end))
  }

  lemma BehindMore(pairs: seq<Pair>, pair: Pair, more: Option<(seq<Pair>, nat)>)
    ensures Behind(pairs, Behind([pair], more)) == Behind(pairs + [pair], more)
  {
    if more.Some? {
      assert pairs + ([pair] + more.value.0) == pairs + [pair] + more.value.0;
    }
  }

  /** One round of the pair loop: a key, a colon and a value, or the reason to stop. */
  method ParsePairAt(input: array<u8>, end: nat, p0: nat) returns (pair: Option<Pair>, failed: bool, p: nat)
    requires end < input.Length && p0 < end
    ensures failed ==> ParsePairs(input[..end], p0).None?
    ensures !failed && pair.None? ==>
              p <= end &&
              ParsePairs(input[..end], p0) == if p < end && input[p] == CLOSE then Some(([], p + 1)) else None
    ensures !failed && pair.Some? ==>
              && p0 < p < end
              && (input[p] == COMMA ==> ParsePairs(input[..end], p0) ==
                                        if p + 1 < end then Behind([pair.value], ParsePairs(input[..end], p + 1))
                                        else None)
              && (input[p] == CLOSE ==> ParsePairs(input[..end], p0) == Some(([pair.value], p + 1)))
              && (input[p] != COMMA && input[p] != CLOSE ==> ParsePairs(input[..end], p0).None?)
    decreases end - p0, 0
  {
    hide ParseString, ParseValue, Blank, FirstInk;
    ghost var t := input[..end];
    pair, failed := None, true;
    var key;
    key, p := ParseStringAt(input, end, p0);
    if key.None? { return None, false, p; }
    p := key.value.1;
    if p >= end || input[p] != COLON { return; }
    p := p + 1;
    var value := ParseValueAt(input, end, p);
    if value.None? { return; }
    p := value.value.1;
    if p >= end { return; }
    return Some(Pair(key.value.0, value.value.0)), false, p;
  }

  /** The pair loop of an object and its closing brace. */
  method ParsePairsAt(input: array<u8>, end: nat, p0: nat, v: JsonObject) returns (after: Option<nat>)
    requires end < input.Length && p0 < end && v.pairs == []
    modifies v
    ensures match ParsePairs(input[..end], p0)
            case None => after == None
            case Some((pairs, q)) => after == Some(q) && v.pairs == pairs
    decreases end - p0, 1
  {
    hide ParsePairs;
    ghost var t := input[..end];
    ghost var all := ParsePairs(t, p0);
    assert all == Behind([], all) by { if all.Some? { assert [] + all.value.0 == all.value.0; } }
    var p := p0;
    while p < end
      invariant p0 <= p <= end
      invariant all == if p < end then Behind(v.pairs, ParsePairs(t, p)) else None
      decreases end - p
    {
      var pair, failed, q := ParsePairAt(input, end, p);
      if failed { return None; }
      p := q;
      if pair.None? {
        assert v.pairs + [] == v.pairs;
        break;
      }
      BehindMore(v.pairs, pair.value, if p + 1 < end then ParsePairs(t, p + 1) else None);
      v.Push(pair.value.key, pair.value.value);
      if input[p] != COMMA { break; }
      p := p + 1;
    }
    // whitespace is not skipped here
    if input[p] != CLOSE || p >= end { return None; }
    after := Some(p + 1);
  }

  method ParseObjectAt(input: array<u8>, end: nat, p0: nat) returns (r: Option<(Value, nat)>)
    requires end < input.Length
    ensures r == ParseObject(input[..end], p0)
    decreases end - p0, 1
  {
    ghost var t := input[..end];
    var ok, p := SkipWhitespace(input, end, p0);
    if !ok { return None; }
    if p + 2 > end { return None; }
    if input[p] != OPEN { return None; }
    p := p + 1;
    var v := new JsonObject();
    if input[p] == CLOSE { return Some((Object(v.pairs), p + 1)); }
    var after := ParsePairsAt(input, end, p, v);
    if after.None? { return None; }
    r := Some((Object(v.pairs), after.value));
  }

  /** `json_parse` of the first `size` bytes; the byte behind them must be readable. */
  method JsonParse(input: array<u8>, size: nat) returns (v: Option<Value>)
    requires size < input.Length
    ensures v == Parse(input[..size])
  {
    var r := ParseObjectAt(input, size, 0);
    v := if r.Some? then Some(r.value.0) else None;
  }
}
