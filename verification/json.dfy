/**
 * JSON trees, their text, and the language that json_parse reads.
 *
 * The dialect: a backslash quotes the next byte whatever it is, numbers are
 * unsigned 64-bit and wrap, whitespace (blank and newline) is skipped only in
 * front of keys and values, and a comma may precede the closing brace.
 */
module Json {
  import opened Bytes
  import opened Wrappers

  /** A character of a terminated string. */
  type Char = x: int | 0 < x < 0x100 witness 1
  type CString = seq<Char>

  datatype Pair = Pair(key: CString, value: Value)
  datatype Value = String(s: CString) | Number(n: u64) | Boolean(b: bool) | Object(pairs: seq<Pair>)

  const QUOTE: u8 := 34
  const BACKSLASH: u8 := 92
  const COLON: u8 := 58
  const COMMA: u8 := 44
  const OPEN: u8 := 123
  const CLOSE: u8 := 125
  const BLANK: u8 := 32
  const NEWLINE: u8 := 10
  const ZERO: u8 := 48

  /** "true" and "false" */
  const TRUE: seq<u8> := [116, 114, 117, 101]
  const FALSE: seq<u8> := [102, 97, 108, 115, 101]

  // ---- Text

  predicate Special(c: u8) {
    c == QUOTE || c == BACKSLASH
  }

  function Escaped(s: CString): seq<u8> {
    if s == [] then []
    else (if Special(s[0]) then [BACKSLASH, s[0]] else [s[0]]) + Escaped(s[1..])
  }

  function StringText(s: CString): seq<u8> {
    [QUOTE] + Escaped(s) + [QUOTE]
  }

  function Digits(n: nat): (r: seq<u8>)
    ensures n > 0 ==> |r| > 0
  {
    if n == 0 then [] else Digits(n / 10) + [ZERO + n % 10]
  }

  function NumberText(n: nat): (r: seq<u8>)
    ensures |r| > 0
  {
    if n == 0 then [ZERO] else Digits(n)
  }

  function Text(v: Value): (r: seq<u8>)
    ensures |r| > 0
    decreases v, 1
  {
    match v
    case String(s) => StringText(s)
    case Number(n) => NumberText(n)
    case Boolean(b) => if b then TRUE else FALSE
    case Object(pairs) => [OPEN] + PairsText(pairs)
  }

  /** What follows the opening brace. */
  function PairsText(pairs: seq<Pair>): (r: seq<u8>)
    ensures |r| > 0
    decreases pairs, 0
  {
    if pairs == [] then [CLOSE]
    else
      assert pairs[0].value < pairs[0];
      PairText(pairs[0]) + (if |pairs| > 1 then [COMMA] else []) + PairsText(pairs[1..])
  }

  function PairText(pair: Pair): seq<u8>
    decreases pair, 0
  {
    StringText(pair.key) + [COLON] + Text(pair.value)
  }

  // ---- Parsing

  predicate IsSpace(c: u8) {
    c == BLANK || c == NEWLINE
  }

  predicate IsDigit(c: u8) {
    ZERO <= c <= ZERO + 9
  }

  /** The next byte that is not whitespace; `p` itself if there is none. */
  function SkipSpace(t: seq<u8>, p: nat): (q: nat)
    ensures p <= q && (q > p ==> q < |t|)
    ensures q < |t| && q > p ==> !IsSpace(t[q])
  {
    if Blank(t, p) then p else FirstInk(t, p)
  }

  /** Nothing but whitespace is left. */
  predicate Blank(t: seq<u8>, p: nat)
    decreases |t| - p
  {
    p >= |t| || (IsSpace(t[p]) && Blank(t, p + 1))
  }

  function FirstInk(t: seq<u8>, p: nat): (q: nat)
    requires !Blank(t, p)
    ensures p <= q < |t| && !IsSpace(t[q])
    decreases |t| - p
  {
    if IsSpace(t[p]) then FirstInk(t, p + 1) else p
  }

  /** The rest of a string and the position behind its closing quote. */
  function ParseChars(t: seq<u8>, p: nat): (r: Option<(CString, nat)>)
    ensures r.Some? ==> p < r.value.1 <= |t|
    decreases |t| - p
  {
    if p >= |t| || t[p] == 0 then None
    else if t[p] == QUOTE then Some(([], p + 1))
    else
      var q := if t[p] == BACKSLASH then p + 1 else p;
      if q >= |t| || t[q] == 0 then None
      else
        match ParseChars(t, q + 1)
        case None => None
        case Some((s, end)) => Some(([t[q]] + s, end))
  }

  function ParseString(t: seq<u8>, p: nat): (r: Option<(CString, nat)>)
    ensures r.Some? ==> p < r.value.1 <= |t|
  {
    if Blank(t, p) then None
    else
      var q := FirstInk(t, p);
      if t[q] != QUOTE then None else ParseChars(t, q + 1)
  }

  /** Reads digits on top of `n`; 64-bit arithmetic. */
  function ParseDigits(t: seq<u8>, p: nat, n: u64): (r: (u64, nat))
    requires p <= |t|
    ensures p <= r.1 <= |t|
    decreases |t| - p
  {
    if p < |t| && IsDigit(t[p]) then ParseDigits(t, p + 1, (n * 10 + (t[p] - ZERO)) % TWO64) else (n, p)
  }

  function ParseNumber(t: seq<u8>, p: nat): (r: Option<(Value, nat)>)
    ensures r.Some? ==> p < r.value.1 <= |t|
  {
    if Blank(t, p) then None
    else
      var q := FirstInk(t, p);
      var (n, end) := ParseDigits(t, q, 0);
      if end == q then None else Some((Number(n), end))
  }

  /** One byte must follow the literal. */
  function ParseBoolean(t: seq<u8>, p: nat): (r: Option<(Value, nat)>)
    ensures r.Some? ==> p < r.value.1 < |t|
  {
    if Blank(t, p) then None
    else
      var q := FirstInk(t, p);
      if q + 4 < |t| && t[q..q + 4] == TRUE then Some((Boolean(true), q + 4))
      else if q + 5 < |t| && t[q..q + 5] == FALSE then Some((Boolean(false), q + 5))
      else None
  }

  function ParseValue(t: seq<u8>, p: nat): (r: Option<(Value, nat)>)
    ensures r.Some? ==> p < r.value.1 <= |t|
    decreases |t| - p, 2
  {
    var quoted := ParseString(t, p);
    if quoted.Some? then Some((String(quoted.value.0), quoted.value.1))
    else if ParseNumber(t, p).Some? then ParseNumber(t, p)
    else if ParseBoolean(t, p).Some? then ParseBoolean(t, p)
    else ParseObject(t, p)
  }

  function ParseObject(t: seq<u8>, p: nat): (r: Option<(Value, nat)>)
    ensures r.Some? ==> p < r.value.1 <= |t| && r.value.0.Object?
    decreases |t| - p, 1
  {
    if Blank(t, p) then None
    else
      var q := FirstInk(t, p);
      if q + 2 > |t| || t[q] != OPEN then None
      else if t[q + 1] == CLOSE then Some((Object([]), q + 2))
      else
        match ParsePairs(t, q + 1)
        case None => None
        case Some((pairs, end)) => Some((Object(pairs), end))
  }

  /** The pairs from `p` on and the position behind the closing brace. */
  function ParsePairs(t: seq<u8>, p: nat): (r: Option<(seq<Pair>, nat)>)
    ensures r.Some? ==> p < r.value.1 <= |t|
    decreases |t| - p, 0
  {
    match ParseString(t, p)
    case None =>
      var q := SkipSpace(t, p);
      if q < |t| && t[q] == CLOSE then Some(([], q + 1)) else None
    case Some((key, p1)) =>
      if p1 >= |t| || t[p1] != COLON then None
      else
        match ParseValue(t, p1 + 1)
        case None => None
        case Some((value, p2)) =>
          if p2 >= |t| then None
          else if t[p2] == COMMA then
            if p2 + 1 >= |t| then None
            else
              match ParsePairs(t, p2 + 1)
              case None => None
              case Some((rest, end)) => Some(([Pair(key, value)] + rest, end))
          else if t[p2] == CLOSE then Some(([Pair(key, value)], p2 + 1))
          else None
  }

  /** `json_parse`; text behind the closing brace is ignored. */
  function Parse(t: seq<u8>): Option<Value> {
    match ParseObject(t, 0)
    case None => None
    case Some((v, _)) => Some(v)
  }

  // ---- Access

  function Find(pairs: seq<Pair>, key: CString): Option<Value> {
    if pairs == [] then None
    else if pairs[0].key == key then Some(pairs[0].value)
    else Find(pairs[1..], key)
  }

  /** A pushed pair is visible exactly if its key was absent. */
  lemma {:induction false} FindAfterPush(pairs: seq<Pair>, pair: Pair, key: CString)
    ensures Find(pairs + [pair], key) ==
            if Find(pairs, key).Some? then Find(pairs, key)
            else if pair.key == key then Some(pair.value) else None
  {
    if pairs == [] {
      assert [pair][1..] == [];
    } else {
      assert (pairs + [pair])[1..] == pairs[1..] + [pair];
      FindAfterPush(pairs[1..], pair, key);
    }
  }
}
