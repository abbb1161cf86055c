/**
 * The bounded serializer as it runs: a cursor `p` that advances through the
 * caller's buffer, with `end` behind the last byte it may write.
 */
module JsonSerializer {
  import opened Bytes
  import opened Json
  import opened JsonRoundTrip

  lemma PutPut(b: seq<u8>, at: nat, s1: seq<u8>, s2: seq<u8>)
    requires at + |s1| + |s2| <= |b|
    ensures Put(Put(b, at, s1), at + |s1|, s2) == Put(b, at, s1 + s2)
  {}

  /**
   * A step that writes `text` at `p0`: it succeeds exactly if a byte is left
   * behind the text, and even on failure it stays inside `[p0, end)`.
   */
  ghost predicate Stored(ok: bool, p: nat, text: seq<u8>, before: seq<u8>, after: seq<u8>, p0: nat, end: nat)
    requires p0 <= end <= |before|
  {
    && (ok <==> p0 + |text| < end)
    && (ok ==> p == p0 + |text| && after == Put(before, p0, text))
    && |after| == |before|
    && forall i :: 0 <= i < |before| && !(p0 <= i < end) ==> after[i] == before[i]
  }

  method PutByte(out: array<u8>, at: nat, c: u8)
    requires at < out.Length
    modifies out
    ensures out[..] == Put(old(out[..]), at, [c])
  {
    out[at] := c;
  }

  /** `done` is what has been written from `p0` on, possibly up to `end`. */
  ghost predicate Partial(before: seq<u8>, after: seq<u8>, p0: nat, p: nat, end: nat, done: seq<u8>) {
    p == p0 + |done| && p <= end <= |before| && after == Put(before, p0, done)
  }

  lemma PartialByte(before: seq<u8>, middle: seq<u8>, p0: nat, p: nat, end: nat, done: seq<u8>, c: u8)
    requires Partial(before, middle, p0, p, end, done) && p < end && p < |middle|
    ensures Partial(before, Put(middle, p, [c]), p0, p + 1, end, done + [c])
  {
    PutPut(before, p0, done, [c]);
  }

  lemma PartialStored(before: seq<u8>, after: seq<u8>, p0: nat, p: nat, end: nat, done: seq<u8>, text: seq<u8>)
    requires Partial(before, after, p0, p, end, done)
    ensures done == text && p < end ==> Stored(true, p, text, before, after, p0, end)
    ensures end <= p0 + |text| ==> Stored(false, p, text, before, after, p0, end)
  {}

  lemma PartialBound(before: seq<u8>, after: seq<u8>, p0: nat, p: nat, end: nat, done: seq<u8>)
    requires Partial(before, after, p0, p, end, done)
    ensures p == p0 + |done| && p <= end <= |after| == |before|
  {}

  lemma TextSplit(s: CString, i: nat, done: seq<u8>)
    requires i < |s|
    requires StringText(s) == done + (Escaped(s[i..]) + [QUOTE])
    ensures Special(s[i]) ==> StringText(s) == done + [BACKSLASH] + [s[i] as u8] + (Escaped(s[i + 1..]) + [QUOTE])
    ensures !Special(s[i]) ==> StringText(s) == done + [s[i] as u8] + (Escaped(s[i + 1..]) + [QUOTE])
  {
    assert s[i..][1..] == s[i + 1..];
  }

  method SerializeString(s: CString, out: array<u8>, p0: nat, end: nat) returns (ok: bool, p: nat)
    requires p0 <= end <= out.Length
    modifies out
    ensures Stored(ok, p, StringText(s), old(out[..]), out[..], p0, end)
  {
    hide Stored, Partial, Escaped, Put, StringText;
    ghost var before, text := out[..], StringText(s);
    assert Partial(before, before, p0, p0, end, []) by { NothingDone(before, p0, end); }
    p := p0;
    var i := 0;
    ghost var done: seq<u8> := [];
    StringParts(s);
    if p + 1 >= end { PartialStored(before, out[..], p0, p, end, done, text); return false, p; }
    PartialByte(before, out[..], p0, p, end, done, QUOTE);
    PutByte(out, p, QUOTE);
    p, done := p + 1, [QUOTE];
    assert [] + [QUOTE] == done;
    while p < end && i < |s|
      invariant i <= |s| && Partial(before, out[..], p0, p, end, done)
      invariant text == done + (Escaped(s[i..]) + [QUOTE])
      decreases |s| - i
    {
      PartialBound(before, out[..], p0, p, end, done);
      TextSplit(s, i, done);
      if s[i] == QUOTE || s[i] == BACKSLASH {
        PartialByte(before, out[..], p0, p, end, done, BACKSLASH);
        PutByte(out, p, BACKSLASH);
        p, done := p + 1, done + [BACKSLASH];
        PartialBound(before, out[..], p0, p, end, done);
        if p >= end { PartialStored(before, out[..], p0, p, end, done, text); return false, p; }
      }
      PartialByte(before, out[..], p0, p, end, done, s[i]);
      PutByte(out, p, s[i]);
      p, done, i := p + 1, done + [s[i]], i + 1;
    }
    PartialBound(before, out[..], p0, p, end, done);
    if p + 1 >= end { PartialStored(before, out[..], p0, p, end, done, text); return false, p; }
    assert Escaped(s[|s|..]) + [QUOTE] == [QUOTE] by { StringParts(s); }
    PartialByte(before, out[..], p0, p, end, done, QUOTE);
    PutByte(out, p, QUOTE);
    p := p + 1;
    PartialStored(before, out[..], p0, p, end, done + [QUOTE], text);
    ok := true;
  }

  lemma NothingDone(before: seq<u8>, p0: nat, end: nat)
    requires p0 <= end <= |before|
    ensures Partial(before, before, p0, p0, end, [])
  {}

  lemma StringParts(s: CString)
    ensures StringText(s) == [QUOTE] + (Escaped(s[0..]) + [QUOTE]) && |StringText(s)| >= 2
    ensures Escaped(s[|s|..]) + [QUOTE] == [QUOTE]
  {
    assert s[0..] == s;
  }

  // ---- Numbers

  function Pow10(k: nat): nat {
    if k == 0 then 1 else 10 * Pow10(k - 1)
  }

  lemma {:induction false} Pow10Add(a: nat, b: nat)
    ensures Pow10(a + b) == Pow10(a) * Pow10(b)
  {
    if a > 0 {
      Pow10Add(a - 1, b);
    }
  }

  lemma {:induction false} DigitsAtMost(n: nat, k: nat)
    requires n < Pow10(k)
    ensures |Digits(n)| <= k
  {
    if n > 0 {
      assert k > 0 && Pow10(k) == 10 * Pow10(k - 1);
      DigitsAtMost(n / 10, k - 1);
      hide Pow10;
    }
  }

  /** Twenty digits hold every 64-bit number. */
  lemma TwentyDigits(n: u64)
    ensures |Digits(n)| <= 20
  {
    assert Pow10(4) == 10000;
    Pow10Add(4, 4);
    Pow10Add(8, 8);
    Pow10Add(16, 4);
    DigitsAtMost(n, 20);
  }

  function Reversed(s: seq<u8>): (r: seq<u8>)
    ensures |r| == |s|
  {
    seq(|s|, i requires 0 <= i < |s| => s[|s| - 1 - i])
  }

  lemma LastDigit(n: nat)
    requires n > 0
    ensures Digits(n) == Digits(n / 10) + [ZERO + n % 10]
  {}

  lemma ReversedLast(written: seq<u8>, digit: u8)
    ensures Reversed(written + [digit]) == [digit] + Reversed(written)
  {}

  lemma NextDigitBackwards(number: nat, n: nat, written: seq<u8>)
    requires n > 0 && Digits(number) == Digits(n) + Reversed(written)
    ensures Digits(number) == Digits(n / 10) + Reversed(written + [ZERO + n % 10])
    ensures |Digits(number)| > |Reversed(written)|
  {
    hide Digits, Reversed;
    LastDigit(n);
    ReversedLast(written, ZERO + n % 10);
    var front, last, back := Digits(n / 10), [ZERO + n % 10], Reversed(written);
    assert front + last + back == front + (last + back);
  }

  /** The digits of `number` from the last to the first; `temp` has 20 of them at most. */
  method DigitsBackwards(number: u64) returns (temp: array<u8>, i: nat)
    ensures fresh(temp) && i <= temp.Length && NumberText(number) == Reversed(temp[..i])
  {
    TwentyDigits(number);
    temp := new u8[20];
    i := 0;
    var n := number;
    if number == 0 {
      temp[0] := ZERO;
      i := 1;
      assert NumberText(number) == Reversed(temp[..1]);
    } else {
      while n > 0
        invariant i <= |Digits(number)|
        invariant Digits(number) == Digits(n) + Reversed(temp[..i])
      {
        ghost var written := temp[..i];
        NextDigitBackwards(number, n, written);
        hide Digits, Reversed;
        temp[i] := ZERO + n % 10;
        n := n / 10;
        i := i + 1;
        assert temp[..i] == written + [temp[i - 1]];
      }
    }
  }

  method SerializeNumber(number: u64, out: array<u8>, p0: nat, end: nat) returns (ok: bool, p: nat)
    requires p0 <= end <= out.Length
    modifies out
    ensures Stored(ok, p, NumberText(number), old(out[..]), out[..], p0, end)
  {
    ghost var before := out[..];
    var temp, i := DigitsBackwards(number);
    ghost var text := Reversed(temp[..i]);
    hide NumberText, Digits, Put, Partial, Stored;
    p := p0;
    NothingDone(before, p0, end);
    var digitEnd := p + i;
    if digitEnd >= end { PartialStored(before, out[..], p0, p, end, [], text); return false, p; }
    var d := i - 1;
    assert text[..0] == [];
    while p < digitEnd
      invariant p0 <= p <= digitEnd && d == digitEnd - 1 - p
      invariant Partial(before, out[..], p0, p, end, text[..p - p0])
      invariant text == Reversed(temp[..i])
    {
      PartialByte(before, out[..], p0, p, end, text[..p - p0], temp[d]);
      assert text[..p - p0] + [temp[d]] == text[..p + 1 - p0];
      PutByte(out, p, temp[d]);
      p := p + 1;
      d := d - 1;
    }
    assert text[..i] == text;
    PartialStored(before, out[..], p0, p, end, text, text);
    ok := true;
  }

  method PutBytes(out: array<u8>, at: nat, s: seq<u8>)
    requires at + |s| <= out.Length
    modifies out
    ensures out[..] == Put(old(out[..]), at, s)
  {
    for i := 0 to |s|
      invariant forall k :: 0 <= k < out.Length ==>
        out[k] == if at <= k < at + i then s[k - at] else old(out[k])
    {
      out[at + i] := s[i];
    }
  }

  method SerializeBoolean(b: bool, out: array<u8>, p0: nat, end: nat) returns (ok: bool, p: nat)
    requires p0 <= end <= out.Length
    modifies out
    ensures Stored(ok, p, Text(Boolean(b)), old(out[..]), out[..], p0, end)
  {
    p := p0;
    if b {
      if p + 4 >= end { return false, p; }
      PutBytes(out, p, TRUE);
      p := p + 4;
    } else {
      if p + 5 >= end { return false, p; }
      PutBytes(out, p, FALSE);
      p := p + 5;
    }
    ok := true;
  }

  // ---- Objects

  /** `text` is what has been written from `p0` on, `rest` is what is still to come. */
  ghost predicate InProgress(
    before: seq<u8>, after: seq<u8>, p0: nat, p: nat, end: nat, done: seq<u8>, whole: seq<u8>, rest: seq<u8>)
  {
    && p == p0 + |done| && p < end <= |before|
    && after == Put(before, p0, done)
    && whole == done + rest
  }

  lemma Progress(before: seq<u8>, middle: seq<u8>, after: seq<u8>, p0: nat, p: nat, p': nat, end: nat,
                 done: seq<u8>, whole: seq<u8>, piece: seq<u8>, rest: seq<u8>)
    requires InProgress(before, middle, p0, p, end, done, whole, piece + rest)
    requires Stored(true, p', piece, middle, after, p, end)
    ensures InProgress(before, after, p0, p', end, done + piece, whole, rest)
  {
    PutPut(before, p0, done, piece);
    assert done + (piece + rest) == done + piece + rest;
  }

  lemma Stuck(before: seq<u8>, middle: seq<u8>, after: seq<u8>, p0: nat, p: nat, p': nat, end: nat,
              done: seq<u8>, whole: seq<u8>, piece: seq<u8>, rest: seq<u8>)
    requires InProgress(before, middle, p0, p, end, done, whole, piece + rest)
    requires Stored(false, p', piece, middle, after, p, end)
    ensures Stored(false, p', whole, before, after, p0, end)
  {}

  /** A byte is stored if another byte is left behind it. */
  method SerializeByte(c: u8, out: array<u8>, p0: nat, end: nat) returns (ok: bool, p: nat)
    requires p0 <= end <= out.Length
    modifies out
    ensures Stored(ok, p, [c], old(out[..]), out[..], p0, end)
  {
    p := p0;
    if p + 1 >= end { return false, p; }
    PutByte(out, p, c);
    p := p + 1;
    ok := true;
  }

  method SerializeValue(v: Value, out: array<u8>, p0: nat, end: nat) returns (ok: bool, p: nat)
    requires p0 <= end <= out.Length
    modifies out
    ensures Stored(ok, p, Text(v), old(out[..]), out[..], p0, end)
    decreases v, 1
  {
    if p0 >= end { return false, p0; }
    match v
    case String(s) => ok, p := SerializeString(s, out, p0, end);
    case Number(n) => ok, p := SerializeNumber(n, out, p0, end);
    case Boolean(b) => ok, p := SerializeBoolean(b, out, p0, end);
    case Object(pairs) => ok, p := SerializeObject(pairs, out, p0, end);
  }

  method SerializePair(pair: Pair, out: array<u8>, p0: nat, end: nat) returns (ok: bool, p: nat)
    requires p0 < end <= out.Length
    modifies out
    ensures Stored(ok, p, PairText(pair), old(out[..]), out[..], p0, end)
    decreases pair, 0
  {
    hide Text, StringText, Put, Stored, InProgress;
    ghost var before, whole := out[..], PairText(pair);
    ghost var key, value := StringText(pair.key), Text(pair.value);
    assert whole == key + ([COLON] + value) && [] + key == key && value + [] == value;
    assert InProgress(before, before, p0, p0, end, [], whole, key + ([COLON] + value)) by {
      Begin(before, p0, end, whole);
    }
    ok, p := SerializeString(pair.key, out, p0, end);
    if !ok { Stuck(before, before, out[..], p0, p0, p, end, [], whole, key, [COLON] + value); return; }
    Progress(before, before, out[..], p0, p0, p, end, [], whole, key, [COLON] + value);
    ghost var m1, p1 := out[..], p;
    InBounds(before, m1, p0, p1, end, key, whole, [COLON] + value);
    ok, p := SerializeByte(COLON, out, p, end);
    if !ok { Stuck(before, m1, out[..], p0, p1, p, end, key, whole, [COLON], value); return; }
    Progress(before, m1, out[..], p0, p1, p, end, key, whole, [COLON], value);
    ghost var m2, p2 := out[..], p;
    InBounds(before, m2, p0, p2, end, key + [COLON], whole, value);
    ok, p := SerializeValue(pair.value, out, p, end);
    if !ok { Stuck(before, m2, out[..], p0, p2, p, end, key + [COLON], whole, value, []); return; }
    Progress(before, m2, out[..], p0, p2, p, end, key + [COLON], whole, value, []);
    Finished(before, out[..], p0, p, end, key + [COLON] + value, whole);
  }

  lemma Begin(before: seq<u8>, p0: nat, end: nat, whole: seq<u8>)
    requires p0 < end <= |before|
    ensures InProgress(before, before, p0, p0, end, [], whole, whole)
  {}

  lemma InBounds(
    before: seq<u8>, after: seq<u8>, p0: nat, p: nat, end: nat, done: seq<u8>, whole: seq<u8>, rest: seq<u8>)
    requires InProgress(before, after, p0, p, end, done, whole, rest)
    ensures p < end <= |after| == |before|
  {}

  lemma Finished(before: seq<u8>, after: seq<u8>, p0: nat, p: nat, end: nat, done: seq<u8>, whole: seq<u8>)
    requires InProgress(before, after, p0, p, end, done, whole, [])
    ensures Stored(true, p, whole, before, after, p0, end)
  {
    assert done + [] == done;
  }

  lemma TooLong(
    before: seq<u8>, after: seq<u8>, p0: nat, p: nat, end: nat, done: seq<u8>, whole: seq<u8>, rest: seq<u8>)
    requires InProgress(before, after, p0, p, end, done, whole, rest) && p + |rest| >= end
    ensures Stored(false, p, whole, before, after, p0, end)
  {}

  method SerializeObject(pairs: seq<Pair>, out: array<u8>, p0: nat, end: nat) returns (ok: bool, p: nat)
    requires p0 < end <= out.Length
    modifies out
    ensures Stored(ok, p, [OPEN] + PairsText(pairs), old(out[..]), out[..], p0, end)
    decreases pairs, 1
  {
    hide Text, StringText, PairText, Put, Stored, InProgress;
    ghost var before, whole := out[..], [OPEN] + PairsText(pairs);
    Begin(before, p0, end, whole);
    p := p0;
    if p + 2 >= end { TooLong(before, out[..], p0, p, end, [], whole, whole); return false, p; }
    ByteStored(before, p, end, OPEN);
    PutByte(out, p, OPEN);
    p := p + 1;
    ghost var done := [OPEN];
    Progress(before, before, out[..], p0, p0, p, end, [], whole, [OPEN], PairsText(pairs));
    assert [] + [OPEN] == done && pairs[0..] == pairs;
    for i := 0 to |pairs|
      invariant InProgress(before, out[..], p0, p, end, done, whole, PairsText(pairs[i..]))
      invariant p + 1 < end || i < |pairs|
    {
      assert pairs[i] in pairs;
      ghost var pair, comma := PairText(pairs[i]), if i + 1 < |pairs| then [COMMA] else [];
      ghost var rest := PairsText(pairs[i + 1..]);
      assert pairs[i..][1..] == pairs[i + 1..];
      assert PairsText(pairs[i..]) == pair + (comma + rest);
      ghost var m1, p1 := out[..], p;
      InBounds(before, m1, p0, p1, end, done, whole, pair + (comma + rest));
      ok, p := SerializePair(pairs[i], out, p, end);
      if !ok { Stuck(before, m1, out[..], p0, p1, p, end, done, whole, pair, comma + rest); return; }
      Progress(before, m1, out[..], p0, p1, p, end, done, whole, pair, comma + rest);
      done := done + pair;
      InBounds(before, out[..], p0, p, end, done, whole, comma + rest);
      if p + 1 >= end { TooLong(before, out[..], p0, p, end, done, whole, comma + rest); return false, p; }
      if i + 1 < |pairs| {
        ghost var m2, p2 := out[..], p;
        ByteStored(m2, p, end, COMMA);
        PutByte(out, p, COMMA);
        p := p + 1;
        Progress(before, m2, out[..], p0, p2, p, end, done, whole, [COMMA], rest);
        done := done + [COMMA];
      } else {
        assert comma + rest == rest;
      }
    }
    assert PairsText(pairs[|pairs|..]) == [CLOSE];
    ghost var m3, p3 := out[..], p;
    InBounds(before, m3, p0, p3, end, done, whole, [CLOSE]);
    ByteStored(m3, p, end, CLOSE);
    PutByte(out, p, CLOSE);
    p := p + 1;
    ok := true;
    assert [CLOSE] + [] == [CLOSE];
    Progress(before, m3, out[..], p0, p3, p, end, done, whole, [CLOSE], []);
    Finished(before, out[..], p0, p, end, done + [CLOSE], whole);
  }

  lemma ByteStored(middle: seq<u8>, p: nat, end: nat, c: u8)
    requires p + 1 < end <= |middle|
    ensures Stored(true, p + 1, [c], middle, Put(middle, p, [c]), p, end)
  {}

  /**
   * `json_serialize` into the `size` bytes from `at` on: success exactly if the
   * text and its terminator fit, and no byte outside is ever written.
   */
  method JsonSerialize(v: Value, out: array<u8>, at: nat, size: nat) returns (ok: bool)
    requires at + size <= out.Length
    modifies out
    ensures ok <==> |Text(v)| + 1 <= size
    ensures ok ==> out[..] == Put(old(out[..]), at, Text(v) + [0])
    ensures forall i :: 0 <= i < out.Length && !(at <= i < at + size) ==> out[i] == old(out[i])
  {
    hide Text;
    ghost var before := out[..];
    var p;
    ok, p := SerializeValue(v, out, at, at + size);
    forall i | 0 <= i < out.Length && !(at <= i < at + size)
      ensures out[i] == before[i]
    {
      assert out[i] == out[..][i];
    }
    if !ok { return; }
    if p < at + size {
      PutByte(out, p, 0);
      PutPut(before, at, Text(v), [0]);
    }
  }

  /** A parsed tree always fits into a buffer one byte longer than its input, and comes back. */
  lemma ParsedTreeFits(t: seq<u8>)
    requires Parse(t).Some?
    ensures |Text(Parse(t).value)| + 1 <= |t| + 1
    ensures Parse(Text(Parse(t).value) + [0]) == Parse(t)
  {
    TextOfParsedFits(t);
    ParseUndoesText(Parse(t).value, [0]);
  }
}
