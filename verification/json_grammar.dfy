/**
 * The language of json_parse, byte by byte: a syntax tree for every text that is
 * accepted, blanks, escapes and all digits included. A text is accepted if and only
 * if it begins with the text of such a tree, and the result is what the tree means.
 */
module JsonGrammar {
  import opened Bytes
  import opened Json
  import opened JsonRoundTrip
  import opened Wrappers

  // ---- Syntax

  /** One character of a string: as it is, or behind a backslash. */
  datatype Letter = Plain(c: u8) | Quoted(c: u8)

  /**
   * A value behind the `blanks` in front of it. An object may end with a comma
   * behind its last member; `gap` stands in front of the closing brace then, and in an
   * object without members.
   */
  datatype Tree =
    | Quotation(blanks: seq<u8>, letters: seq<Letter>)
    | Numeral(blanks: seq<u8>, digits: seq<u8>)
    | Literal(blanks: seq<u8>, b: bool)
    | Braces(blanks: seq<u8>, members: seq<Member>, comma: bool, gap: seq<u8>)

  datatype Member = Member(blanks: seq<u8>, key: seq<Letter>, value: Tree)

  predicate AreBlanks(s: seq<u8>) {
    forall i :: 0 <= i < |s| ==> s[i] == 32 || s[i] == 10
  }

  /** Nothing but a quote, a backslash and NUL has to be quoted, and everything but NUL can be. */
  predicate AreLetters(letters: seq<Letter>) {
    forall i :: 0 <= i < |letters| ==>
      letters[i].c != 0 && (letters[i].Plain? ==> letters[i].c != 34 && letters[i].c != 92)
  }

  predicate Proper(tree: Tree)
    decreases tree, 1
  {
    && AreBlanks(tree.blanks)
    && match tree
       case Quotation(_, letters) => AreLetters(letters)
       case Numeral(_, digits) => digits != [] && forall i :: 0 <= i < |digits| ==> 48 <= digits[i] <= 57
       case Literal(_, _) => true
       case Braces(_, members, comma, gap) =>
         ProperMembers(members) && AreBlanks(gap) && if members == [] then !comma else comma || gap == []
  }

  predicate ProperMembers(members: seq<Member>)
    decreases members, 0
  {
    members == [] ||
    var member := members[0];
    AreBlanks(member.blanks) && AreLetters(member.key) && Proper(member.value) && ProperMembers(members[1..])
  }

  // ---- Text

  function LettersText(letters: seq<Letter>): seq<u8> {
    if letters == [] then [34]
    else (if letters[0].Quoted? then [92, letters[0].c] else [letters[0].c]) + LettersText(letters[1..])
  }

  function TreeText(tree: Tree): seq<u8>
    decreases tree, 2
  {
    tree.blanks + Core(tree)
  }

  /** The text behind the blanks. */
  function Core(tree: Tree): seq<u8>
    decreases tree, 1
  {
    match tree
    case Quotation(_, letters) => [34] + LettersText(letters)
    case Numeral(_, digits) => digits
    case Literal(_, b) => if b then [116, 114, 117, 101] else [102, 97, 108, 115, 101]
    case Braces(_, members, comma, gap) => [123] + MembersText(members, comma, gap)
  }

  function MembersText(members: seq<Member>, comma: bool, gap: seq<u8>): (r: seq<u8>)
    ensures |r| > 0
    ensures members == [] ==> r == gap + [125]
    decreases members, 0
  {
    if members == [] then gap + [125]
    else
      MemberText(members[0]) + (if |members| > 1 || comma then [44] else []) + MembersText(members[1..], comma, gap)
  }

  function MemberText(member: Member): seq<u8>
    decreases member, 0
  {
    member.blanks + ([34] + LettersText(member.key)) + [58] + TreeText(member.value)
  }

  // ---- Meaning

  function Spelled(letters: seq<Letter>): (s: CString)
    requires AreLetters(letters)
    ensures |s| == |letters| && forall i :: 0 <= i < |s| ==> s[i] == letters[i].c
  {
    seq(|letters|, i requires 0 <= i < |letters| => letters[i].c)
  }

  function Decimal(digits: seq<u8>): int {
    if digits == [] then 0 else Decimal(digits[..|digits| - 1]) * 10 + digits[|digits| - 1] - 48
  }

  function Meaning(tree: Tree): Value
    requires Proper(tree)
    decreases tree, 1
  {
    match tree
    case Quotation(_, letters) => String(Spelled(letters))
    case Numeral(_, digits) => Number(Decimal(digits) % 0x1_0000_0000_0000_0000)
    case Literal(_, b) => Boolean(b)
    case Braces(_, members, _, _) => Object(MembersMeaning(members))
  }

  function MembersMeaning(members: seq<Member>): (pairs: seq<Pair>)
    requires ProperMembers(members)
    ensures |pairs| == |members|
    decreases members, 0
  {
    if members == [] then []
    else
      [Pair(Spelled(members[0].key), Meaning(members[0].value))] + MembersMeaning(members[1..])
  }

  // ---- Blanks

  /** Blanks in front of anything are skipped. */
  lemma {:induction false} BlanksAreSkipped(t: seq<u8>, p: nat, blanks: seq<u8>)
    requires At(t, p, blanks) && AreBlanks(blanks)
    ensures var q := p + |blanks|;
            Blank(t, p) == Blank(t, q) && (!Blank(t, p) ==> FirstInk(t, p) == FirstInk(t, q))
    decreases |blanks|
  {
    if blanks != [] {
      AtByte(t, p, blanks);
      assert blanks == [blanks[0]] + blanks[1..];
      AtConcat(t, p, [blanks[0]], blanks[1..]);
      BlanksAreSkipped(t, p + 1, blanks[1..]);
    }
  }

  lemma ParsesBehindBlanks(t: seq<u8>, p: nat, blanks: seq<u8>)
    requires At(t, p, blanks) && AreBlanks(blanks)
    ensures var q := p + |blanks|;
            && ParseString(t, p) == ParseString(t, q) && ParseNumber(t, p) == ParseNumber(t, q)
            && ParseBoolean(t, p) == ParseBoolean(t, q) && ParseObject(t, p) == ParseObject(t, q)
            && ParseValue(t, p) == ParseValue(t, q)
  {
    hide At, Blank, FirstInk, ParsePairs, ParseChars, ParseDigits;
    BlanksAreSkipped(t, p, blanks);
  }

  // ---- Every tree is parsed

  lemma LetterAndRest(letter: Letter, rest: seq<Letter>)
    requires AreLetters([letter]) && AreLetters(rest)
    ensures AreLetters([letter] + rest) && Spelled([letter] + rest) == [letter.c] + Spelled(rest)
    ensures LettersText([letter] + rest)
         == (if letter.Quoted? then [92, letter.c] else [letter.c]) + LettersText(rest)
  {
    assert ([letter] + rest)[1..] == rest;
    assert [letter][0] == letter;
  }

  lemma {:induction false} LettersAreParsed(t: seq<u8>, p: nat, letters: seq<Letter>)
    requires At(t, p, LettersText(letters)) && AreLetters(letters)
    ensures ParseChars(t, p) == Some((Spelled(letters), p + |LettersText(letters)|))
    decreases |letters|
  {
    hide Spelled, At, ParseChars;
    if letters == [] {
      QuoteIsParsed(t, p);
    } else {
      var letter, rest := letters[0], letters[1..];
      assert [letter] + rest == letters;
      LetterAndRest(letter, rest);
      var first := if letter.Quoted? then [92, letter.c] else [letter.c];
      hide LettersText;
      AtConcat(t, p, first, LettersText(rest));
      LetterIsParsed(t, p, letter);
      LettersAreParsed(t, p + |first|, rest);
    }
  }

  lemma QuoteIsParsed(t: seq<u8>, p: nat)
    requires At(t, p, [34])
    ensures ParseChars(t, p) == Some(([], p + 1))
  {
    AtByte(t, p, [34]);
  }

  lemma LetterIs(t: seq<u8>, p: nat, letter: Letter)
    requires At(t, p, if letter.Quoted? then [92, letter.c] else [letter.c])
    ensures letter.Plain? ==> t[p] == letter.c
    ensures letter.Quoted? ==> t[p] == 92 && t[p + 1] == letter.c
  {
    if letter.Quoted? { assert t[p..p + 2][1] == letter.c; }
    AtByte(t, p, if letter.Quoted? then [92, letter.c] else [letter.c]);
  }

  lemma LetterIsParsed(t: seq<u8>, p: nat, letter: Letter)
    requires AreLetters([letter]) && At(t, p, if letter.Quoted? then [92, letter.c] else [letter.c])
    ensures var rest := ParseChars(t, p + if letter.Quoted? then 2 else 1);
            rest.Some? ==> ParseChars(t, p) == Some(([letter.c] + rest.value.0, rest.value.1))
  {
    LetterIs(t, p, letter);
    assert [letter][0] == letter;
    hide At;
  }

  lemma QuotationIsParsed(t: seq<u8>, p: nat, letters: seq<Letter>)
    requires At(t, p, [34] + LettersText(letters)) && AreLetters(letters)
    ensures ParseString(t, p) == Some((Spelled(letters), p + 1 + |LettersText(letters)|))
  {
    hide ParseChars, LettersText;
    AtConcat(t, p, [34], LettersText(letters));
    AtByte(t, p, [34]);
    LettersAreParsed(t, p + 1, letters);
  }

  lemma OneMoreDigitModulo(n: int, d: int)
    ensures ((n % TWO64) * 10 + d) % TWO64 == (n * 10 + d) % TWO64
  {
    var q := n / TWO64;
    assert n * 10 + d == (n % TWO64) * 10 + d + (q * 10) * TWO64;
    ModuloIgnoresMultiples((n % TWO64) * 10 + d, q * 10);
  }

  lemma ModuloIgnoresMultiples(a: int, k: int)
    ensures (a + k * TWO64) % TWO64 == a % TWO64
  {}

  /** The first `k` digits are read one by one. */
  lemma {:induction false} DigitsAreParsed(t: seq<u8>, p: nat, digits: seq<u8>, k: nat)
    requires At(t, p, digits) && k <= |digits| && forall i :: 0 <= i < |digits| ==> 48 <= digits[i] <= 57
    ensures ParseDigits(t, p, 0) == ParseDigits(t, p + k, Decimal(digits[..k]) % TWO64)
    decreases k
  {
    if k > 0 {
      DigitsAreParsed(t, p, digits, k - 1);
      var front := Decimal(digits[..k - 1]);
      assert digits[..k][..k - 1] == digits[..k - 1];
      assert t[p + (k - 1)] == t[p..p + |digits|][k - 1];
      OneMoreDigitModulo(front, digits[k - 1] - 48);
    }
  }

  lemma NumeralIsParsed(t: seq<u8>, p: nat, digits: seq<u8>)
    requires At(t, p, digits) && digits != [] && forall i :: 0 <= i < |digits| ==> 48 <= digits[i] <= 57
    requires p + |digits| < |t| && !IsDigit(t[p + |digits|])
    ensures ParseValue(t, p) == Some((Number(Decimal(digits) % TWO64), p + |digits|))
  {
    AtByte(t, p, digits);
    DigitsAreParsed(t, p, digits, |digits|);
    assert digits[..|digits|] == digits;
    hide Decimal, ParseObject, ParseBoolean, ParseChars;
  }

  lemma {:induction false} TreeIsParsed(t: seq<u8>, p: nat, tree: Tree)
    requires At(t, p, TreeText(tree)) && Proper(tree)
    requires tree.Braces? || (p + |TreeText(tree)| < |t| && !IsDigit(t[p + |TreeText(tree)|]))
    ensures ParseValue(t, p) == Some((Meaning(tree), p + |TreeText(tree)|))
    decreases tree, 1
  {
    hide At, Blank, FirstInk, ParseValue, ParseObject, ParseString, ParseNumber, ParseBoolean, Decimal, LettersText,
      MembersText, MembersMeaning, AreBlanks, AreLetters, ProperMembers, IsDigit;
    var q := p + |tree.blanks|;
    AtConcat(t, p, tree.blanks, Core(tree));
    ParsesBehindBlanks(t, p, tree.blanks);
    match tree
    case Quotation(_, letters) =>
      QuotationIsParsed(t, q, letters);
      StringIsValue(t, q);
    case Numeral(_, digits) => NumeralIsParsed(t, q, digits);
    case Literal(_, b) =>
      assert Core(tree) == Text(Boolean(b));
      BooleanRoundTrip(t, q, b);
    case Braces(_, members, comma, gap) =>
      BracesAreParsed(t, q, members, comma, gap);
      AtByte(t, q, [123] + MembersText(members, comma, gap));
      ObjectIsParsed(t, q);
  }

  lemma StringIsValue(t: seq<u8>, p: nat)
    requires ParseString(t, p).Some?
    ensures ParseValue(t, p) == Some((String(ParseString(t, p).value.0), ParseString(t, p).value.1))
  {
    hide ParseString;
  }

  lemma {:induction false} BracesAreParsed(t: seq<u8>, p: nat, members: seq<Member>, comma: bool, gap: seq<u8>)
    requires At(t, p, [123] + MembersText(members, comma, gap)) && ProperMembers(members) && AreBlanks(gap)
    requires if members == [] then !comma else comma || gap == []
    ensures ParseObject(t, p) == Some((Object(MembersMeaning(members)), p + 1 + |MembersText(members, comma, gap)|))
    decreases members, 1
  {
    hide MembersText, ParsePairs, MembersMeaning, ProperMembers, AreBlanks;
    AtConcat(t, p, [123], MembersText(members, comma, gap));
    AtByte(t, p, [123]);
    MembersAreParsed(t, p + 1, members, comma, gap);
    if t[p + 1] == 125 { ClosesAtOnce(t, p + 1); }
  }

  lemma ClosesAtOnce(t: seq<u8>, p: nat)
    requires p < |t| && t[p] == 125
    ensures ParsePairs(t, p) == Some(([], p + 1))
  {}

  lemma MemberTextIs(member: Member)
    ensures MemberText(member) == member.blanks + (([34] + LettersText(member.key)) + ([58] + TreeText(member.value)))
  {
    hide LettersText, TreeText;
  }

  lemma MemberAt(t: seq<u8>, p: nat, member: Member) returns (q: nat, p1: nat)
    requires At(t, p, MemberText(member))
    ensures At(t, p, member.blanks) && q == p + |member.blanks|
    ensures At(t, q, [34] + LettersText(member.key)) && p1 == q + 1 + |LettersText(member.key)| < |t|
    ensures t[p1] == 58 && At(t, p1 + 1, TreeText(member.value))
    ensures p1 + 1 + |TreeText(member.value)| == p + |MemberText(member)|
  {
    var key, value := [34] + LettersText(member.key), TreeText(member.value);
    MemberTextIs(member);
    hide *;
    AtConcat(t, p, member.blanks, key + ([58] + value));
    q := p + |member.blanks|;
    AtConcat(t, q, key, [58] + value);
    p1 := q + |key|;
    AtConcat(t, p1, [58], value);
    AtByte(t, p1, [58] + value);
  }

  lemma {:induction false} MemberIsParsed(t: seq<u8>, p: nat, member: Member) returns (p1: nat)
    requires At(t, p, MemberText(member))
    requires AreBlanks(member.blanks) && AreLetters(member.key) && Proper(member.value)
    requires var p2 := p + |MemberText(member)|; p2 < |t| && !IsDigit(t[p2])
    ensures p < p1 < p + |MemberText(member)| && t[p1] == 58
    ensures ParseString(t, p) == Some((Spelled(member.key), p1))
    ensures ParseValue(t, p1 + 1) == Some((Meaning(member.value), p + |MemberText(member)|))
    decreases member, 0
  {
    hide *;
    var q;
    q, p1 := MemberAt(t, p, member);
    ParsesBehindBlanks(t, p, member.blanks);
    QuotationIsParsed(t, q, member.key);
    TreeIsParsed(t, p1 + 1, member.value);
  }

  /** A member is followed by a comma and what comes behind it, or by the closing brace. */
  lemma MembersAt(t: seq<u8>, p: nat, members: seq<Member>, comma: bool, gap: seq<u8>) returns (p2: nat)
    requires At(t, p, MembersText(members, comma, gap)) && members != [] && (comma || gap == [])
    ensures At(t, p, MemberText(members[0])) && p2 == p + |MemberText(members[0])| < |t|
    ensures var rest := MembersText(members[1..], comma, gap);
            if |members| == 1 && !comma then t[p2] == 125 && p2 + 1 == p + |MembersText(members, comma, gap)|
            else
              && t[p2] == 44 && p2 + 1 < |t| && At(t, p2 + 1, rest)
              && p2 + 1 + |rest| == p + |MembersText(members, comma, gap)|
  {
    var first, rest := MemberText(members[0]), MembersText(members[1..], comma, gap);
    var more := |members| > 1 || comma;
    var behind := (if more then [44] else []) + rest;
    assert MembersText(members, comma, gap) == first + behind;
    assert !more ==> members[1..] == [] && behind == [125];
    assert more ==> behind == [44] + rest;
    hide *;
    AtConcat(t, p, first, behind);
    p2 := p + |first|;
    AtByte(t, p2, behind);
    if more { AtConcat(t, p2, [44], rest); }
  }

  lemma {:induction false} MembersAreParsed(
    t: seq<u8>, p: nat, members: seq<Member>, comma: bool, gap: seq<u8>)
    requires At(t, p, MembersText(members, comma, gap)) && ProperMembers(members) && AreBlanks(gap)
    requires members == [] || comma || gap == []
    ensures ParsePairs(t, p) == Some((MembersMeaning(members), p + |MembersText(members, comma, gap)|))
    decreases members, 0
  {
    hide At, MemberText, ParsePairs, ParseString, ParseValue, Proper, Meaning, AreLetters;
    if members == [] {
      NoMembersAreParsed(t, p, gap);
      return;
    }
    var member := members[0];
    var p2 := MembersAt(t, p, members, comma, gap);
    var p1 := MemberIsParsed(t, p, member);
    ParseOnePair(t, p, p1, p2, Pair(Spelled(member.key), Meaning(member.value)));
    if |members| > 1 || comma {
      MembersAreParsed(t, p2 + 1, members[1..], comma, gap);
    } else {
      assert members[1..] == [];
      var pair := Pair(Spelled(member.key), Meaning(member.value));
      assert [pair] + [] == [pair];
    }
  }

  lemma NoMembersAreParsed(t: seq<u8>, p: nat, gap: seq<u8>)
    requires At(t, p, gap + [125]) && AreBlanks(gap)
    ensures ParsePairs(t, p) == Some(([], p + |gap| + 1))
  {
    AtConcat(t, p, gap, [125]);
    AtByte(t, p + |gap|, [125]);
    BlanksAreSkipped(t, p, gap);
    hide At;
  }

  // ---- Whatever is parsed is a tree

  lemma {:induction false} BlanksOf(t: seq<u8>, p: nat) returns (blanks: seq<u8>)
    requires !Blank(t, p)
    ensures AreBlanks(blanks) && blanks == t[p..FirstInk(t, p)]
    decreases |t| - p
  {
    if IsSpace(t[p]) {
      blanks := BlanksOf(t, p + 1);
      blanks := [t[p]] + blanks;
    } else {
      blanks := [];
    }
  }

  lemma {:induction false} LettersOf(t: seq<u8>, p: nat) returns (letters: seq<Letter>)
    requires ParseChars(t, p).Some?
    ensures var (s, end) := ParseChars(t, p).value;
            AreLetters(letters) && Spelled(letters) == s && LettersText(letters) == t[p..end]
    decreases |t| - p
  {
    if t[p] == QUOTE {
      letters := [];
    } else {
      var quoted := t[p] == BACKSLASH;
      var q := if quoted then p + 1 else p;
      var rest := LettersOf(t, q + 1);
      var letter := if quoted then Quoted(t[q]) else Plain(t[q]);
      letters := [letter] + rest;
      LetterAndRest(letter, rest);
      var end := ParseChars(t, p).value.1;
      hide *;
      assert t[p..end] == t[p..q + 1] + t[q + 1..end] && t[p..q + 1] == if quoted then [92, t[q]] else [t[q]];
    }
  }

  lemma {:induction false} DigitsEnd(t: seq<u8>, p: nat, n: u64)
    requires p <= |t|
    ensures var end := ParseDigits(t, p, n).1;
            && (forall i :: p <= i < end ==> 48 <= t[i] <= 57)
            && (end < |t| ==> !IsDigit(t[end]))
            && ParseDigits(t, end, n).1 == end
    decreases |t| - p
  {
    if p < |t| && IsDigit(t[p]) { DigitsEnd(t, p + 1, (n * 10 + (t[p] - ZERO)) % TWO64); }
  }

  lemma NumeralOf(t: seq<u8>, p: nat)
    requires p <= |t|
    ensures var (n, end) := ParseDigits(t, p, 0);
            && (forall i :: 0 <= i < |t[p..end]| ==> 48 <= t[p..end][i] <= 57)
            && n == Decimal(t[p..end]) % TWO64
  {
    var end := ParseDigits(t, p, 0).1;
    DigitsEnd(t, p, 0);
    DigitsAreParsed(t, p, t[p..end], end - p);
    assert t[p..end][..end - p] == t[p..end];
  }

  lemma QuotationOf(t: seq<u8>, p: nat) returns (blanks: seq<u8>, letters: seq<Letter>)
    requires ParseString(t, p).Some?
    ensures var (s, end) := ParseString(t, p).value;
            && AreBlanks(blanks) && AreLetters(letters) && Spelled(letters) == s
            && blanks + ([34] + LettersText(letters)) == t[p..end]
  {
    var q, end := FirstInk(t, p), ParseString(t, p).value.1;
    blanks := BlanksOf(t, p);
    letters := LettersOf(t, q + 1);
    assert t[p..end] == t[p..q] + ([t[q]] + t[q + 1..end]);
  }

  /** `tree` is the text from `p` to `end`, and means `v`. */
  predicate IsTreeOf(t: seq<u8>, p: nat, v: Value, end: nat, tree: Tree) {
    p <= end <= |t| && Proper(tree) && Meaning(tree) == v && TreeText(tree) == t[p..end]
  }

  predicate AreMembersOf(
    t: seq<u8>, p: nat, pairs: seq<Pair>, end: nat, members: seq<Member>, comma: bool, gap: seq<u8>)
  {
    && p <= end <= |t| && ProperMembers(members) && AreBlanks(gap) && MembersMeaning(members) == pairs
    && (if members == [] then !comma else comma || gap == []) && MembersText(members, comma, gap) == t[p..end]
  }

  lemma StringTree(t: seq<u8>, p: nat) returns (tree: Tree)
    requires ParseString(t, p).Some?
    ensures var (s, end) := ParseString(t, p).value; IsTreeOf(t, p, String(s), end, tree)
  {
    hide ParseString, LettersText;
    var blanks, letters := QuotationOf(t, p);
    tree := Quotation(blanks, letters);
    assert TreeText(tree) == t[p..ParseString(t, p).value.1];
  }

  lemma NumberTree(t: seq<u8>, p: nat) returns (tree: Tree)
    requires ParseNumber(t, p).Some?
    ensures var (v, end) := ParseNumber(t, p).value; IsTreeOf(t, p, v, end, tree)
  {
    hide ParseDigits, Decimal;
    var q, end := FirstInk(t, p), ParseNumber(t, p).value.1;
    var blanks := BlanksOf(t, p);
    NumeralOf(t, q);
    tree := Numeral(blanks, t[q..end]);
    assert t[p..end] == t[p..q] + t[q..end];
    assert TreeText(tree) == t[p..end];
  }

  lemma BooleanTree(t: seq<u8>, p: nat) returns (tree: Tree)
    requires ParseBoolean(t, p).Some?
    ensures var (v, end) := ParseBoolean(t, p).value; IsTreeOf(t, p, v, end, tree)
  {
    var q := FirstInk(t, p);
    var (v, end) := ParseBoolean(t, p).value;
    var blanks := BlanksOf(t, p);
    tree := Literal(blanks, v.b);
    assert t[p..end] == t[p..q] + t[q..end];
  }

  lemma {:induction false} TreeOf(t: seq<u8>, p: nat) returns (tree: Tree)
    requires ParseValue(t, p).Some?
    ensures var (v, end) := ParseValue(t, p).value; IsTreeOf(t, p, v, end, tree)
    decreases |t| - p, 2
  {
    hide IsTreeOf, ParseString, ParseNumber, ParseBoolean, ParseObject;
    if ParseString(t, p).Some? {
      tree := StringTree(t, p);
    } else if ParseNumber(t, p).Some? {
      tree := NumberTree(t, p);
    } else if ParseBoolean(t, p).Some? {
      tree := BooleanTree(t, p);
    } else {
      tree := ObjectOf(t, p);
    }
  }

  lemma {:induction false} ObjectOf(t: seq<u8>, p: nat) returns (tree: Tree)
    requires ParseObject(t, p).Some?
    ensures var (v, end) := ParseObject(t, p).value; IsTreeOf(t, p, v, end, tree) && tree.Braces?
    decreases |t| - p, 1
  {
    hide ParsePairs, MembersText, ProperMembers, MembersMeaning;
    var q := FirstInk(t, p);
    var (v, end) := ParseObject(t, p).value;
    var blanks := BlanksOf(t, p);
    if t[q + 1] == CLOSE { ClosesAtOnce(t, q + 1); }
    var members, comma, gap := MembersOf(t, q + 1);
    tree := Braces(blanks, members, comma, gap);
    assert Core(tree) == [123] + t[q + 1..end];
    assert TreeText(tree) == t[p..end] by {
      hide *;
      assert t[p..end] == t[p..q] + ([123] + t[q + 1..end]);
    }
  }

  lemma {:induction false} MembersOf(t: seq<u8>, p: nat)
    returns (members: seq<Member>, comma: bool, gap: seq<u8>)
    requires ParsePairs(t, p).Some?
    ensures var (pairs, end) := ParsePairs(t, p).value; AreMembersOf(t, p, pairs, end, members, comma, gap)
    decreases |t| - p, 0
  {
    hide ParseString, ParseValue, AreMembersOf, IsTreeOf;
    match ParseString(t, p)
    case None => members, comma, gap := NoMembers(t, p);
    case Some((key, p1)) =>
      var value := TreeOf(t, p1 + 1);
      var p2 := ParseValue(t, p1 + 1).value.1;
      members, comma, gap := [], false, [];
      if t[p2] == COMMA {
        members, comma, gap := MembersOf(t, p2 + 1);
      }
      members, comma, gap := OneMoreMember(t, p, value, members, comma, gap);
  }

  lemma NoMembers(t: seq<u8>, p: nat) returns (members: seq<Member>, comma: bool, gap: seq<u8>)
    requires ParseString(t, p).None? && ParsePairs(t, p).Some?
    ensures var (pairs, end) := ParsePairs(t, p).value; AreMembersOf(t, p, pairs, end, members, comma, gap)
  {
    hide ParseString;
    var q := SkipSpace(t, p);
    gap := [];
    if !Blank(t, p) { gap := BlanksOf(t, p); }
    members, comma := [], false;
    assert t[p..q + 1] == gap + [125];
  }

  /** The member at `p` in front of those behind its comma, if it has one. */
  lemma OneMoreMember(t: seq<u8>, p: nat, value: Tree, rest: seq<Member>, more: bool, last: seq<u8>)
    returns (members: seq<Member>, comma: bool, gap: seq<u8>)
    requires ParseString(t, p).Some? && ParsePairs(t, p).Some?
    requires var p1 := ParseString(t, p).value.1;
             ParseValue(t, p1 + 1).Some? &&
             var (v, p2) := ParseValue(t, p1 + 1).value;
             && IsTreeOf(t, p1 + 1, v, p2, value)
             && (p2 < |t| && t[p2] == COMMA && ParsePairs(t, p2 + 1).Some? ==>
                   var (pairs, end) := ParsePairs(t, p2 + 1).value;
                   AreMembersOf(t, p2 + 1, pairs, end, rest, more, last))
    ensures var (pairs, end) := ParsePairs(t, p).value; AreMembersOf(t, p, pairs, end, members, comma, gap)
  {
    hide ParseString, ParseValue, ProperMembers, MembersText, MembersMeaning, LettersText, TreeText, Proper, Meaning;
    var (key, p1) := ParseString(t, p).value;
    var (v, p2) := ParseValue(t, p1 + 1).value;
    var end := ParsePairs(t, p).value.1;
    var blanks, letters := QuotationOf(t, p);
    var member := Member(blanks, letters, value);
    MemberTextIs(member);
    assert t[p..p2] == t[p..p1] + ([58] + t[p1 + 1..p2]);
    assert MemberText(member) == t[p..p2];
    if t[p2] == COMMA {
      members, comma, gap := [member] + rest, more || rest == [], last;
      assert t[p..end] == t[p..p2] + [44] + t[p2 + 1..end];
      MembersFrom(member, rest, more, last);
    } else {
      members, comma, gap := [member], false, [];
      assert t[p..end] == t[p..p2] + [125];
      LastMember(member);
    }
  }

  lemma MembersFrom(member: Member, rest: seq<Member>, more: bool, last: seq<u8>)
    requires AreBlanks(member.blanks) && AreLetters(member.key) && Proper(member.value) && ProperMembers(rest)
    ensures ProperMembers([member] + rest)
    ensures MembersMeaning([member] + rest)
         == [Pair(Spelled(member.key), Meaning(member.value))] + MembersMeaning(rest)
    ensures MembersText([member] + rest, more || rest == [], last)
         == MemberText(member) + [44] + MembersText(rest, more, last)
  {
    hide MemberText, Proper, Meaning;
    assert ([member] + rest)[1..] == rest;
  }

  lemma LastMember(member: Member)
    requires AreBlanks(member.blanks) && AreLetters(member.key) && Proper(member.value)
    ensures ProperMembers([member])
    ensures MembersMeaning([member]) == [Pair(Spelled(member.key), Meaning(member.value))]
    ensures MembersText([member], false, []) == MemberText(member) + [125]
  {
    hide MemberText, Proper, Meaning;
    assert [member][1..] == [] && MembersMeaning([]) == [];
  }

  /** Exactly the texts of objects are accepted, whatever follows them, for what they mean. */
  lemma ParsesIff(t: seq<u8>, v: Value)
    ensures Parse(t) == Some(v) <==>
            exists tree: Tree :: tree.Braces? && Proper(tree) && TreeText(tree) <= t && Meaning(tree) == v
  {
    hide ParseObject, TreeText, Meaning, Proper;
    if Parse(t) == Some(v) {
      var tree := ObjectOf(t, 0);
      assert TreeText(tree) <= t;
    }
    if tree: Tree :| tree.Braces? && Proper(tree) && TreeText(tree) <= t && Meaning(tree) == v {
      ObjectTreeIsParsed(t, tree);
    }
  }

  lemma ObjectTreeIsParsed(t: seq<u8>, tree: Tree)
    requires tree.Braces? && Proper(tree) && TreeText(tree) <= t
    ensures ParseObject(t, 0) == Some((Meaning(tree), |TreeText(tree)|))
  {
    hide At, Blank, FirstInk, ParseValue, ParseObject, ParsePairs, MembersText, MembersMeaning, AreBlanks,
      ProperMembers;
    var q := |tree.blanks|;
    TreeTextIsAt(t, tree);
    AtConcat(t, 0, tree.blanks, Core(tree));
    ParsesBehindBlanks(t, 0, tree.blanks);
    BracesAreParsed(t, q, tree.members, tree.comma, tree.gap);
  }

  lemma TreeTextIsAt(t: seq<u8>, tree: Tree)
    requires TreeText(tree) <= t
    ensures At(t, 0, TreeText(tree))
  {
    hide TreeText;
  }
}
