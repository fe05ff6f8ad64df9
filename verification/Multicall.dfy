/** Batched contract reads (internal/rpc/multicall.go): encoding, decoding and chunking. */
module Multicall {
  import opened Abi
  import opened Text

  datatype Call = Call(target: string, callData: seq<byte>)

  datatype CallResult = CallResult(success: bool, returnData: seq<byte>)

  // ----- hex -----

  function HexDigit(n: nat): char
    requires n < 16
  {
    "0123456789abcdef"[n]
  }

  function DigitValue(c: char): int {
    if '0' <= c <= '9' then c as int - '0' as int
    else if 'a' <= c <= 'f' then c as int - 'a' as int + 10
    else if 'A' <= c <= 'F' then c as int - 'A' as int + 10
    else -1
  }

  function HexDigits(b: seq<byte>): string {
    if b == [] then "" else [HexDigit(b[0] / 16), HexDigit(b[0] % 16)] + HexDigits(b[1..])
  }

  /** `EncodeHex`. */
  function EncodeHex(b: seq<byte>): string {
    "0x" + HexDigits(b)
  }

  /** `hex.DecodeString` on an even number of digits. */
  function ParseHex(s: string): Outcome<seq<byte>> {
    if |s| < 2 then (if s == [] then Done([]) else Fail(BadHex))
    else
      var hi, lo := DigitValue(s[0]), DigitValue(s[1]);
      if hi < 0 || lo < 0 then Fail(BadHex)
      else
        match ParseHex(s[2..])
        case Fail(e) => Fail(e)
        case Done(rest) => Done([16 * hi + lo] + rest)
  }

  /** `DecodeHex`: trims blanks and the prefix, and pads an odd number of digits. */
  function DecodeHex(s: string): Outcome<seq<byte>> {
    var digits := TrimPrefix(TrimPrefix(TrimSpace(s), "0x"), "0X");
    ParseHex(if |digits| % 2 == 1 then "0" + digits else digits)
  }

  lemma DigitRoundTrip(n: nat)
    requires n < 16
    ensures DigitValue(HexDigit(n)) == n && HexDigit(n) != 'X' && !Blank(HexDigit(n))
  {
  }

  lemma {:induction false} DigitsRoundTrip(b: seq<byte>)
    ensures ParseHex(HexDigits(b)) == Done(b)
    ensures |HexDigits(b)| == 2 * |b|
    ensures forall c <- HexDigits(b) :: c != 'X' && !Blank(c)
  {
    if b != [] {
      DigitsRoundTrip(b[1..]);
      var (hi, lo) := (b[0] / 16, b[0] % 16);
      DigitRoundTrip(hi);
      DigitRoundTrip(lo);
      var d := HexDigits(b);
      assert d[0] == HexDigit(hi) && d[1] == HexDigit(lo) && d[2..] == HexDigits(b[1..]);
      assert [b[0]] + b[1..] == b;
    }
  }

  lemma TrimKeeps(s: string)
    requires s != [] && !Blank(s[0]) && !Blank(s[|s| - 1])
    ensures TrimSpace(s) == s
  {
  }

  // ----- what a hex string denotes -----

  predicate IsHex(c: char) {
    '0' <= c <= '9' || 'a' <= c <= 'f' || 'A' <= c <= 'F'
  }

  /** The sixteen digits, in either case. */
  lemma DigitTable(c: char, n: nat)
    ensures DigitValue(c) >= 0 <==> IsHex(c)
    ensures '0' <= c <= '9' ==> DigitValue(c) == c as int - 48
    ensures 'a' <= c <= 'f' ==> DigitValue(c) == c as int - 97 + 10
    ensures 'A' <= c <= 'F' ==> DigitValue(c) == c as int - 65 + 10
    ensures n < 10 ==> HexDigit(n) as int == 48 + n
    ensures 10 <= n < 16 ==> HexDigit(n) as int == 97 + n - 10
  {
  }

  /** What follows the prefix: one "0x" or "0X", or the two in that order. */
  function HexBody(s: string): string {
    var t := TrimSpace(s);
    if "0x0X" <= t then t[4..]
    else if "0x" <= t || "0X" <= t then t[2..]
    else t
  }

  /** An odd number of digits gets a leading zero. */
  function EvenBody(body: string): string {
    if |body| % 2 == 1 then "0" + body else body
  }

  lemma DecodeHexBody(s: string)
    ensures DecodeHex(s) == ParseHex(EvenBody(HexBody(s)))
  {
    var t := TrimSpace(s);
    if "0x" <= t {
      var u := t[2..];
      assert t == "0x" + u;
      if "0X" <= u {
        assert u == "0X" + u[2..];
        assert t[..4] == "0x0X" && t[4..] == u[2..];
      }
    }
  }

  lemma {:induction false} ParsesIff(d: string)
    requires |d| % 2 == 0
    ensures ParseHex(d).Done? <==> forall c <- d :: IsHex(c)
    ensures ParseHex(d).Fail? ==> ParseHex(d).error == BadHex
  {
    if d != [] {
      ParsesIff(d[2..]);
      DigitTable(d[0], 0);
      DigitTable(d[1], 0);
      assert d == [d[0], d[1]] + d[2..];
    }
  }

  /** The bytes write as the digits they were read from, in lower case. */
  lemma {:induction false} ParseMeans(d: string, b: seq<byte>)
    requires |d| % 2 == 0 && ParseHex(d) == Done(b)
    ensures HexDigits(b) == ToLower(d)
  {
    if d != [] {
      FirstByte(d, b);
      ParseMeans(d[2..], b[1..]);
      LowerPair(d);
    }
  }

  lemma FirstByte(d: string, b: seq<byte>)
    requires |d| >= 2 && ParseHex(d) == Done(b)
    ensures |b| >= 1 && ParseHex(d[2..]) == Done(b[1..])
    ensures HexDigit(b[0] / 16) == LowerChar(d[0]) && HexDigit(b[0] % 16) == LowerChar(d[1])
  {
    ParseStep(d, b);
    PairWrites(d[0], d[1], b[0]);
  }

  lemma PairWrites(hi: char, lo: char, v: byte)
    requires DigitValue(hi) >= 0 && DigitValue(lo) >= 0 && v == 16 * DigitValue(hi) + DigitValue(lo)
    ensures HexDigit(v / 16) == LowerChar(hi) && HexDigit(v % 16) == LowerChar(lo)
  {
    DigitWrites(hi);
    DigitWrites(lo);
    Nibbles(DigitValue(hi), DigitValue(lo));
  }

  lemma DigitWrites(c: char)
    requires DigitValue(c) >= 0
    ensures DigitValue(c) < 16 && HexDigit(DigitValue(c)) == LowerChar(c)
  {
    DigitTable(c, 0);
    DigitLower(c);
  }

  lemma ParseStep(d: string, b: seq<byte>)
    requires |d| >= 2 && ParseHex(d) == Done(b)
    ensures 0 <= DigitValue(d[0]) < 16 && 0 <= DigitValue(d[1]) < 16
    ensures |b| >= 1 && b[0] == 16 * DigitValue(d[0]) + DigitValue(d[1]) && ParseHex(d[2..]) == Done(b[1..])
  {
    var rest := ParseHex(d[2..]).value;
    assert b == [16 * DigitValue(d[0]) + DigitValue(d[1])] + rest;
    assert b[1..] == rest;
  }

  lemma Nibbles(hi: int, lo: int)
    requires 0 <= hi < 16 && 0 <= lo < 16
    ensures (16 * hi + lo) / 16 == hi && (16 * hi + lo) % 16 == lo
  {
  }

  lemma LowerPair(d: string)
    requires |d| >= 2
    ensures ToLower(d) == [LowerChar(d[0]), LowerChar(d[1])] + ToLower(d[2..])
  {
  }

  /** A digit's value, written again, is the digit in lower case. */
  lemma DigitLower(c: char)
    requires IsHex(c)
    ensures 0 <= DigitValue(c) < 16 && HexDigit(DigitValue(c)) == LowerChar(c)
    ensures DigitValue(LowerChar(c)) == DigitValue(c) && IsHex(LowerChar(c))
  {
    DigitTable(c, DigitValue(c));
  }

  lemma PrefixedBody(d: string)
    requires forall c <- d :: c != 'X' && !Blank(c)
    ensures HexBody("0x" + d) == d
  {
    var s := "0x" + d;
    assert s[0] == '0' && s[1] == 'x';
    assert !Blank(s[|s| - 1]) by {
      assert d == [] || s[|s| - 1] in d;
    }
    TrimKeeps(s);
    DoubleIs(s);
    if |s| >= 4 {
      assert s[3] in d;
    }
    PrefixIs(s, '0', 'x');
    assert s[2..] == d;
  }

  lemma DecodePrefixed(d: string)
    requires |d| % 2 == 0 && forall c <- d :: c != 'X' && !Blank(c)
    ensures DecodeHex("0x" + d) == ParseHex(d)
  {
    PrefixedBody(d);
    DecodeHexBody("0x" + d);
  }

  /** Every byte string survives the trip through hex. */
  lemma HexRoundTrip(b: seq<byte>)
    ensures DecodeHex(EncodeHex(b)) == Done(b)
  {
    DigitsRoundTrip(b);
    DecodePrefixed(HexDigits(b));
  }

  /** A string decodes exactly when its body is hex digits, and to the bytes that write as those digits. */
  lemma DecodeHexMeans(s: string)
    ensures DecodeHex(s).Done? <==> forall c <- HexBody(s) :: IsHex(c)
    ensures DecodeHex(s).Done? ==> HexDigits(DecodeHex(s).value) == ToLower(EvenBody(HexBody(s)))
    ensures DecodeHex(s).Fail? ==> DecodeHex(s).error == BadHex
  {
    var even := EvenBody(HexBody(s));
    DecodeHexBody(s);
    ParsesIff(even);
    EvenBodyHex(HexBody(s));
    if ParseHex(even).Done? {
      ParseMeans(even, ParseHex(even).value);
    }
  }

  lemma EvenBodyHex(body: string)
    ensures |EvenBody(body)| % 2 == 0
    ensures (forall c <- EvenBody(body) :: IsHex(c)) <==> forall c <- body :: IsHex(c)
  {
    assert forall c :: c in body ==> c in EvenBody(body);
  }

  lemma {:induction false} TrimLower(s: string)
    ensures TrimSpace(ToLower(s)) == ToLower(TrimSpace(s))
    decreases |s|
  {
    if s != [] {
      BlankLower(s[0]);
      BlankLower(s[|s| - 1]);
      if Blank(s[0]) {
        assert ToLower(s)[1..] == ToLower(s[1..]);
        TrimLower(s[1..]);
      } else if Blank(s[|s| - 1]) {
        assert ToLower(s)[..|s| - 1] == ToLower(s[..|s| - 1]);
        TrimLower(s[..|s| - 1]);
      }
    }
  }

  lemma BlankLower(c: char)
    ensures Blank(LowerChar(c)) <==> Blank(c)
  {
  }

  /** Case does not change what digits parse to. */
  lemma {:induction false} ParseLower(d: string)
    ensures ParseHex(ToLower(d)) == ParseHex(d)
  {
    if |d| >= 2 {
      assert ToLower(d)[2..] == ToLower(d[2..]);
      ParseLower(d[2..]);
      LowerValue(d[0]);
      LowerValue(d[1]);
    }
  }

  lemma LowerValue(c: char)
    ensures DigitValue(LowerChar(c)) == DigitValue(c)
  {
    DigitTable(c, 0);
    DigitTable(LowerChar(c), 0);
  }

  /** The two prefixes in a row, before digits: the one spelling where case matters. */
  predicate DoublePrefix(s: string) {
    "0x0X" <= TrimSpace(s) && forall c <- TrimSpace(s)[4..] :: IsHex(c)
  }

  /** Decoding ignores case for every string but those: "0x0Xab" decodes and "0x0xab" does not. */
  lemma CaseIgnoredIff(s: string)
    ensures DecodeHex(ToLower(s)) == DecodeHex(s) <==> !DoublePrefix(s)
  {
    if "0x0X" <= TrimSpace(s) {
      SecondPrefixStays(s);
      DecodeHexMeans(s);
      DecodeHexMeans(ToLower(s));
    } else {
      LowerBody(s);
      DecodeHexBody(s);
      DecodeHexBody(ToLower(s));
      ParseLower(EvenBody(HexBody(s)));
    }
  }

  lemma CaseMatters()
    ensures DecodeHex("0x0Xab") == Done([0xab]) && DecodeHex("0x0xab") == Fail(BadHex)
  {
    OnePrefixLeft("0x0xab");
    TwoPrefixes("0x0Xab");
    ParsePair('a', 'b');
  }

  lemma OnePrefixLeft(s: string)
    requires |s| == 6 && s[0] == '0' && s[1] == 'x' && s[2] == '0' && s[3] == 'x' && !Blank(s[5])
    ensures DecodeHex(s) == Fail(BadHex)
  {
    TrimKeeps(s);
    DoubleIs(s);
    PrefixIs(s, '0', 'x');
    DecodeHexMeans(s);
    assert HexBody(s)[1] == 'x';
    assert 'x' in HexBody(s);
  }

  lemma TwoPrefixes(s: string)
    requires |s| == 6 && s[0] == '0' && s[1] == 'x' && s[2] == '0' && s[3] == 'X' && !Blank(s[5])
    ensures DecodeHex(s) == ParseHex([s[4], s[5]])
  {
    TrimKeeps(s);
    DoubleIs(s);
    DecodeHexBody(s);
    assert EvenBody(HexBody(s)) == [s[4], s[5]];
  }

  lemma ParsePair(hi: char, lo: char)
    requires IsHex(hi) && IsHex(lo)
    ensures ParseHex([hi, lo]) == Done([16 * DigitValue(hi) + DigitValue(lo)])
  {
    DigitTable(hi, 0);
    DigitTable(lo, 0);
    var d := [hi, lo];
    assert d[2..] == "" && ParseHex(d[2..]) == Done([]);
    var b: seq<byte> := [16 * DigitValue(hi) + DigitValue(lo)];
    assert ParseHex(d) == Done(b + []);
    assert b + [] == b;
  }

  lemma SecondPrefixStays(s: string)
    requires "0x0X" <= TrimSpace(s)
    ensures 'x' in HexBody(ToLower(s)) && HexBody(s) == TrimSpace(s)[4..]
  {
    TrimLower(s);
    LowerPrefixes(TrimSpace(s));
    assert HexBody(ToLower(s))[1] == 'x';
  }

  lemma LowerBody(s: string)
    requires !("0x0X" <= TrimSpace(s))
    ensures EvenBody(HexBody(ToLower(s))) == ToLower(EvenBody(HexBody(s)))
  {
    var body := HexBody(s);
    assert HexBody(ToLower(s)) == ToLower(body) by {
      TrimLower(s);
      LowerPrefixes(TrimSpace(s));
    }
    LowerEven(body);
  }

  lemma LowerEven(body: string)
    ensures EvenBody(ToLower(body)) == ToLower(EvenBody(body))
  {
  }

  lemma LowerPrefixes(t: string)
    ensures !("0x0X" <= ToLower(t)) && !("0X" <= ToLower(t))
    ensures "0x" <= ToLower(t) <==> "0x" <= t || "0X" <= t
    ensures "0x0X" <= t ==> |ToLower(t)| >= 4 && ToLower(t)[3] == 'x'
    ensures |t| >= 2 ==> ToLower(t)[2..] == ToLower(t[2..])
  {
    var l := ToLower(t);
    assert forall i :: 0 <= i < |l| ==> l[i] != 'X';
    DoubleIs(t);
    DoubleIs(l);
    if |t| >= 2 {
      LowerPair(t);
      assert l[0] == LowerChar(t[0]) && l[1] == LowerChar(t[1]);
      PrefixIs(t, '0', 'x');
      PrefixIs(t, '0', 'X');
      PrefixIs(l, '0', 'x');
      PrefixIs(l, '0', 'X');
    }
  }

  lemma DoubleIs(t: string)
    ensures "0x0X" <= t <==> |t| >= 4 && t[0] == '0' && t[1] == 'x' && t[2] == '0' && t[3] == 'X'
  {
    if |t| >= 4 && t[0] == '0' && t[1] == 'x' && t[2] == '0' && t[3] == 'X' {
      assert t[..4] == "0x0X";
    }
  }

  lemma PrefixIs(t: string, a: char, b: char)
    requires |t| >= 2
    ensures [a, b] <= t <==> t[0] == a && t[1] == b
  {
    if t[0] == a && t[1] == b {
      assert t[..2] == [a, b];
    }
  }

  // ----- encoding -----

  /** First four bytes of the hash of tryAggregate(bool,(address,bytes)[]). */
  const SELECTOR: seq<byte> := [0xbc, 0xe3, 0x8b, 0xd7]

  function BoolNumber(b: bool): nat {
    if b then 1 else 0
  }

  /** A zero word whose last byte is set when `b` holds. */
  function BoolWord(b: bool): (w: seq<byte>)
    ensures |w| == WORD
  {
    Zeros(WORD - 1) + [BoolNumber(b)]
  }

  /** It is the formal encoding of the flag, and reads back as it. */
  lemma BoolWordFormal(b: bool)
    ensures BoolWord(b) == Enc(Uint(BoolNumber(b))) && UintOf(BoolWord(b)) == BoolNumber(b)
  {
    LeadingZeros(WORD - 1, [BoolNumber(b)]);
    BigEndianOf(BoolWord(b));
  }

  /** `encodeAddress`: twenty bytes of hex, left-padded to a word. */
  function EncodeAddress(target: string): (r: Outcome<seq<byte>>)
    ensures r.Done? ==> |r.value| == WORD
    ensures r.Done? <==> DecodeHex(target).Done? && |DecodeHex(target).value| == 20
    ensures r.Fail? ==> r.error == if DecodeHex(target).Done? then BadAddress else BadHex
  {
    DecodeHexMeans(target);
    match DecodeHex(target)
    case Fail(e) => Fail(e)
    case Done(raw) => if |raw| != 20 then Fail(BadAddress) else Done(PadLeft(raw))
  }

  predicate ValidCalls(calls: seq<Call>) {
    forall c <- calls :: EncodeAddress(c.target).Done?
  }

  function CallEntry(c: Call): (e: Entry)
    requires EncodeAddress(c.target).Done?
    ensures |e.head| == WORD
  {
    Entry(EncodeAddress(c.target).value, c.callData)
  }

  function CallEntries(calls: seq<Call>): (r: seq<Entry>)
    requires ValidCalls(calls)
    ensures |r| == |calls| && WordHeads(r)
  {
    seq(|calls|, i requires 0 <= i < |calls| => CallEntry(calls[i]))
  }

  /** One call as an ABI value: the address is the number its twenty bytes denote. */
  function CallValue(c: Call): Value
    requires EncodeAddress(c.target).Done?
  {
    Tuple([Uint(UintOf(DecodeHex(c.target).value)), Bytes(c.callData)])
  }

  function CallValues(calls: seq<Call>): (r: seq<Value>)
    requires ValidCalls(calls)
    ensures |r| == |calls|
  {
    seq(|calls|, i requires 0 <= i < |calls| => CallValue(calls[i]))
  }

  /** The arguments of tryAggregate as an ABI value. */
  function Arguments(requireSuccess: bool, list: seq<Value>): Value {
    Tuple([Uint(BoolNumber(requireSuccess)), Array(list)])
  }

  lemma CallEntryValue(c: Call)
    requires EncodeAddress(c.target).Done?
    ensures EntryValue(CallEntry(c)) == CallValue(c)
  {
    var raw := DecodeHex(c.target).value;
    LeadingZeros(WORD - |raw|, raw);
  }

  lemma CallEntryValues(calls: seq<Call>)
    requires ValidCalls(calls)
    ensures EntryValues(CallEntries(calls)) == CallValues(calls)
  {
    forall i | 0 <= i < |calls|
      ensures EntryValues(CallEntries(calls))[i] == CallValues(calls)[i]
    {
      CallEntryValue(calls[i]);
    }
  }

  lemma ArgumentsEncoding(requireSuccess: bool, entries: seq<Entry>)
    requires Fits(entries)
    ensures Enc(Arguments(requireSuccess, EntryValues(entries)))
         == BoolWord(requireSuccess) + EncodeUint(2 * WORD) + EncParts(EncEntries(entries))
  {
    PairEncoding(Uint(BoolNumber(requireSuccess)), Array(EntryValues(entries)));
    BoolWordFormal(requireSuccess);
    EncodeUintFormal(2 * WORD);
    EntriesEncoding(entries);
  }

  /** `encodeCallTuple` produces the formal encoding of the call. */
  method EncodeCallTuple(c: Call) returns (r: Outcome<seq<byte>>)
    ensures r.Done? <==> EncodeAddress(c.target).Done?
    ensures r.Done? ==> r.value == EncEntry(CallEntry(c))
    ensures r.Done? && |c.callData| < TWO_64 ==> r.value == Enc(CallValue(c))
  {
    var addr := EncodeAddress(c.target);
    if addr.Fail? {
      return Fail(addr.error);
    }
    var out := addr.value;
    out := out + EncodeUint(2 * WORD);
    out := out + EncodeUint(|c.callData|);
    out := out + PadRight(c.callData);
    if |c.callData| < TWO_64 {
      CallEntryValue(c);
      EntryEncoding(CallEntry(c));
    }
    return Done(out);
  }

  lemma {:induction false} ConcatAppend(parts: seq<seq<byte>>, last: seq<byte>)
    ensures Concat(parts + [last]) == Concat(parts) + last
  {
    if parts == [] {
      assert parts + [last] == [last];
      assert [last][1..] == [];
    } else {
      assert (parts + [last])[1..] == parts[1..] + [last];
      ConcatAppend(parts[1..], last);
    }
  }

  /** The element loop: every call's tuple, or the first bad address. */
  method EncodeElements(calls: seq<Call>) returns (r: Outcome<seq<seq<byte>>>)
    ensures r.Done? <==> ValidCalls(calls)
    ensures r.Done? ==> r.value == EncEntries(CallEntries(calls))
  {
    var elements: seq<seq<byte>> := [];
    for i := 0 to |calls|
      invariant |elements| == i
      invariant forall j :: 0 <= j < i ==>
        EncodeAddress(calls[j].target).Done? && elements[j] == EncEntry(CallEntry(calls[j]))
    {
      var enc := EncodeCallTuple(calls[i]);
      if enc.Fail? {
        assert calls[i] in calls;
        return Fail(enc.error);
      }
      elements := elements + [enc.value];
    }
    assert ValidCalls(calls);
    assert elements == EncEntries(CallEntries(calls));
    return Done(elements);
  }

  lemma {:induction false} ConcatPrefixLength(parts: seq<seq<byte>>, i: nat)
    requires i <= |parts|
    ensures |Concat(parts[..i])| <= |Concat(parts)|
    decreases |parts|
  {
    if i > 0 {
      ConcatPrefix(parts, i);
      ConcatPrefixLength(parts[1..], i - 1);
    } else {
      assert parts[..0] == [];
    }
  }

  lemma NextPart(parts: seq<seq<byte>>, i: nat)
    requires i < |parts|
    ensures Concat(parts[..i + 1]) == Concat(parts[..i]) + parts[i]
  {
    ConcatAppend(parts[..i], parts[i]);
    assert parts[..i + 1] == parts[..i] + [parts[i]];
  }

  lemma NextOffset(parts: seq<seq<byte>>, i: nat, offset: nat, words: seq<byte>)
    requires i < |parts|
    ensures words + OffsetWords(parts[i..], offset)
         == (words + EncodeUint(offset)) + OffsetWords(parts[i + 1..], offset + |parts[i]|)
    ensures |Concat(parts[i..])| == |parts[i]| + |Concat(parts[i + 1..])|
  {
    assert parts[i..][1..] == parts[i + 1..];
    var (w, rest) := (EncodeUint(offset), OffsetWords(parts[i + 1..], offset + |parts[i]|));
    assert words + (w + rest) == (words + w) + rest;
  }

  /** 64-bit unsigned arithmetic. */
  function Wrap64(n: nat): (w: nat)
    ensures n < TWO_64 ==> w == n
  {
    n % TWO_64
  }

  /** The offset loop; `offset` is a 64-bit counter. */
  method EncodeOffsets(elements: seq<seq<byte>>) returns (words: seq<byte>)
    ensures WORD * |elements| + |Concat(elements)| < TWO_64 ==> words == OffsetWords(elements, WORD * |elements|)
  {
    words := [];
    ghost var goal := OffsetWords(elements, WORD * |elements|);
    ghost var end := WORD * |elements| + |Concat(elements)|;
    var offset: nat := Wrap64(WORD * |elements|);
    assert elements[0..] == elements && elements[..0] == [];
    for i := 0 to |elements|
      invariant end < TWO_64 ==> offset + |Concat(elements[i..])| == end
      invariant end < TWO_64 ==> goal == words + OffsetWords(elements[i..], offset)
    {
      NextOffset(elements, i, offset, words);
      words := words + EncodeUint(offset);
      offset := Wrap64(offset + |elements[i]|);
    }
    assert elements[|elements|..] == [];
  }

  /** Length, offsets, then the body loop. */
  method EncodeArray(elements: seq<seq<byte>>) returns (body: seq<byte>)
    ensures WORD * |elements| + |Concat(elements)| < TWO_64 ==> body == EncParts(elements)
  {
    body := EncodeUint(|elements|);
    var words := EncodeOffsets(elements);
    var data: seq<byte> := [];
    for i := 0 to |elements|
      invariant data == Concat(elements[..i])
    {
      NextPart(elements, i);
      data := data + elements[i];
    }
    assert elements[..|elements|] == elements;
    body := body + (words + data);
  }

  /**
    `encodeTryAggregate` produces exactly the formal ABI encoding of its arguments,
    as long as the payload is short enough for its 64-bit offsets.
   */
  method EncodeTryAggregate(requireSuccess: bool, calls: seq<Call>) returns (r: Outcome<seq<byte>>)
    ensures r.Done? <==> ValidCalls(calls)
    ensures r.Done? && Fits(CallEntries(calls)) ==>
      r.value == SELECTOR + Enc(Arguments(requireSuccess, CallValues(calls)))
  {
    var head := BoolWord(requireSuccess) + EncodeUint(2 * WORD);
    var elements := EncodeElements(calls);
    if elements.Fail? {
      return Fail(elements.error);
    }
    var body := EncodeArray(elements.value);
    if Fits(CallEntries(calls)) {
      ArgumentsEncoding(requireSuccess, CallEntries(calls));
      CallEntryValues(calls);
    }
    return Done(SELECTOR + (head + body));
  }

  // ----- decoding -----

  const TWO_63: int := 0x8000_0000_0000_0000

  /** `Int64` of a big integer: the low 64 bits, as a signed number. */
  function ToInt64(n: nat): int {
    var low := n % TWO_64;
    if low >= TWO_63 then low - TWO_64 else low
  }

  function ResultEntry(r: CallResult): Entry {
    Entry(BoolWord(r.success), r.returnData)
  }

  function ResultEntries(results: seq<CallResult>): (r: seq<Entry>)
    ensures |r| == |results|
  {
    seq(|results|, i requires 0 <= i < |results| => ResultEntry(results[i]))
  }

  /**
    `data` is a well-formed encoding of `results`: its first word leads to an array
    of (bool, bytes) tuples, laid out in any order the offsets describe.
   */
  predicate Answers(data: seq<byte>, results: seq<CallResult>) {
    && 2 * WORD <= |data| < TWO_63
    && ArrayAt(data, WordAt(data, 0), ResultEntries(results))
  }

  /** The returned list as an ABI value. */
  function ResultValue(r: CallResult): Value {
    Tuple([Uint(BoolNumber(r.success)), Bytes(r.returnData)])
  }

  function AnswerValue(results: seq<CallResult>): Value {
    Tuple([Array(seq(|results|, i requires 0 <= i < |results| => ResultValue(results[i])))])
  }

  /** The canonical encoding of the results is short enough for a Go slice. */
  predicate Answerable(results: seq<CallResult>) {
    WORD * (2 + |results|) + |Concat(EncEntries(ResultEntries(results)))| < TWO_63
  }

  lemma ResultEntryValues(results: seq<CallResult>)
    ensures AnswerValue(results) == Tuple([Array(EntryValues(ResultEntries(results)))])
  {
    BoolWordFormal(true);
    BoolWordFormal(false);
    assert EntryValues(ResultEntries(results))
        == seq(|results|, i requires 0 <= i < |results| => ResultValue(results[i]));
  }

  lemma AnswerBytes(results: seq<CallResult>)
    requires Answerable(results)
    ensures Enc(AnswerValue(results)) == EncodeUint(WORD) + EncParts(EncEntries(ResultEntries(results)))
  {
    var entries := ResultEntries(results);
    ResultEntryValues(results);
    LoneHead(Array(EntryValues(entries)), WORD);
    EntriesEncoding(entries);
    EncodeUintFormal(WORD);
  }

  /** The canonical encoding of the results is one such encoding. */
  lemma CanonicalAnswers(results: seq<CallResult>)
    requires Answerable(results)
    ensures Answers(Enc(AnswerValue(results)), results)
  {
    var entries := ResultEntries(results);
    var parts := EncEntries(entries);
    var data := Enc(AnswerValue(results));
    AnswerBytes(results);
    WordRoundTrip(WORD);
    WordRoundTrip(|parts|);
    OffsetsLength(parts, WORD * |parts|);
    HoldsLeft(EncodeUint(WORD), EncParts(parts), 0, EncodeUint(WORD));
    HoldsWord(data, 0, WORD);
    HoldsShift(EncodeUint(WORD), EncParts(parts), 0, EncParts(parts));
    EntriesRead(data, WORD, entries);
  }

  lemma OffsetsLength(parts: seq<seq<byte>>, offset: nat)
    requires offset + |Concat(parts)| < TWO_64
    ensures |OffsetWords(parts, offset)| == WORD * |parts|
  {
    if parts != [] {
      OffsetAt(parts, offset, 0);
    }
  }

  /** `decodeResultTuple`; a negative index stands for the slice panic. */
  function DecodeTuple(data: seq<byte>, at: int): Outcome<CallResult> {
    if at + 2 * WORD > |data| then Fail(ShortReturn)
    else if at < 0 then Fail(SliceOutOfRange)
    else
      var success := WordAt(data, at) != 0;
      var lenAt := at + ToInt64(WordAt(data, at + WORD));
      if lenAt + WORD > |data| then Fail(ShortReturn)
      else if lenAt < 0 then Fail(SliceOutOfRange)
      else
        var size := ToInt64(WordAt(data, lenAt));
        var start := lenAt + WORD;
        if start + size > |data| then Fail(ShortReturn)
        else if size < 0 then Fail(SliceOutOfRange)
        else Done(CallResult(success, data[start..start + size]))
  }

  /** Result `i`: follow its offset word. */
  function DecodeAt(data: seq<byte>, elementsBase: nat, i: nat): Outcome<CallResult> {
    var offWord := elementsBase + i * WORD;
    if offWord + WORD > |data| then Fail(ShortReturn)
    else DecodeTuple(data, elementsBase + ToInt64(WordAt(data, offWord)))
  }

  function Prepend<T>(front: seq<T>, r: Outcome<seq<T>>): Outcome<seq<T>> {
    match r
    case Fail(e) => Fail(e)
    case Done(rest) => Done(front + rest)
  }

  /** Results `i` and up. */
  function DecodeList(data: seq<byte>, elementsBase: nat, i: nat, want: nat): (r: Outcome<seq<CallResult>>)
    requires i <= want
    ensures r.Done? ==> |r.value| == want - i
    decreases want - i
  {
    if i == want then Done([])
    else
      match DecodeAt(data, elementsBase, i)
      case Fail(e) => Fail(e)
      case Done(res) => Prepend([res], DecodeList(data, elementsBase, i + 1, want))
  }

  function Decode(data: seq<byte>, want: nat): (r: Outcome<seq<CallResult>>)
    ensures r.Done? ==> |r.value| == want
  {
    if |data| < 2 * WORD then Fail(ShortReturn)
    else
      var base := ToInt64(WordAt(data, 0));
      if base + WORD > |data| then Fail(ShortReturn)
      else if base < 0 then Fail(SliceOutOfRange)
      else if ToInt64(WordAt(data, base)) != want then Fail(CountMismatch)
      else DecodeList(data, base + WORD, 0, want)
  }

  /** The conversion keeps the low 64 bits and lands in the signed range. */
  lemma Int64Is(n: nat)
    ensures -0x8000_0000_0000_0000 <= ToInt64(n) < 0x8000_0000_0000_0000
    ensures (n - ToInt64(n)) % 0x1_0000_0000_0000_0000 == 0
  {
  }

  lemma InBounds64(n: nat)
    requires n < TWO_63
    ensures ToInt64(n) == n
  {
  }

  lemma TupleParts(data: seq<byte>, at: nat, lenAt: nat, size: nat)
    requires at + 2 * WORD <= |data| < TWO_63 && lenAt == at + WordAt(data, at + WORD)
    requires lenAt + WORD + size <= |data| && size == WordAt(data, lenAt)
    ensures DecodeTuple(data, at)
         == Done(CallResult(WordAt(data, at) != 0, data[lenAt + WORD..lenAt + WORD + size]))
  {
    InBounds64(lenAt - at);
    InBounds64(size);
  }

  /** A tuple laid out by the offset rules decodes to its result. */
  lemma TupleDecodes(data: seq<byte>, at: nat, res: CallResult)
    requires |data| < TWO_63 && TupleAt(data, at, ResultEntry(res))
    ensures DecodeTuple(data, at) == Done(res)
  {
    assert (WordAt(data, at) != 0) == res.success by {
      BoolWordFormal(res.success);
      assert data[at..at + WORD] == BoolWord(res.success);
    }
    TupleParts(data, at, at + WordAt(data, at + WORD), |res.returnData|);
  }

  lemma DecodeAtFollows(data: seq<byte>, elementsBase: nat, i: nat, at: nat)
    requires elementsBase + i * WORD + WORD <= |data| && at < TWO_63
    requires at == elementsBase + WordAt(data, elementsBase + i * WORD)
    ensures DecodeAt(data, elementsBase, i) == DecodeTuple(data, at)
  {
    InBounds64(WordAt(data, elementsBase + i * WORD));
  }

  lemma FollowAndDecode(data: seq<byte>, elementsBase: nat, i: nat, at: nat, res: CallResult)
    requires |data| < TWO_63 && elementsBase + i * WORD + WORD <= |data|
    requires at == elementsBase + WordAt(data, elementsBase + i * WORD) && TupleAt(data, at, ResultEntry(res))
    ensures DecodeAt(data, elementsBase, i) == Done(res)
  {
    TupleDecodes(data, at, res);
    DecodeAtFollows(data, elementsBase, i, at);
  }

  lemma ElementDecodes(data: seq<byte>, base: nat, i: nat, results: seq<CallResult>)
    requires |data| < TWO_63 && ArrayAt(data, base, ResultEntries(results)) && i < |results|
    ensures DecodeAt(data, base + WORD, i) == Done(results[i])
  {
    var at := base + WORD + WordAt(data, base + WORD + WORD * i);
    assert TupleAt(data, at, ResultEntry(results[i])) by {
      assert TupleAt(data, at, ResultEntries(results)[i]);
    }
    FollowAndDecode(data, base + WORD, i, at, results[i]);
  }

  lemma PrependRest<T>(s: seq<T>, i: nat)
    requires i < |s|
    ensures Prepend([s[i]], Done(s[i + 1..])) == Done(s[i..])
  {
    assert s[i..] == [s[i]] + s[i + 1..];
  }

  lemma {:induction false} ListDecodes(data: seq<byte>, base: nat, i: nat, results: seq<CallResult>)
    requires |data| < TWO_63 && ArrayAt(data, base, ResultEntries(results)) && i <= |results|
    ensures DecodeList(data, base + WORD, i, |results|) == Done(results[i..])
    decreases |results| - i
  {
    if i < |results| {
      ElementDecodes(data, base, i, results);
      ListDecodes(data, base, i + 1, results);
      PrependRest(results, i);
    } else {
      assert results[i..] == [];
    }
  }

  /** Decoding any well-formed encoding of the results returns exactly them. */
  lemma AnswersDecode(data: seq<byte>, results: seq<CallResult>)
    requires Answers(data, results)
    ensures Decode(data, |results|) == Done(results)
  {
    InBounds64(WordAt(data, 0));
    InBounds64(|results|);
    ListDecodes(data, WordAt(data, 0), 0, results);
    assert results[0..] == results;
  }

  /** A list of another length than asked for, or data too short for any list, is refused as such. */
  lemma WrongCountRefused(data: seq<byte>, results: seq<CallResult>, want: nat)
    ensures |data| < 64 ==> Decode(data, want) == Fail(ShortReturn)
    ensures Answers(data, results) && want != |results| ==> Decode(data, want) == Fail(CountMismatch)
  {
    if Answers(data, results) {
      InBounds64(WordAt(data, 0));
      InBounds64(|results|);
    }
  }

  /** `decodeTryAggregate`: the cursor loop over the offset words. */
  method DecodeTryAggregate(hexData: string, want: nat) returns (r: Outcome<seq<CallResult>>)
    ensures DecodeHex(hexData).Fail? ==> r == Fail(DecodeHex(hexData).error)
    ensures DecodeHex(hexData).Done? ==> r == Decode(DecodeHex(hexData).value, want)
  {
    var raw := DecodeHex(hexData);
    if raw.Fail? {
      return Fail(raw.error);
    }
    var data := raw.value;
    if |data| < 2 * WORD {
      return Fail(ShortReturn);
    }
    var base := ToInt64(WordAt(data, 0));
    if base + WORD > |data| {
      return Fail(ShortReturn);
    }
    if base < 0 {
      return Fail(SliceOutOfRange);
    }
    var count := ToInt64(WordAt(data, base));
    if count != want {
      return Fail(CountMismatch);
    }
    r := DecodeElements(data, base + WORD, want);
  }

  lemma PrependTwice<T>(front: seq<T>, x: T, r: Outcome<seq<T>>)
    ensures Prepend(front, Prepend([x], r)) == Prepend(front + [x], r)
    ensures Prepend([], r) == r
  {
    if r.Done? {
      assert front + ([x] + r.value) == (front + [x]) + r.value;
      assert [] + r.value == r.value;
    }
  }

  method ReadElement(data: seq<byte>, elementsBase: nat, i: nat) returns (res: Outcome<CallResult>)
    ensures res == DecodeAt(data, elementsBase, i)
  {
    var offWord := elementsBase + i * WORD;
    if offWord + WORD > |data| {
      return Fail(ShortReturn);
    }
    var rel := ToInt64(WordAt(data, offWord));
    res := DecodeTuple(data, elementsBase + rel);
  }

  method DecodeElements(data: seq<byte>, elementsBase: nat, want: nat) returns (r: Outcome<seq<CallResult>>)
    ensures r == DecodeList(data, elementsBase, 0, want)
  {
    var out: seq<CallResult> := [];
    ghost var goal := DecodeList(data, elementsBase, 0, want);
    PrependTwice(out, CallResult(false, []), goal);
    for i := 0 to want
      invariant goal == Prepend(out, DecodeList(data, elementsBase, i, want))
    {
      var res := ReadElement(data, elementsBase, i);
      if res.Fail? {
        return Fail(res.error);
      }
      PrependTwice(out, res.value, DecodeList(data, elementsBase, i + 1, want));
      out := out + [res.value];
    }
    assert out + [] == out;
    return Done(out);
  }

  // ----- batching -----

  /** Call data asking for these entries, read by the ABI offset rules. */
  predicate Requests(payload: seq<byte>, entries: seq<Entry>) {
    && |payload| >= 4 + 2 * WORD && payload[..4] == [0xbc, 0xe3, 0x8b, 0xd7]
    && var body := payload[4..];
       && body[..WORD] == BoolWord(false)
       && ArrayAt(body, WordAt(body, WORD), entries)
  }

  lemma ThreePieces(a: seq<byte>, b: seq<byte>, c: seq<byte>)
    ensures Holds(a + b + c, 0, a) && Holds(a + b + c, |a|, b) && Holds(a + b + c, |a| + |b|, c)
  {
  }

  /** What `encodeTryAggregate` produces asks for exactly the calls it was given. */
  lemma EncodedRequests(entries: seq<Entry>)
    requires Fits(entries)
    ensures Requests(SELECTOR + Enc(Arguments(false, EntryValues(entries))), entries)
  {
    var body := Enc(Arguments(false, EntryValues(entries)));
    ArgumentsEncoding(false, entries);
    WordRoundTrip(2 * WORD);
    ThreePieces(BoolWord(false), EncodeUint(2 * WORD), EncParts(EncEntries(entries)));
    HoldsWord(body, WORD, 2 * WORD);
    EntriesRead(body, 2 * WORD, entries);
    assert (SELECTOR + body)[4..] == body;
  }

  /** Reading it any other way is impossible. */
  lemma RequestsUnique(payload: seq<byte>, a: seq<Entry>, b: seq<Entry>)
    requires Requests(payload, a) && Requests(payload, b)
    ensures a == b
  {
    ArrayAtUnique(payload[4..], WordAt(payload[4..], WORD), a, b);
  }

  function Execute(exec: Entry -> CallResult, entries: seq<Entry>): (r: seq<CallResult>)
    ensures |r| == |entries|
  {
    seq(|entries|, i requires 0 <= i < |entries| => exec(entries[i]))
  }

  /**
    The node answers every request, whose results a response can hold, with a
    well-formed encoding of what each call returns.
   */
  ghost predicate Conforms(node: string -> Outcome<string>, exec: Entry -> CallResult) {
    forall payload: seq<byte>, entries: seq<Entry> ::
      Requests(payload, entries) && Answerable(Execute(exec, entries)) ==>
      && node(EncodeHex(payload)).Done?
      && DecodeHex(node(EncodeHex(payload)).value).Done?
      && Answers(DecodeHex(node(EncodeHex(payload)).value).value, Execute(exec, entries))
  }

  /** A node that reads the request by offsets and answers with the canonical encoding. */
  ghost function Serve(exec: Entry -> CallResult, request: string): Outcome<string> {
    match DecodeHex(request)
    case Fail(e) => Fail(e)
    case Done(payload) =>
      if exists entries: seq<Entry> :: Requests(payload, entries) then
        var entries: seq<Entry> :| Requests(payload, entries);
        Done(EncodeHex(Enc(AnswerValue(Execute(exec, entries)))))
      else Fail(CallFailed)
  }

  /** So there are conforming nodes, whatever the calls return. */
  lemma ServerConforms(exec: Entry -> CallResult)
    ensures Conforms(request => Serve(exec, request), exec)
  {
    forall payload: seq<byte>, entries: seq<Entry> | Requests(payload, entries) && Answerable(Execute(exec, entries))
      ensures var reply := Serve(exec, EncodeHex(payload));
        reply.Done? && DecodeHex(reply.value).Done? && Answers(DecodeHex(reply.value).value, Execute(exec, entries))
    {
      ServerAnswers(exec, payload, entries);
    }
  }

  lemma ServerAnswers(exec: Entry -> CallResult, payload: seq<byte>, entries: seq<Entry>)
    requires Requests(payload, entries) && Answerable(Execute(exec, entries))
    ensures var reply := Serve(exec, EncodeHex(payload));
      reply.Done? && DecodeHex(reply.value).Done? && Answers(DecodeHex(reply.value).value, Execute(exec, entries))
  {
    HexRoundTrip(payload);
    forall other: seq<Entry> | Requests(payload, other)
      ensures other == entries
    {
      RequestsUnique(payload, other, entries);
    }
    HexRoundTrip(Enc(AnswerValue(Execute(exec, entries))));
    CanonicalAnswers(Execute(exec, entries));
  }

  /** A batch whose payload and answer are short enough for the wire. */
  predicate BatchFits(exec: Entry -> CallResult, chunk: seq<Call>) {
    && ValidCalls(chunk) && Fits(CallEntries(chunk))
    && Answerable(Execute(exec, CallEntries(chunk)))
  }

  /** One batch over the wire. */
  method CallBatch(node: string -> Outcome<string>, chunk: seq<Call>, ghost exec: Entry -> CallResult)
    returns (r: Outcome<seq<CallResult>>)
    ensures r.Done? ==> |r.value| == |chunk|
    ensures BatchFits(exec, chunk) && Conforms(node, exec) ==> r == Done(Execute(exec, CallEntries(chunk)))
  {
    var payload := EncodeTryAggregate(false, chunk);
    if payload.Fail? {
      return Fail(payload.error);
    }
    var raw := node(EncodeHex(payload.value));
    ghost var entries := CallEntries(chunk);
    if BatchFits(exec, chunk) && Conforms(node, exec) {
      CallEntryValues(chunk);
      EncodedRequests(entries);
      assert Requests(payload.value, entries);
      AnswersDecode(DecodeHex(raw.value).value, Execute(exec, entries));
    }
    if raw.Fail? {
      return Fail(raw.error);
    }
    r := DecodeTryAggregate(raw.value, |chunk|);
  }

  function BatchSize(batchSize: int): (size: nat)
    ensures size > 0
  {
    if batchSize <= 0 then 100 else batchSize
  }

  /** The calls from `start` on, at most `size` of them. */
  function Chunk(calls: seq<Call>, start: nat, size: nat): seq<Call>
    requires start <= |calls|
  {
    calls[start..if start + size > |calls| then |calls| else start + size]
  }

  /** Every batch from `start` on satisfies `fits`. */
  ghost predicate EveryBatch(fits: seq<Call> -> bool, calls: seq<Call>, start: nat, size: nat)
    requires size > 0
    decreases |calls| - start
  {
    start < |calls| ==> fits(Chunk(calls, start, size)) && EveryBatch(fits, calls, start + size, size)
  }

  ghost function FitTest(exec: Entry -> CallResult): seq<Call> -> bool {
    chunk => BatchFits(exec, chunk)
  }

  ghost predicate BatchesFit(exec: Entry -> CallResult, calls: seq<Call>, size: nat)
    requires size > 0
  {
    ValidCalls(calls) && EveryBatch(FitTest(exec), calls, 0, size)
  }

  /** What the batching loop relies on: the node conforms, chunks that pass `fits` do fit, and `all` is the goal. */
  ghost predicate Promised(node: string -> Outcome<string>, exec: Entry -> CallResult, fits: seq<Call> -> bool,
                           calls: seq<Call>, all: seq<CallResult>) {
    && Conforms(node, exec)
    && (forall chunk: seq<Call> {:trigger BatchFits(exec, chunk)} :: fits(chunk) ==> BatchFits(exec, chunk))
    && ValidCalls(calls) && all == Execute(exec, CallEntries(calls))
  }

  /** One turn of the batching loop: the results so far, extended by the next batch's. */
  method NextBatch(node: string -> Outcome<string>, calls: seq<Call>, start: nat, size: nat, out: seq<CallResult>,
                   ghost exec: Entry -> CallResult, ghost fits: seq<Call> -> bool, ghost all: seq<CallResult>)
    returns (r: Outcome<seq<CallResult>>)
    requires start < |calls| && |out| == start
    ensures r.Done? ==> |r.value| == start + |Chunk(calls, start, size)|
    ensures Promised(node, exec, fits, calls, all) && fits(Chunk(calls, start, size)) && out <= all ==>
      r.Done? && r.value <= all
  {
    var end := start + size;
    if end > |calls| {
      end := |calls|;
    }
    var decoded := CallBatch(node, calls[start..end], exec);
    if Promised(node, exec, fits, calls, all) && fits(Chunk(calls, start, size)) && out <= all {
      assert BatchFits(exec, Chunk(calls, start, size));
      BatchExecutes(exec, calls, start, end);
      assert out == all[..start];
    }
    if decoded.Fail? {
      return Fail(decoded.error);
    }
    return Done(out + decoded.value);
  }

  method RunBatches(node: string -> Outcome<string>, calls: seq<Call>, size: nat,
                    ghost exec: Entry -> CallResult, ghost fits: seq<Call> -> bool, ghost all: seq<CallResult>)
    returns (r: Outcome<seq<CallResult>>, requests: nat)
    requires size > 0
    ensures r.Done? ==> |r.value| == |calls| && Batches(|calls|, size, requests)
    ensures Promised(node, exec, fits, calls, all) && EveryBatch(fits, calls, 0, size) ==> r.Done? && r.value <= all
  {
    ghost var good := Promised(node, exec, fits, calls, all) && EveryBatch(fits, calls, 0, size);
    var out: seq<CallResult> := [];
    var start := 0;
    requests := 0;
    while start < |calls|
      invariant 0 <= start && |out| == if start < |calls| then start else |calls|
      invariant start == requests * size && (requests > 0 ==> (requests - 1) * size < |calls|)
      invariant good ==> EveryBatch(fits, calls, start, size) && out <= all
      decreases |calls| - start
    {
      var extended := NextBatch(node, calls, start, size, out, exec, fits, all);
      requests := requests + 1;
      if extended.Fail? {
        return Fail(extended.error), requests;
      }
      out := extended.value;
      start := start + size;
    }
    return Done(out), requests;
  }

  /** `n` is the least number of batches of the given size that hold all the calls. */
  predicate Batches(calls: nat, size: nat, n: nat) {
    calls <= n * size && (n > 0 ==> (n - 1) * size < calls)
  }

  /**
    `Aggregate`: for every batch size, a conforming node's results line up
    one-to-one with the calls; in any case a success has one result per call and took
    as few requests as the batch size allows.
   */
  method Aggregate(batchSize: int, calls: seq<Call>, node: string -> Outcome<string>, ghost exec: Entry -> CallResult)
    returns (r: Outcome<seq<CallResult>>, requests: nat)
    ensures r.Done? ==> |r.value| == |calls| && Batches(|calls|, if batchSize <= 0 then 100 else batchSize, requests)
    ensures BatchesFit(exec, calls, BatchSize(batchSize)) && Conforms(node, exec) ==>
      r == Done(Execute(exec, CallEntries(calls)))
  {
    ghost var all: seq<CallResult> := if ValidCalls(calls) then Execute(exec, CallEntries(calls)) else [];
    r, requests := RunBatches(node, calls, BatchSize(batchSize), exec, FitTest(exec), all);
    if BatchesFit(exec, calls, BatchSize(batchSize)) && Conforms(node, exec) {
      PromiseKept(node, exec, calls);
      assert r.value <= all && |r.value| == |all|;
      assert r.value == all;
    }
  }

  lemma PromiseKept(node: string -> Outcome<string>, exec: Entry -> CallResult, calls: seq<Call>)
    requires ValidCalls(calls) && Conforms(node, exec)
    ensures Promised(node, exec, FitTest(exec), calls, Execute(exec, CallEntries(calls)))
  {
  }

  lemma BatchExecutes(exec: Entry -> CallResult, calls: seq<Call>, i: nat, j: nat)
    requires ValidCalls(calls) && i <= j <= |calls| && ValidCalls(calls[i..j])
    ensures var all := Execute(exec, CallEntries(calls));
      all[..j] == all[..i] + Execute(exec, CallEntries(calls[i..j]))
  {
    var all := Execute(exec, CallEntries(calls));
    CallsSlice(calls, i, j);
    assert all[i..j] == Execute(exec, CallEntries(calls[i..j]));
  }

  // ----- when everything fits, so does every batch -----

  lemma ShiftedSlice(parts: seq<seq<byte>>, i: nat, j: nat)
    requires 0 < i <= j <= |parts|
    ensures parts[i..j] == parts[1..][i - 1..j - 1]
  {
    forall t | 0 <= t < j - i
      ensures parts[i..j][t] == parts[1..][i - 1..j - 1][t]
    {
      assert parts[i..j][t] == parts[i + t];
    }
  }

  lemma {:induction false} ConcatSlice(parts: seq<seq<byte>>, i: nat, j: nat)
    requires i <= j <= |parts|
    ensures |Concat(parts[i..j])| <= |Concat(parts)|
    decreases i
  {
    if i == 0 {
      ConcatPrefixLength(parts, j);
    } else {
      ShiftedSlice(parts, i, j);
      ConcatSlice(parts[1..], i - 1, j - 1);
    }
  }

  lemma EntriesSlice(entries: seq<Entry>, i: nat, j: nat)
    requires i <= j <= |entries|
    ensures |Concat(EncEntries(entries[i..j]))| <= |Concat(EncEntries(entries))|
  {
    assert EncEntries(entries[i..j]) == EncEntries(entries)[i..j];
    ConcatSlice(EncEntries(entries), i, j);
  }

  lemma CallsSlice(calls: seq<Call>, i: nat, j: nat)
    requires ValidCalls(calls) && i <= j <= |calls|
    ensures ValidCalls(calls[i..j]) && CallEntries(calls[i..j]) == CallEntries(calls)[i..j]
  {
    assert forall c <- calls[i..j] :: c in calls;
  }

  lemma ResultsSlice(exec: Entry -> CallResult, entries: seq<Entry>, i: nat, j: nat)
    requires i <= j <= |entries|
    ensures ResultEntries(Execute(exec, entries[i..j])) == ResultEntries(Execute(exec, entries))[i..j]
  {
  }

  lemma SliceFits(exec: Entry -> CallResult, calls: seq<Call>, i: nat, j: nat)
    requires i <= j <= |calls| && BatchFits(exec, calls)
    ensures BatchFits(exec, calls[i..j])
  {
    var entries := CallEntries(calls);
    CallsSlice(calls, i, j);
    assert Fits(entries[i..j]) by {
      EntriesSlice(entries, i, j);
    }
    assert Answerable(Execute(exec, entries[i..j])) by {
      ResultsSlice(exec, entries, i, j);
      EntriesSlice(ResultEntries(Execute(exec, entries)), i, j);
    }
  }

  lemma ChunkFits(exec: Entry -> CallResult, calls: seq<Call>, start: nat, size: nat)
    requires start <= |calls| && BatchFits(exec, calls)
    ensures BatchFits(exec, Chunk(calls, start, size))
  {
    SliceFits(exec, calls, start, if start + size > |calls| then |calls| else start + size);
  }

  lemma {:induction false} AllFrom(fits: seq<Call> -> bool, calls: seq<Call>, start: nat, size: nat)
    requires size > 0 && forall i: nat :: i <= |calls| ==> fits(Chunk(calls, i, size))
    ensures EveryBatch(fits, calls, start, size)
    decreases |calls| - start
  {
    if start < |calls| {
      AllFrom(fits, calls, start + size, size);
    }
  }

  /** Calls that would fit one batch fit batches of any size. */
  lemma AllBatchesFit(exec: Entry -> CallResult, calls: seq<Call>, size: nat)
    requires size > 0 && BatchFits(exec, calls)
    ensures BatchesFit(exec, calls, size)
  {
    var fits := FitTest(exec);
    forall i: nat | i <= |calls|
      ensures fits(Chunk(calls, i, size))
    {
      ChunkFits(exec, calls, i, size);
    }
    AllFrom(fits, calls, 0, size);
  }
}
