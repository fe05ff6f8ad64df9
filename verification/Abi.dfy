/**
  Solidity ABI words and values (internal/rpc/abi.go), with the encoder of the
  Contract ABI Specification, section "Formal Specification of the Encoding", as
  the independent reference, and the offset rules for reading data back.
 */
module Abi {
  import Arith

  type byte = x: int | 0 <= x < 256

  const WORD: nat := 32

  datatype RpcError = BadHex | BadAddress | ShortReturn | CountMismatch | CallFailed | SliceOutOfRange

  datatype Outcome<+T> = Done(value: T) | Fail(error: RpcError)

  // ----- big-endian numbers -----

  function Pow256(k: nat): (p: nat)
    ensures p > 0
  {
    if k == 0 then 1 else 256 * Pow256(k - 1)
  }

  /** `SetBytes`: the number a big-endian byte string denotes. */
  function UintOf(b: seq<byte>): nat {
    if b == [] then 0 else UintOf(b[..|b| - 1]) * 256 + b[|b| - 1]
  }

  /** `Bytes`: the shortest big-endian form, empty for zero. */
  function BytesOf(n: nat): seq<byte> {
    if n == 0 then [] else BytesOf(n / 256) + [n % 256]
  }

  function Zeros(n: nat): (z: seq<byte>)
    ensures |z| == n && forall i :: 0 <= i < n ==> z[i] == 0
  {
    seq(n, _ => 0)
  }

  /** `padLeft`. */
  function PadLeft(b: seq<byte>): seq<byte> {
    if |b| >= WORD then b else Zeros(WORD - |b|) + b
  }

  /** `padRight`. */
  function PadRight(b: seq<byte>): seq<byte> {
    if |b| % WORD == 0 then b else b + Zeros((|b| / WORD + 1) * WORD - |b|)
  }

  /** `encodeUint`. */
  function EncodeUint(n: nat): seq<byte> {
    PadLeft(BytesOf(n))
  }

  lemma {:induction false} BytesOfValue(n: nat)
    ensures UintOf(BytesOf(n)) == n
  {
    if n > 0 {
      BytesOfValue(n / 256);
      var b := BytesOf(n);
      assert b[..|b| - 1] == BytesOf(n / 256);
    }
  }

  lemma {:induction false} BytesOfLength(n: nat, k: nat)
    requires n < Pow256(k)
    ensures |BytesOf(n)| <= k
  {
    if n > 0 {
      if k == 0 {
        assert false;
      }
      BytesOfLength(n / 256, k - 1);
    }
  }

  lemma {:induction false} LeadingZeros(z: nat, b: seq<byte>)
    ensures UintOf(Zeros(z) + b) == UintOf(b)
    decreases z + |b|
  {
    var s := Zeros(z) + b;
    if b != [] {
      LeadingZeros(z, b[..|b| - 1]);
      assert s[..|s| - 1] == Zeros(z) + b[..|b| - 1];
    } else if z > 0 {
      assert s[..|s| - 1] == Zeros(z - 1) + [];
      LeadingZeros(z - 1, []);
    } else {
      assert s == [];
    }
  }

  const TWO_64: nat := 0x1_0000_0000_0000_0000

  /** A 64-bit number is one word, and reading the word gives it back. */
  lemma WordRoundTrip(n: nat)
    requires n < TWO_64
    ensures |EncodeUint(n)| == WORD == 32 && UintOf(EncodeUint(n)) == n
  {
    assert Pow256(8) == TWO_64;
    BytesOfLength(n, 8);
    BytesOfValue(n);
    LeadingZeros(WORD - |BytesOf(n)|, BytesOf(n));
  }

  // ----- words of return data -----

  /** `word`: the i-th word, or an error when the data ends before it does. */
  function DataWord(data: seq<byte>, i: nat): (r: Outcome<seq<byte>>)
    ensures r.Done? ==> |r.value| == WORD
    ensures r.Fail? <==> |data| < 32 * (i + 1)
  {
    var start := i * WORD;
    if |data| < start + WORD then Fail(ShortReturn) else Done(data[start..start + WORD])
  }

  /** `decodeUint`. */
  function DecodeUint(data: seq<byte>, i: nat): Outcome<nat> {
    match DataWord(data, i)
    case Fail(e) => Fail(e)
    case Done(w) => Done(UintOf(w))
  }

  /** Mask to the width, then apply the sign. */
  function Signed(n: nat, bits: nat): int
    requires bits > 0
  {
    var masked := n % Arith.Power2(bits);
    if masked >= Arith.Power2(bits - 1) then masked - Arith.Power2(bits) else masked
  }

  /** `decodeInt`. */
  function DecodeInt(data: seq<byte>, i: nat, bits: nat): Outcome<int>
    requires bits > 0
  {
    match DecodeUint(data, i)
    case Fail(e) => Fail(e)
    case Done(n) => Done(Signed(n, bits))
  }

  lemma {:induction false} Power2Splits(a: nat, b: nat)
    ensures Arith.Power2(a + b) == Arith.Power2(a) * Arith.Power2(b)
  {
    if a > 0 {
      Power2Splits(a - 1, b);
    }
  }

  lemma ModOfMod(v: int, m: nat, d: nat)
    requires m > 0 && d > 0
    ensures (v % (m * d)) % m == v % m
  {
    var (q, r) := (v / (m * d), v % (m * d));
    assert v == q * (m * d) + r;
    assert q * (m * d) == (q * d) * m;
    ModShift(r, q * d, m);
  }

  lemma ModShift(r: int, k: int, m: nat)
    requires m > 0
    ensures (k * m + r) % m == r % m
  {
    var (a, b) := ((k * m + r) / m, r / m);
    assert k * m + r == a * m + (k * m + r) % m;
    assert r == b * m + r % m;
    var x := a - k - b;
    assert x * m == a * m - k * m - b * m;
    assert x * m == r % m - (k * m + r) % m;
    if x >= 1 {
      Arith.MulLe(1, x, m);
    } else if x <= -1 {
      Arith.MulLe(x, -1, m);
    }
  }

  lemma SmallMod(v: nat, m: nat)
    requires v < m
    ensures v % m == v
  {
    Arith.DivMod(v, m);
    if v / m >= 1 {
      Arith.MulLe(1, v / m, m);
    }
  }

  lemma SignedMod(v: int, m: nat)
    requires 0 < m && 0 <= v + m < 2 * m
    ensures v % m == if v < 0 then (v + m) % m else v
  {
    if v < 0 {
      ModShift(v + m, -1, m);
    } else {
      SmallMod(v, m);
    }
  }

  /** Sign extension is undone: a value of the declared width survives in a wider word. */
  lemma SignedValue(v: int, bits: nat, wordBits: nat)
    requires 0 < bits <= wordBits && 0 <= v + Arith.Power2(bits - 1) < 2 * Arith.Power2(bits - 1)
    ensures Signed(v % Arith.Power2(wordBits), bits) == v
  {
    var m := Arith.Power2(bits);
    Power2Splits(bits, wordBits - bits);
    ModOfMod(v, m, Arith.Power2(wordBits - bits));
    SignedMod(v, m);
    if v < 0 {
      SmallMod(v + m, m);
    }
    MaskedValue(v, v % Arith.Power2(wordBits), bits);
  }

  lemma MaskedValue(v: int, n: nat, bits: nat)
    requires bits > 0 && 0 <= v + Arith.Power2(bits - 1) < 2 * Arith.Power2(bits - 1)
    requires n % Arith.Power2(bits) == if v < 0 then v + Arith.Power2(bits) else v
    ensures Signed(n, bits) == v
  {
  }

  lemma {:induction false} PowersAgree(k: nat)
    ensures Arith.Power2(8 * k) == Pow256(k)
  {
    if k > 0 {
      PowersAgree(k - 1);
      Power2Splits(8, 8 * (k - 1));
      assert Arith.Power2(8) == 256;
    }
  }

  /** An unsigned word read by position gives back the number the specification encodes there. */
  lemma UnsignedRoundTrip(data: seq<byte>, i: nat, n: nat)
    requires n < Pow256(WORD) && Holds(data, i * WORD, BigEndian(n, WORD))
    ensures DecodeUint(data, i) == Done(n)
  {
    BigEndianValue(n, WORD);
  }

  /**
    A signed value of any declared width, encoded as the specification says (two's
    complement over the whole word), reads back exactly from its word of the data.
   */
  lemma SignedRoundTrip(data: seq<byte>, i: nat, v: int, bits: nat)
    requires 0 < bits <= 8 * WORD && 0 <= v + Arith.Power2(bits - 1) < 2 * Arith.Power2(bits - 1)
    requires Holds(data, i * WORD, BigEndian(v % Pow256(WORD), WORD))
    ensures DecodeInt(data, i, bits) == Done(v)
  {
    PowersAgree(WORD);
    UnsignedRoundTrip(data, i, v % Pow256(WORD));
    SignedValue(v, bits, 8 * WORD);
  }

  // ----- the formal encoding -----

  /** Exactly `width` big-endian bytes of `n`. */
  function BigEndian(n: nat, width: nat): (w: seq<byte>)
    ensures |w| == width
  {
    if width == 0 then [] else BigEndian(n / 256, width - 1) + [n % 256]
  }

  /** Zero bytes appended up to the next multiple of a word. */
  function PadToWords(data: seq<byte>): seq<byte> {
    data + Zeros(-|data| % WORD)
  }

  /** ABI values: an unsigned number (also a bool or an address), a byte string, a tuple, or an array of dynamic length. */
  datatype Value = Uint(n: nat) | Bytes(data: seq<byte>) | Tuple(items: seq<Value>) | Array(items: seq<Value>)

  predicate Dynamic(v: Value) {
    match v
    case Uint(_) => false
    case Bytes(_) => true
    case Array(_) => true
    case Tuple(items) => exists i :: 0 <= i < |items| && Dynamic(items[i])
  }

  /** enc(X). */
  function Enc(v: Value): seq<byte>
    decreases v, 2
  {
    match v
    case Uint(n) => BigEndian(n, WORD)
    case Bytes(data) => BigEndian(|data|, WORD) + PadToWords(data)
    case Tuple(items) => EncTuple(items)
    case Array(items) => BigEndian(|items|, WORD) + EncTuple(items)
  }

  /** Heads first, then tails; a dynamic item's head is the offset of its tail. */
  function EncTuple(items: seq<Value>): seq<byte>
    decreases items, 1
  {
    Heads(items, HeadLength(items)) + Tails(items)
  }

  function HeadLength(items: seq<Value>): nat
    decreases items, 0
  {
    if items == [] then 0
    else (if Dynamic(items[0]) then WORD else |Enc(items[0])|) + HeadLength(items[1..])
  }

  function Tail(v: Value): seq<byte>
    decreases v, 3
  {
    if Dynamic(v) then Enc(v) else []
  }

  function Heads(items: seq<Value>, offset: nat): seq<byte>
    decreases items, 0
  {
    if items == [] then []
    else (if Dynamic(items[0]) then BigEndian(offset, WORD) else Enc(items[0]))
         + Heads(items[1..], offset + |Tail(items[0])|)
  }

  function Tails(items: seq<Value>): seq<byte>
    decreases items, 0
  {
    if items == [] then [] else Tail(items[0]) + Tails(items[1..])
  }

  // ----- the program's helpers compute the specification's words and padding -----

  lemma {:induction false} BigEndianValue(n: nat, width: nat)
    requires n < Pow256(width)
    ensures UintOf(BigEndian(n, width)) == n
  {
    if width > 0 {
      BigEndianValue(n / 256, width - 1);
      var w := BigEndian(n, width);
      assert w[..width - 1] == BigEndian(n / 256, width - 1);
    }
  }

  /** A byte string is the big-endian form of the number it denotes. */
  lemma {:induction false} BigEndianOf(w: seq<byte>)
    ensures BigEndian(UintOf(w), |w|) == w
  {
    if w != [] {
      var front := w[..|w| - 1];
      BigEndianOf(front);
      assert UintOf(w) / 256 == UintOf(front);
      assert front + [w[|w| - 1]] == w;
    }
  }

  lemma {:induction false} BigEndianPads(n: nat, width: nat)
    requires |BytesOf(n)| <= width
    ensures BigEndian(n, width) == Zeros(width - |BytesOf(n)|) + BytesOf(n)
  {
    if width > 0 {
      BigEndianPads(n / 256, width - 1);
      if n == 0 {
        assert Zeros(width) == Zeros(width - 1) + [0];
      }
    }
  }

  /** `encodeUint` is the formal encoding of a number. */
  lemma EncodeUintFormal(n: nat)
    requires n < TWO_64
    ensures EncodeUint(n) == BigEndian(n, WORD) == Enc(Uint(n))
  {
    assert Pow256(8) == TWO_64;
    BytesOfLength(n, 8);
    BigEndianPads(n, WORD);
  }

  /** `padLeft` of a short byte string is the formal encoding of the number it denotes. */
  lemma PadLeftFormal(b: seq<byte>)
    requires |b| <= WORD
    ensures PadLeft(b) == Enc(Uint(UintOf(b)))
  {
    LeadingZeros(WORD - |b|, b);
    BigEndianOf(Zeros(WORD - |b|) + b);
  }

  /** `padRight` is the formal padding. */
  lemma PadRightFormal(b: seq<byte>)
    ensures PadRight(b) == PadToWords(b)
    ensures |PadRight(b)| % 32 == 0 && |b| <= |PadRight(b)| < |b| + 32
  {
    var (q, r) := (|b| / WORD, |b| % WORD);
    assert |b| == q * WORD + r;
    assert -|b| % WORD == if r == 0 then 0 else WORD - r;
  }

  // ----- reading by offsets -----

  /** `chunk` occupies the data from `at`. */
  predicate Holds(data: seq<byte>, at: nat, chunk: seq<byte>) {
    at + |chunk| <= |data| && data[at..at + |chunk|] == chunk
  }

  function WordAt(data: seq<byte>, at: nat): nat
    requires at + WORD <= |data|
  {
    UintOf(data[at..at + WORD])
  }

  /** One element of the arrays the program exchanges: a static word and a byte string. */
  datatype Entry = Entry(head: seq<byte>, payload: seq<byte>)

  /** A (word, bytes) tuple at `at`: the byte string sits at the offset its second word names. */
  predicate TupleAt(data: seq<byte>, at: nat, e: Entry) {
    && |e.head| == WORD && Holds(data, at, e.head) && at + 2 * WORD <= |data|
    && var lenAt := at + WordAt(data, at + WORD);
       && lenAt + WORD <= |data| && WordAt(data, lenAt) == |e.payload|
       && Holds(data, lenAt + WORD, e.payload)
  }

  /** An array of such tuples at `base`: its length, then one offset per element. */
  predicate ArrayAt(data: seq<byte>, base: nat, entries: seq<Entry>) {
    && base + WORD <= |data| && WordAt(data, base) == |entries|
    && base + WORD + WORD * |entries| <= |data|
    && forall i :: 0 <= i < |entries| ==>
         TupleAt(data, base + WORD + WordAt(data, base + WORD + WORD * i), entries[i])
  }

  lemma TupleAtUnique(data: seq<byte>, at: nat, a: Entry, b: Entry)
    requires TupleAt(data, at, a) && TupleAt(data, at, b)
    ensures a == b
  {
  }

  /** The offset rules read one array at most out of given data. */
  lemma ArrayAtUnique(data: seq<byte>, base: nat, a: seq<Entry>, b: seq<Entry>)
    requires ArrayAt(data, base, a) && ArrayAt(data, base, b)
    ensures a == b
  {
    forall i | 0 <= i < |a|
      ensures a[i] == b[i]
    {
      TupleAtUnique(data, base + WORD + WordAt(data, base + WORD + WORD * i), a[i], b[i]);
    }
  }

  // ----- the formal encoding reads back -----

  function EntryValue(e: Entry): Value {
    Tuple([Uint(UintOf(e.head)), Bytes(e.payload)])
  }

  function EntryValues(entries: seq<Entry>): (r: seq<Value>)
    ensures |r| == |entries|
  {
    seq(|entries|, i requires 0 <= i < |entries| => EntryValue(entries[i]))
  }

  /** Bytes of one encoded entry. */
  function EncEntry(e: Entry): seq<byte> {
    e.head + EncodeUint(2 * WORD) + EncodeUint(|e.payload|) + PadRight(e.payload)
  }

  lemma LoneHead(w: Value, offset: nat)
    requires Dynamic(w)
    ensures Heads([w], offset) == BigEndian(offset, WORD) && Tails([w]) == Enc(w) && HeadLength([w]) == WORD
  {
    assert [w][1..] == [];
  }

  /** A static item followed by a dynamic one: the value, the offset past both heads, the tail. */
  lemma PairEncoding(v: Value, w: Value)
    requires !Dynamic(v) && Dynamic(w)
    ensures EncTuple([v, w]) == Enc(v) + BigEndian(|Enc(v)| + WORD, WORD) + Enc(w)
  {
    var items := [v, w];
    var offset := |Enc(v)| + WORD;
    assert items[1..] == [w];
    LoneHead(w, offset);
    assert HeadLength(items) == offset;
    assert Heads(items, offset) == Enc(v) + BigEndian(offset, WORD) by {
      assert Tail(v) == [];
    }
    assert Tails(items) == Enc(w);
  }

  /** The program's tuple bytes are the formal encoding of the tuple. */
  lemma EntryEncoding(e: Entry)
    requires |e.head| == WORD && |e.payload| < TWO_64
    ensures Dynamic(EntryValue(e)) && Enc(EntryValue(e)) == EncEntry(e)
  {
    var v, w := Uint(UintOf(e.head)), Bytes(e.payload);
    assert Dynamic([v, w][1]);
    PairEncoding(v, w);
    BigEndianOf(e.head);
    EncodeUintFormal(2 * WORD);
    EncodeUintFormal(|e.payload|);
    PadRightFormal(e.payload);
    assert Enc(w) == EncodeUint(|e.payload|) + PadRight(e.payload);
  }

  // ----- arrays of dynamic elements -----

  /** One offset word per part, each pointing past the parts before it. */
  function OffsetWords(parts: seq<seq<byte>>, offset: nat): seq<byte> {
    if parts == [] then [] else EncodeUint(offset) + OffsetWords(parts[1..], offset + |parts[0]|)
  }

  function Concat(parts: seq<seq<byte>>): seq<byte> {
    if parts == [] then [] else parts[0] + Concat(parts[1..])
  }

  /** Length word, offset words, parts. */
  function EncParts(parts: seq<seq<byte>>): seq<byte> {
    EncodeUint(|parts|) + (OffsetWords(parts, WORD * |parts|) + Concat(parts))
  }

  function EncAll(items: seq<Value>): (r: seq<seq<byte>>)
    ensures |r| == |items|
  {
    seq(|items|, i requires 0 <= i < |items| => Enc(items[i]))
  }

  /** For dynamic items every head is one word, */
  lemma {:induction false} DynamicHeadLength(items: seq<Value>)
    requires forall v <- items :: Dynamic(v)
    ensures HeadLength(items) == WORD * |items|
    decreases |items|
  {
    if items != [] {
      assert items[0] in items;
      DynamicHeadLength(items[1..]);
    }
  }

  lemma DynamicHead(items: seq<Value>, offset: nat)
    requires items != [] && Dynamic(items[0])
    ensures Heads(items, offset) == BigEndian(offset, WORD) + Heads(items[1..], offset + |Enc(items[0])|)
  {
  }

  /** the heads are running offsets, */
  lemma {:induction false} DynamicHeads(items: seq<Value>, parts: seq<seq<byte>>, offset: nat)
    requires |parts| == |items| && forall i :: 0 <= i < |items| ==> Dynamic(items[i]) && parts[i] == Enc(items[i])
    requires offset + |Concat(parts)| < TWO_64
    ensures Heads(items, offset) == OffsetWords(parts, offset)
    decreases |items|
  {
    if items != [] {
      var next := offset + |parts[0]|;
      var (heads, words) := (Heads(items[1..], next), OffsetWords(parts[1..], next));
      assert heads == words by {
        DynamicHeads(items[1..], parts[1..], next);
      }
      assert Heads(items, offset) == EncodeUint(offset) + heads by {
        DynamicHead(items, offset);
        EncodeUintFormal(offset);
      }
      assert OffsetWords(parts, offset) == EncodeUint(offset) + words;
    }
  }

  /** and the tails are the encodings in order. */
  lemma {:induction false} DynamicTails(items: seq<Value>)
    requires forall v <- items :: Dynamic(v)
    ensures Tails(items) == Concat(EncAll(items))
    decreases |items|
  {
    if items != [] {
      assert items[0] in items;
      assert EncAll(items)[1..] == EncAll(items[1..]);
      DynamicTails(items[1..]);
    }
  }

  predicate WordHeads(entries: seq<Entry>) {
    forall e <- entries :: |e.head| == WORD
  }

  function EncEntries(entries: seq<Entry>): (r: seq<seq<byte>>)
    ensures |r| == |entries|
  {
    seq(|entries|, i requires 0 <= i < |entries| => EncEntry(entries[i]))
  }

  /** Sizes stay below 2^64, so every length and offset fits the words the program writes. */
  predicate Fits(entries: seq<Entry>) {
    WordHeads(entries) && WORD * |entries| + |Concat(EncEntries(entries))| < TWO_64
  }

  lemma EntryFits(entries: seq<Entry>, i: nat)
    requires Fits(entries) && i < |entries|
    ensures |entries[i].head| == WORD && |entries[i].payload| < TWO_64
  {
    assert entries[i] in entries;
    PartFits(EncEntries(entries), i);
  }

  lemma EntriesEncodeEach(entries: seq<Entry>)
    requires Fits(entries)
    ensures EncAll(EntryValues(entries)) == EncEntries(entries)
    ensures forall v <- EntryValues(entries) :: Dynamic(v)
  {
    var items := EntryValues(entries);
    forall i | 0 <= i < |entries|
      ensures Dynamic(items[i]) && Enc(items[i]) == EncEntry(entries[i])
    {
      EntryFits(entries, i);
      EntryEncoding(entries[i]);
    }
  }

  /** The program's array bytes are the formal encoding of the array. */
  lemma EntriesEncoding(entries: seq<Entry>)
    requires Fits(entries)
    ensures Enc(Array(EntryValues(entries))) == EncParts(EncEntries(entries))
  {
    var items := EntryValues(entries);
    EntriesEncodeEach(entries);
    DynamicHeadLength(items);
    DynamicHeads(items, EncEntries(entries), WORD * |items|);
    DynamicTails(items);
    EncodeUintFormal(|entries|);
  }

  // ----- where things sit -----

  lemma HoldsShift(a: seq<byte>, b: seq<byte>, at: nat, chunk: seq<byte>)
    requires Holds(b, at, chunk)
    ensures Holds(a + b, |a| + at, chunk)
  {
  }

  lemma HoldsLeft(a: seq<byte>, b: seq<byte>, at: nat, chunk: seq<byte>)
    requires Holds(a, at, chunk)
    ensures Holds(a + b, at, chunk)
  {
  }

  lemma HoldsWithin(data: seq<byte>, at: nat, b: seq<byte>, inner: nat, chunk: seq<byte>)
    requires Holds(data, at, b) && Holds(b, inner, chunk)
    ensures Holds(data, at + inner, chunk)
  {
    forall k | 0 <= k < |chunk|
      ensures data[at + inner + k] == chunk[k]
    {
      assert data[at..at + |b|][inner + k] == b[inner + k];
      assert b[inner..inner + |chunk|][k] == chunk[k];
    }
    assert data[at + inner..at + inner + |chunk|] == chunk;
  }

  lemma HoldsWord(data: seq<byte>, at: nat, n: nat)
    requires n < TWO_64 && Holds(data, at, EncodeUint(n))
    ensures at + WORD <= |data| && WordAt(data, at) == n
  {
    WordRoundTrip(n);
  }

  lemma PadRightHolds(b: seq<byte>)
    ensures Holds(PadRight(b), 0, b)
  {
  }

  /** Four consecutive pieces: word, offset, length, padded bytes. */
  lemma FourPieces(data: seq<byte>, at: nat, h: seq<byte>, o: seq<byte>, n: seq<byte>, p: seq<byte>)
    requires Holds(data, at, h + o + n + p)
    ensures Holds(data, at, h) && Holds(data, at + |h|, o)
    ensures Holds(data, at + |h| + |o|, n) && Holds(data, at + |h| + |o| + |n|, p)
  {
    var all := h + o + n + p;
    assert Holds(all, 0, h) && Holds(all, |h|, o) && Holds(all, |h| + |o|, n) && Holds(all, |h| + |o| + |n|, p);
    HoldsWithin(data, at, all, 0, h);
    HoldsWithin(data, at, all, |h|, o);
    HoldsWithin(data, at, all, |h| + |o|, n);
    HoldsWithin(data, at, all, |h| + |o| + |n|, p);
  }

  lemma PiecesRead(data: seq<byte>, at: nat, h: seq<byte>, o: seq<byte>, n: seq<byte>, p: seq<byte>, payload: seq<byte>)
    requires |h| == |o| == |n| == WORD && UintOf(o) == 2 * WORD && UintOf(n) == |payload| && Holds(p, 0, payload)
    requires Holds(data, at, h + o + n + p)
    ensures TupleAt(data, at, Entry(h, payload))
  {
    FourPieces(data, at, h, o, n, p);
    HoldsWithin(data, at + 3 * WORD, p, 0, payload);
  }

  /** The bytes of an encoded entry read back as that entry. */
  lemma EntryReads(data: seq<byte>, at: nat, e: Entry)
    requires |e.head| == WORD && |e.payload| < TWO_64 && Holds(data, at, EncEntry(e))
    ensures TupleAt(data, at, e)
  {
    WordRoundTrip(2 * WORD);
    WordRoundTrip(|e.payload|);
    PadRightHolds(e.payload);
    PiecesRead(data, at, e.head, EncodeUint(2 * WORD), EncodeUint(|e.payload|), PadRight(e.payload), e.payload);
  }

  lemma ConcatPrefix(parts: seq<seq<byte>>, i: nat)
    requires 0 < i <= |parts|
    ensures |Concat(parts[..i])| == |parts[0]| + |Concat(parts[1..][..i - 1])|
  {
    assert parts[..i][1..] == parts[1..][..i - 1];
  }

  lemma {:induction false} OffsetAt(parts: seq<seq<byte>>, offset: nat, i: nat)
    requires i < |parts| && offset + |Concat(parts)| < TWO_64
    ensures |OffsetWords(parts, offset)| == WORD * |parts|
    ensures |Concat(parts[..i])| <= |Concat(parts)|
    ensures Holds(OffsetWords(parts, offset), WORD * i, EncodeUint(offset + |Concat(parts[..i])|))
    decreases |parts|
  {
    var (rest, next) := (parts[1..], offset + |parts[0]|);
    var (word, words) := (EncodeUint(offset), OffsetWords(rest, next));
    WordRoundTrip(offset);
    if |rest| > 0 {
      OffsetAt(rest, next, if i == 0 then 0 else i - 1);
    }
    assert OffsetWords(parts, offset) == word + words;
    if i == 0 {
      assert parts[..0] == [];
    } else {
      ConcatPrefix(parts, i);
      var entry := EncodeUint(next + |Concat(rest[..i - 1])|);
      assert Holds(words, WORD * (i - 1), entry);
      HoldsShift(word, words, WORD * (i - 1), entry);
    }
  }

  lemma {:induction false} PartAt(parts: seq<seq<byte>>, i: nat)
    requires i < |parts|
    ensures Holds(Concat(parts), |Concat(parts[..i])|, parts[i])
    decreases |parts|
  {
    if i == 0 {
      assert parts[..0] == [];
    } else {
      ConcatPrefix(parts, i);
      PartAt(parts[1..], i - 1);
      HoldsShift(parts[0], Concat(parts[1..]), |Concat(parts[1..][..i - 1])|, parts[i]);
    }
  }

  lemma MiddlePiece(data: seq<byte>, base: nat, n: seq<byte>, words: seq<byte>, bodies: seq<byte>, at: nat, c: seq<byte>)
    requires Holds(data, base, n + (words + bodies)) && Holds(words, at, c)
    ensures Holds(data, base + |n| + at, c)
  {
    HoldsLeft(words, bodies, at, c);
    HoldsShift(n, words + bodies, at, c);
    HoldsWithin(data, base, n + (words + bodies), |n| + at, c);
  }

  lemma LastPiece(data: seq<byte>, base: nat, n: seq<byte>, words: seq<byte>, bodies: seq<byte>, at: nat, c: seq<byte>)
    requires Holds(data, base, n + (words + bodies)) && Holds(bodies, at, c)
    ensures Holds(data, base + |n| + (|words| + at), c)
  {
    HoldsShift(words, bodies, at, c);
    HoldsShift(n, words + bodies, |words| + at, c);
    HoldsWithin(data, base, n + (words + bodies), |n| + (|words| + at), c);
  }

  /** A length word, offset words and bodies: following the word at 32 * i leads to the part it points at. */
  lemma FollowOffset(data: seq<byte>, base: nat, n: seq<byte>, words: seq<byte>, bodies: seq<byte>,
                     i: nat, word: seq<byte>, before: nat, part: seq<byte>)
    requires Holds(data, base, n + (words + bodies)) && |n| == WORD
    requires Holds(words, WORD * i, word) && |word| == WORD && UintOf(word) == |words| + before
    requires Holds(bodies, before, part)
    ensures base + WORD + WORD * i + WORD <= |data|
    ensures Holds(data, base + WORD + WordAt(data, base + WORD + WORD * i), part)
  {
    MiddlePiece(data, base, n, words, bodies, WORD * i, word);
    LastPiece(data, base, n, words, bodies, before, part);
  }

  /** Where the offset word of part `i` and the part itself sit. */
  lemma PartOfArray(data: seq<byte>, base: nat, parts: seq<seq<byte>>, i: nat)
    requires i < |parts| && WORD * |parts| + |Concat(parts)| < TWO_64 && Holds(data, base, EncParts(parts))
    ensures base + WORD + WORD * i + WORD <= |data|
    ensures Holds(data, base + WORD + WordAt(data, base + WORD + WORD * i), parts[i])
  {
    var before := |Concat(parts[..i])|;
    var n, words, word := EncodeUint(|parts|), OffsetWords(parts, WORD * |parts|), EncodeUint(WORD * |parts| + before);
    OffsetAt(parts, WORD * |parts|, i);
    assert |n| == WORD by {
      WordRoundTrip(|parts|);
    }
    assert |word| == WORD && UintOf(word) == |words| + before by {
      WordRoundTrip(WORD * |parts| + before);
    }
    assert Holds(Concat(parts), before, parts[i]) by {
      PartAt(parts, i);
    }
    FollowOffset(data, base, n, words, Concat(parts), i, word, before, parts[i]);
  }

  lemma {:induction false} PartFits(parts: seq<seq<byte>>, i: nat)
    requires i < |parts|
    ensures |parts[i]| <= |Concat(parts)|
    decreases |parts|
  {
    if i > 0 {
      PartFits(parts[1..], i - 1);
    }
  }

  lemma EntryOfArray(data: seq<byte>, base: nat, entries: seq<Entry>, i: nat)
    requires Fits(entries) && Holds(data, base, EncParts(EncEntries(entries))) && i < |entries|
    ensures base + WORD + WORD * i + WORD <= |data|
    ensures TupleAt(data, base + WORD + WordAt(data, base + WORD + WORD * i), entries[i])
  {
    PartOfArray(data, base, EncEntries(entries), i);
    EntryFits(entries, i);
    EntryReads(data, base + WORD + WordAt(data, base + WORD + WORD * i), entries[i]);
  }

  lemma LengthOfArray(data: seq<byte>, base: nat, parts: seq<seq<byte>>)
    requires |parts| < TWO_64 && Holds(data, base, EncParts(parts))
    ensures base + WORD <= |data| && WordAt(data, base) == |parts|
  {
    HoldsLeft(EncodeUint(|parts|), OffsetWords(parts, WORD * |parts|) + Concat(parts), 0, EncodeUint(|parts|));
    HoldsWithin(data, base, EncParts(parts), 0, EncodeUint(|parts|));
    HoldsWord(data, base, |parts|);
  }

  /** Data holding the formal encoding of an array reads back as that array. */
  lemma EntriesRead(data: seq<byte>, base: nat, entries: seq<Entry>)
    requires Fits(entries) && Holds(data, base, EncParts(EncEntries(entries)))
    ensures ArrayAt(data, base, entries)
  {
    LengthOfArray(data, base, EncEntries(entries));
    forall i | 0 <= i < |entries|
      ensures base + WORD + WORD * i + WORD <= |data|
      ensures TupleAt(data, base + WORD + WordAt(data, base + WORD + WORD * i), entries[i])
    {
      EntryOfArray(data, base, entries, i);
    }
    if |entries| > 0 {
      EntryOfArray(data, base, entries, |entries| - 1);
    }
  }
}
