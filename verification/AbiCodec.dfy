/** The relay's byte layouts: the packed withdrawal message, the withdraw() calldata and the
    Deposit event data ("Formal Specification of the Encoding", Solidity Contract ABI). */
module AbiCodec {
  import opened IntegerMath
  import opened Bytes
  import opened NumberTheory
  import opened Strings
  import opened Numerals

  function Abs(n: int): nat { if n < 0 then -n else n }

  /** The decoded hex of an address, truncated or left-padded to 20 bytes. */
  function AddressBytes(b: seq<byte>): (s: seq<byte>)
    ensures |s| == 20
  {
    if |b| >= 20 then b[|b| - 20..] else Zeros(20 - |b|) + b
  }

  /** The 20 bytes hold the decoded number modulo 2^160. */
  lemma AddressValue(b: seq<byte>)
    ensures FromBytes(AddressBytes(b)) == FromBytes(b) % Pow256(20)
  {
    hide FromBytes, Pow256;
    if |b| >= 20 {
      var high, low := b[..|b| - 20], b[|b| - 20..];
      assert b == high + low;
      FromBytesAdd(high, low);
      FromBytesBound(low);
      Remainder(FromBytes(high), Pow256(20), FromBytes(low));
    } else {
      FromZeros(20 - |b|, b);
      FromBytesBound(AddressBytes(b));
      SmallRemainder(FromBytes(b), Pow256(20));
    }
  }

  lemma Remainder(q: nat, m: nat, r: nat)
    requires r < m
    ensures (q * m + r) % m == r
  {
    SmallRemainder(r, m);
    DividesWitness(m, q * m, q);
    CongIffSameMod(q * m + r, r, m);
  }

  function PaddedAddress(b: seq<byte>): (s: seq<byte>)
    ensures |s| == 32
  {
    Zeros(12) + AddressBytes(b)
  }

  /** A 32-byte buffer with `n.Bytes()` copied to its right end. */
  method WordBuffer(n: nat) returns (s: seq<byte>)
    requires n < WORD
    ensures s == Word(n)
  {
    WordFits(n);
    var padded := new byte[32](_ => 0);
    var bytes := ToBytes(n);
    CopyInto(padded, 32 - |bytes|, bytes);
    return padded[..];
  }

  // --- The packed message ------------------------------------------------------

  /** The fields of a withdrawal; `big.Int.Bytes` drops the sign of chainId and amount. */
  datatype Withdrawal = Withdrawal(
    chainId: int, contract: seq<byte>, token: seq<byte>, amount: int, recipient: seq<byte>, nonce: nat)

  /** The 64-bit types of chainId and nonce. */
  predicate Typed(w: Withdrawal) { 0 - U64 / 2 <= w.chainId < U64 / 2 && w.nonce < U64 }

  predicate InRange(w: Withdrawal) { Typed(w) && Abs(w.amount) < WORD }

  function Packed(w: Withdrawal): seq<byte>
    requires InRange(w)
  {
    Word(Abs(w.chainId)) + AddressBytes(w.contract) + AddressBytes(w.token)
    + Word(Abs(w.amount)) + AddressBytes(w.recipient) + Word(w.nonce)
  }

  /** An amount of more than 32 bytes stops the program, on a negative slice bound. */
  method SolidityPack(w: Withdrawal) returns (r: Option<seq<byte>>)
    requires Typed(w)
    ensures r == if Abs(w.amount) < WORD then Some(Packed(w)) else None
  {
    hide ToBytes, AddressBytes, FromBytes;
    var buf: seq<byte> := [];
    var padded := WordBuffer(Abs(w.chainId));
    buf := buf + padded;
    buf := buf + AddressBytes(w.contract);
    buf := buf + AddressBytes(w.token);
    if Abs(w.amount) >= WORD { return None; }
    var amountPadded := WordBuffer(Abs(w.amount));
    buf := buf + amountPadded;
    buf := buf + AddressBytes(w.recipient);
    var noncePadded := WordBuffer(w.nonce);
    buf := buf + noncePadded;
    assert buf == Packed(w);
    return Some(buf);
  }

  /** Every field lies at its own place and reads back: numbers up to their sign, addresses as 20
      bytes. */
  lemma PackedFields(w: Withdrawal)
    requires InRange(w)
    ensures var p := Packed(w);
      && |p| == 156
      && FromBytes(p[..32]) == Abs(w.chainId) && p[32..52] == AddressBytes(w.contract)
      && p[52..72] == AddressBytes(w.token) && FromBytes(p[72..104]) == Abs(w.amount)
      && p[104..124] == AddressBytes(w.recipient) && FromBytes(p[124..156]) == w.nonce
  {
    hide FromBytes, AddressBytes;
    var p := Packed(w);
    assert p[..32] == Word(Abs(w.chainId)) && p[72..104] == Word(Abs(w.amount)) && p[124..156] == Word(w.nonce);
  }

  /** Two withdrawals pack to the same bytes exactly when their nonces and 20-byte addresses agree
      and their chain ids and amounts agree up to sign. */
  lemma PackedInjective(a: Withdrawal, b: Withdrawal)
    requires InRange(a) && InRange(b)
    ensures Packed(a) == Packed(b) <==>
      && Abs(a.chainId) == Abs(b.chainId) && Abs(a.amount) == Abs(b.amount) && a.nonce == b.nonce
      && AddressBytes(a.contract) == AddressBytes(b.contract)
      && AddressBytes(a.token) == AddressBytes(b.token)
      && AddressBytes(a.recipient) == AddressBytes(b.recipient)
  {
    PackedFields(a);
    PackedFields(b);
  }

  /** So on non-negative chain ids and amounts and full addresses packing loses nothing. */
  lemma PackedDetermines(a: Withdrawal, b: Withdrawal)
    requires InRange(a) && InRange(b) && Packed(a) == Packed(b)
    requires a.chainId >= 0 && b.chainId >= 0 && a.amount >= 0 && b.amount >= 0
    requires |a.contract| == |b.contract| == |a.token| == |b.token| == |a.recipient| == |b.recipient| == 20
    ensures a == b
  {
    PackedInjective(a, b);
    hide Packed;
    AddressExact(a.contract); AddressExact(b.contract);
    AddressExact(a.token); AddressExact(b.token);
    AddressExact(a.recipient); AddressExact(b.recipient);
  }

  lemma AddressExact(b: seq<byte>)
    requires |b| == 20
    ensures AddressBytes(b) == b
  {}

  /** The sign is lost: a negative amount, which the burn search does not refuse, packs like its
      opposite. */
  lemma PackedSignCollision(w: Withdrawal)
    requires InRange(w) && w.amount > 0
    ensures var opposite := w.(amount := 0 - w.amount);
      InRange(opposite) && opposite != w && Packed(opposite) == Packed(w)
  {
    var opposite := w.(amount := 0 - w.amount);
    assert Abs(opposite.amount) == Abs(w.amount);
    PackedInjective(w, opposite);
    hide Packed;
  }

  // --- withdraw() calldata -------------------------------------------------------

  function PadLength(n: nat): nat { if n % 32 == 0 then 0 else 32 - n % 32 }

  function Calldata(selector: seq<byte>, w: Withdrawal, sigs: seq<byte>): (s: seq<byte>)
    requires InRange(w) && |selector| == 4 && |sigs| < U64
    ensures |s| == 4 + 192 + |sigs| + PadLength(|sigs|)
  {
    selector
    + PaddedAddress(w.token) + Word(Abs(w.amount)) + PaddedAddress(w.recipient) + Word(w.nonce)
    + Word(160) + Word(|sigs|) + sigs + Zeros(PadLength(|sigs|))
  }

  method EncodeWithdrawCall(selector: seq<byte>, w: Withdrawal, sigs: seq<byte>) returns (r: Option<seq<byte>>)
    requires Typed(w) && |selector| == 4 && |sigs| < U64
    ensures r == if Abs(w.amount) < WORD then Some(Calldata(selector, w, sigs)) else None
  {
    hide ToBytes, AddressBytes, FromBytes;
    var buf := selector;
    buf := buf + PaddedAddress(w.token);
    if Abs(w.amount) >= WORD { return None; }
    var amountPadded := WordBuffer(Abs(w.amount));
    buf := buf + amountPadded;
    buf := buf + PaddedAddress(w.recipient);
    var noncePadded := WordBuffer(w.nonce);
    buf := buf + noncePadded;
    var offsetPadded := new byte[32](_ => 0);
    offsetPadded[31] := 0xA0;
    OffsetWord(offsetPadded[..]);
    buf := buf + offsetPadded[..];
    var sigLenPadded := WordBuffer(|sigs|);
    buf := buf + sigLenPadded;
    buf := buf + sigs;
    var pad := |sigs| % 32;
    if pad != 0 {
      buf := buf + Zeros(32 - pad);
    } else {
      assert buf + Zeros(0) == buf;
    }
    return Some(buf);
  }

  lemma OffsetWord(s: seq<byte>)
    requires |s| == 32 && s[31] == 160 && forall i :: 0 <= i < 31 ==> s[i] == 0
    ensures s == Word(160)
  {
    assert ToBytes(160) == [160] by { assert ToBytes(0) == []; }
    WordFits(160);
    assert s == Zeros(31) + [160];
  }

  /** The big-endian word at position i, and the bytes argument at a given offset, as the ABI
      specification reads them. */
  function WordAt(s: seq<byte>, i: nat): nat
    requires i + 32 <= |s|
  {
    FromBytes(s[i..i + 32])
  }

  datatype Arguments = Arguments(token: seq<byte>, amount: nat, recipient: seq<byte>, nonce: nat, sigs: seq<byte>)

  predicate ZeroFrom(s: seq<byte>, i: nat)
    requires i <= |s|
  {
    forall k :: i <= k < |s| ==> s[k] == 0
  }

  /** A decoder written from the ABI specification: four static head slots, one offset, and a
      length-prefixed tail whose padding is zero and ends on a word boundary. */
  function DecodeWithdraw(data: seq<byte>): Option<Arguments> {
    if |data| < 4 + 160 then None
    else
      var args := data[4..];
      var offset := WordAt(args, 128);
      if offset + 32 > |args| then None
      else
        var len := WordAt(args, offset);
        var tail := offset + 32;
        if tail + len > |args| || |args| != tail + len + PadLength(len) || !ZeroFrom(args, tail + len)
           || WordAt(args, 0) != FromBytes(args[12..32]) || WordAt(args, 64) != FromBytes(args[76..96])
        then None
        else Some(Arguments(args[12..32], WordAt(args, 32), args[76..96], WordAt(args, 96), args[tail..tail + len]))
  }

  lemma CalldataSlices(selector: seq<byte>, w: Withdrawal, sigs: seq<byte>)
    requires InRange(w) && |selector| == 4 && |sigs| < U64
    ensures var a := Calldata(selector, w, sigs)[4..]; var tail := 192 + |sigs|;
      && |a| == tail + PadLength(|sigs|)
      && a[..32] == PaddedAddress(w.token) && a[32..64] == Word(Abs(w.amount))
      && a[64..96] == PaddedAddress(w.recipient) && a[96..128] == Word(w.nonce)
      && a[128..160] == Word(160) && a[160..192] == Word(|sigs|)
      && a[192..tail] == sigs && a[tail..] == Zeros(PadLength(|sigs|))
  {
    hide Word, PaddedAddress, PadLength;
    var data := Calldata(selector, w, sigs);
    var head := PaddedAddress(w.token) + Word(Abs(w.amount)) + PaddedAddress(w.recipient) + Word(w.nonce)
                + Word(160) + Word(|sigs|);
    var pad := Zeros(PadLength(|sigs|));
    assert data == selector + (head + sigs + pad);
    var a := data[4..];
    assert a == head + sigs + pad;
    assert a[..192] == head;
    assert a[192..192 + |sigs|] == sigs;
    assert a[192 + |sigs|..] == pad;
    assert head[..32] == PaddedAddress(w.token) && head[32..64] == Word(Abs(w.amount));
    assert head[64..96] == PaddedAddress(w.recipient) && head[96..128] == Word(w.nonce);
    assert head[128..160] == Word(160) && head[160..192] == Word(|sigs|);
    SliceOfPrefix(a, head, 0, 32); SliceOfPrefix(a, head, 32, 64); SliceOfPrefix(a, head, 64, 96);
    SliceOfPrefix(a, head, 96, 128); SliceOfPrefix(a, head, 128, 160); SliceOfPrefix(a, head, 160, 192);
  }

  lemma SliceOfPrefix(a: seq<byte>, head: seq<byte>, i: nat, j: nat)
    requires |head| <= |a| && a[..|head|] == head && i <= j <= |head|
    ensures a[i..j] == head[i..j]
  {
    assert a[..|head|][i..j] == a[i..j];
  }

  lemma AddressSlot(a: seq<byte>, i: nat, b: seq<byte>)
    requires i + 32 <= |a| && a[i..i + 32] == PaddedAddress(b)
    ensures a[i + 12..i + 32] == AddressBytes(b)
    ensures FromBytes(a[i..i + 32]) == FromBytes(a[i + 12..i + 32])
  {
    FromZeros(12, AddressBytes(b));
    assert a[i + 12..i + 32] == a[i..i + 32][12..];
  }

  /** What the decoder looks at, in the calldata without its selector. */
  predicate HasSlots(a: seq<byte>, w: Withdrawal, sigs: seq<byte>) {
    var tail := 192 + |sigs|;
    && |a| == tail + PadLength(|sigs|) && a[192..tail] == sigs && ZeroFrom(a, tail)
    && WordAt(a, 32) == Abs(w.amount) && WordAt(a, 96) == w.nonce
    && WordAt(a, 128) == 160 && WordAt(a, 160) == |sigs|
    && a[12..32] == AddressBytes(w.token) && WordAt(a, 0) == FromBytes(a[12..32])
    && a[76..96] == AddressBytes(w.recipient) && WordAt(a, 64) == FromBytes(a[76..96])
  }

  lemma CalldataWords(selector: seq<byte>, w: Withdrawal, sigs: seq<byte>)
    requires InRange(w) && |selector| == 4 && |sigs| < U64
    ensures HasSlots(Calldata(selector, w, sigs)[4..], w, sigs)
  {
    hide Calldata, AddressBytes, PaddedAddress, PadLength, Abs;
    var a, tail := Calldata(selector, w, sigs)[4..], 192 + |sigs|;
    CalldataSlices(selector, w, sigs);
    AddressSlot(a, 0, w.token);
    AddressSlot(a, 64, w.recipient);
    WordSlot(a, 32, Abs(w.amount));
    WordSlot(a, 96, w.nonce);
    WordSlot(a, 128, 160);
    WordSlot(a, 160, |sigs|);
    ZeroTail(a, tail);
  }

  lemma ZeroTail(a: seq<byte>, i: nat)
    requires i <= |a| && a[i..] == Zeros(|a| - i)
    ensures ZeroFrom(a, i)
  {
    forall k | i <= k < |a| ensures a[k] == 0 { assert a[k] == a[i..][k - i]; }
  }

  /** Round trip: the specification's decoder recovers every argument, for a signature blob of any
      length. */
  lemma CalldataRoundTrip(selector: seq<byte>, w: Withdrawal, sigs: seq<byte>)
    requires InRange(w) && |selector| == 4 && |sigs| < U64
    ensures DecodeWithdraw(Calldata(selector, w, sigs)) == Some(Arguments(
      AddressBytes(w.token), Abs(w.amount), AddressBytes(w.recipient), w.nonce, sigs))
    ensures |Calldata(selector, w, sigs)| % 32 == 4
  {
    hide *;
    CalldataWords(selector, w, sigs);
    PaddedToWords(|sigs|);
    DecodeSlots(Calldata(selector, w, sigs), w, sigs);
  }

  lemma DecodeSlots(data: seq<byte>, w: Withdrawal, sigs: seq<byte>)
    requires |data| >= 4 && HasSlots(data[4..], w, sigs)
    ensures DecodeWithdraw(data) == Some(Arguments(
      AddressBytes(w.token), Abs(w.amount), AddressBytes(w.recipient), w.nonce, sigs))
  {
    hide FromBytes, AddressBytes, WordAt, Abs, ZeroFrom, PadLength;
  }

  lemma PaddedToWords(n: nat)
    ensures (4 + 192 + n + PadLength(n)) % 32 == 4
  {}

  lemma WordSlot(a: seq<byte>, i: nat, n: nat)
    requires i + 32 <= |a| && n < WORD && a[i..i + 32] == Word(n)
    ensures WordAt(a, i) == n
  {}

  // --- Deposit events ------------------------------------------------------------

  /** A log whose topics are text and whose data and block number are decoded; None where decoding
      fails. */
  datatype EthLog = EthLog(
    topics: seq<string>, data: Option<seq<byte>>, blockNumber: Option<nat>, txHash: string, removed: bool)

  /** `math/big` leaves the number unspecified when the nonce topic is no number: None. */
  datatype DepositEvent = DepositEvent(
    nonce: Option<int>, token: string, amount: nat, sender: string, recipient: seq<byte>,
    blockNumber: nat, txHash: string)

  /** OutOfRange: a slice expression outside its operand, at which the program stops. */
  datatype Parse = Parsed(event: DepositEvent) | Skipped | OutOfRange

  datatype StringField = Bytes(s: seq<byte>) | Missing | Wrapped

  /** Reads the dynamic string in unbounded arithmetic; Wrapped when a bound does not fit 64 bits. */
  function StringAt(data: seq<byte>): StringField
    requires 64 <= |data|
  {
    var off := WordAt(data, 32) % U64;
    if off + 32 >= U64 then Wrapped
    else if off + 32 > |data| then Missing
    else
      var len := WordAt(data, off) % U64;
      if off + 32 + len >= U64 then Wrapped
      else if off + 32 + len > |data| then Missing
      else Bytes(data[off + 32..off + 32 + len])
  }

  /** "0x" and a topic from its 27th character on. */
  function TopicAddress(topic: string): string
    requires |topic| >= 26
  {
    "0x" + topic[26..]
  }

  function ParsedDeposit(log: EthLog): Parse {
    if |log.topics| < 4 then Skipped
    else if |log.topics[2]| < 26 || |log.topics[3]| < 26 then OutOfRange
    else if log.data.None? || |log.data.value| < 64 then Skipped
    else
      var data := log.data.value;
      match StringAt(data)
      case Wrapped => OutOfRange
      case Missing => Skipped
      case Bytes(s) =>
        if log.blockNumber.None? then Skipped
        else Parsed(DepositEvent(HexNumber(log.topics[1]), TopicAddress(log.topics[2]), WordAt(data, 0),
                                 TopicAddress(log.topics[3]), s, log.blockNumber.value, log.txHash))
  }

  /** The source's parser, with its 64-bit sums and the run-time check of every slice. */
  method ParseDepositLog(log: EthLog) returns (res: Parse)
    requires log.data.Some? ==> |log.data.value| < U64 / 2
    ensures res == ParsedDeposit(log)
  {
    hide FromBytes, HexNumber;
    if |log.topics| < 4 { return Skipped; }
    var nonce := HexNumber(log.topics[1]);
    if |log.topics[2]| < 26 { return OutOfRange; }
    var token := "0x" + log.topics[2][26..];
    if |log.topics[3]| < 26 { return OutOfRange; }
    var sender := "0x" + log.topics[3][26..];
    if log.data.None? { return Skipped; }
    var data := log.data.value;
    if |data| < 64 { return Skipped; }
    var amount := FromBytes(data[0..32]);
    var off := FromBytes(data[32..64]) % U64;
    var end := (off + 32) % U64;
    if end > |data| { return Skipped; }
    if !(off <= end) { return OutOfRange; }
    var strLen := FromBytes(data[off..end]) % U64;
    var last := (off + 32 + strLen) % U64;
    if last > |data| { return Skipped; }
    if !(end <= last) { return OutOfRange; }
    var recipient := data[end..last];
    if log.blockNumber.None? { return Skipped; }
    return Parsed(DepositEvent(nonce, token, amount, sender, recipient, log.blockNumber.value, log.txHash));
  }

  /** abi.encode(amount, s), as the contract emits it. */
  function DepositData(amount: nat, s: seq<byte>): seq<byte>
    requires amount < WORD && |s| < U64
  {
    Word(amount) + Word(64) + Word(|s|) + s + Zeros(PadLength(|s|))
  }

  /** A topic holding an address: "0x", 24 digits of padding, and the address. */
  function AddressTopic(padding: string, address: string): string { "0x" + padding + address }

  /** The text of a 256-bit topic: "0x" and 64 digits, letters in either case. */
  predicate NumberTopic(topic: string, n: nat) {
    |topic| == 66 && topic[..2] == "0x" && SpellsHex(topic[2..], n)
  }

  lemma NumberTopicReads(topic: string, n: nat)
    requires NumberTopic(topic, n)
    ensures HexNumber(topic) == Some(n)
  {
    hide SpellsHex, HexNumber;
    assert "0x" <= topic;
    HexNumberIff(topic, n);
  }

  lemma {:induction false} Pow16IsPow256(w: nat)
    ensures Pow16(2 * w) == Pow256(w)
  {
    if w > 0 { Pow16IsPow256(w - 1); }
  }

  /** Every number of 256 bits has such a topic, and it reads back. */
  lemma NumberTopicExists(n: nat)
    requires n < WORD
    ensures NumberTopic("0x" + Hex(n, 64), n) && HexNumber("0x" + Hex(n, 64)) == Some(n)
  {
    WordIsPower();
    Pow16IsPow256(32);
    HexSpells(n, 64);
    hide SpellsHex, HexNumber, Hex;
    assert ("0x" + Hex(n, 64))[2..] == Hex(n, 64) && ("0x" + Hex(n, 64))[..2] == "0x";
    NumberTopicReads("0x" + Hex(n, 64), n);
  }

  /** Every canonical log is parsed back to the fields it was made from. */
  lemma DepositRoundTrip(log: EthLog, nonce: nat, amount: nat, s: seq<byte>, block: nat, padding: string, token: string, sender: string)
    requires amount < WORD && |s| < U64 / 2 && |padding| == 24
    requires |log.topics| >= 4 && log.blockNumber == Some(block) && NumberTopic(log.topics[1], nonce)
    requires log.topics[2] == AddressTopic(padding, token) && log.topics[3] == AddressTopic(padding, sender)
    requires log.data == Some(DepositData(amount, s))
    ensures ParsedDeposit(log) == Parsed(DepositEvent(
      Some(nonce), "0x" + token, amount, "0x" + sender, s, block, log.txHash))
  {
    assert TopicAddress(log.topics[2]) == "0x" + token;
    assert TopicAddress(log.topics[3]) == "0x" + sender;
    hide TopicAddress, AddressTopic, HexNumber;
    NumberTopicReads(log.topics[1], nonce);
    DepositWords(amount, s);
    DepositString(log.data.value, 64, s);
    hide WordAt, Word, FromBytes, StringAt, DepositData, NumberTopic;
  }

  /** And whatever is parsed has its fields where the log keeps them: the string of the length found
      at the offset, both read from their low 64 bits. */
  lemma ParsedFields(log: EthLog)
    requires ParsedDeposit(log).Parsed?
    ensures |log.topics| >= 4 && |log.topics[2]| >= 26 && |log.topics[3]| >= 26
    ensures log.data.Some? && log.blockNumber.Some? && |log.data.value| >= 64
    ensures var e, data := ParsedDeposit(log).event, log.data.value; var off := FromBytes(data[32..64]) % U64;
      && e.nonce == HexNumber(log.topics[1])
      && e.token == "0x" + log.topics[2][26..] && e.sender == "0x" + log.topics[3][26..]
      && e.amount == FromBytes(data[..32]) && e.blockNumber == log.blockNumber.value && e.txHash == log.txHash
      && off + 32 + |e.recipient| <= |data| && |e.recipient| == FromBytes(data[off..off + 32]) % U64
      && e.recipient == data[off + 32..off + 32 + |e.recipient|]
  {
    hide FromBytes, HexNumber;
    assert log.data.value[0..32] == log.data.value[..32];
  }

  /** A log is skipped exactly when a topic, the data or the block number is missing, or the string
      does not fit into the data, and nothing before that stops the parser. */
  lemma SkippedIff(log: EthLog)
    ensures ParsedDeposit(log) == Skipped <==>
      || |log.topics| < 4
      || (&& |log.topics[2]| >= 26 && |log.topics[3]| >= 26
          && (|| log.data.None? || |log.data.value| < 64
              || (var data := log.data.value; var off := FromBytes(data[32..64]) % U64;
                  && off + 32 < U64
                  && (|| off + 32 > |data|
                      || (var len := FromBytes(data[off..off + 32]) % U64;
                          off + 32 + len < U64 && (off + 32 + len > |data| || log.blockNumber.None?))))))
  {
    hide FromBytes, HexNumber, TopicAddress;
  }

  lemma DepositWords(amount: nat, s: seq<byte>)
    requires amount < WORD && |s| < U64
    ensures var d := DepositData(amount, s);
      && |d| >= 96 + |s| && d[96..96 + |s|] == s
      && WordAt(d, 0) == amount && WordAt(d, 32) == 64 && WordAt(d, 64) == |s|
  {
    hide Word, WordAt;
    var d := DepositData(amount, s);
    assert d[0..32] == Word(amount) && d[32..64] == Word(64) && d[64..96] == Word(|s|);
    WordSlot(d, 0, amount);
    WordSlot(d, 32, 64);
    WordSlot(d, 64, |s|);
  }

  lemma DepositString(d: seq<byte>, off: nat, s: seq<byte>)
    requires off + 32 + |s| < U64 && |d| >= off + 32 + |s| && d[off + 32..off + 32 + |s|] == s
    requires off >= 64 && WordAt(d, 32) == off && WordAt(d, off) == |s|
    ensures StringAt(d) == Bytes(s)
  {
    hide WordAt;
  }

  /** The parser stops on a slice exactly when an address topic is too short or one of its two
      64-bit sums wraps. */
  lemma SlicesInRangeIff(log: EthLog)
    requires |log.topics| >= 4
    ensures ParsedDeposit(log) == OutOfRange <==>
      || |log.topics[2]| < 26 || |log.topics[3]| < 26
      || (log.data.Some? && |log.data.value| >= 64
          && (var data := log.data.value; var off := WordAt(data, 32) % U64;
              || off + 32 >= U64
              || (off + 32 <= |data| && off + 32 + WordAt(data, off) % U64 >= U64)))
  {}
}
