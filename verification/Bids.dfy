/** Sealed bid records: fixed-width layouts, their decoder, and a printer from the layout. */
module Bids {
  import opened Base
  import opened Encodings
  import opened Texts

  const RECORD_V2: Byte := 2
  const RECORD_V3: Byte := 3
  const RECORD_BYTES_V2: nat := 288
  const RECORD_BYTES_V3: nat := 320
  const ORIGIN_BYTES: nat := 12
  const MAX_NAME_BYTES: nat := 48
  const MAX_AUCTION_ID_BYTES: nat := 64
  const MAX_AMOUNT_MINOR: nat := 1_000_000_000_000

  /** What a bid was converted from: currency code, amount and decimals. */
  datatype Origin = Origin(code: Bytes, amount: nat, decimals: nat)

  datatype BidRecord = BidRecord(auctionId: Bytes, amount: nat, name: Bytes, contact: Option<Bytes>,
      origin: Option<Origin>)

  // ---- numbers -------------------------------------------------------

  lemma Pow256Of8()
    ensures Pow256(8) > MAX_AMOUNT_MINOR
  {
    assert Pow256(8) == 256 * Pow256(7) == 65536 * Pow256(6) == 16777216 * Pow256(5);
    assert Pow256(5) == 256 * Pow256(4) == 65536 * Pow256(3);
    assert Pow256(3) == 256 * Pow256(2) == 65536 * Pow256(1) == 16777216;
  }

  function Zeros(n: nat): (bytes: Bytes)
    ensures |bytes| == n && AllZero(bytes)
  {
    seq(n, i => 0)
  }

  predicate AllZero(bytes: Bytes) {
    forall i | 0 <= i < |bytes| :: bytes[i] == 0
  }

  // ---- the decoder ------------------------------------------------------------

  predicate Uppercase(b: Byte) { 65 <= b <= 90 }

  /** Where the padding of a version ends. */
  function PadEnd(version: Byte): nat {
    if version == RECORD_V2 then RECORD_BYTES_V2 else RECORD_BYTES_V3 - ORIGIN_BYTES
  }

  predicate Sized(bytes: Bytes) {
    && bytes != []
    && ((bytes[0] == RECORD_V2 && |bytes| == RECORD_BYTES_V2) || (bytes[0] == RECORD_V3 && |bytes| == RECORD_BYTES_V3))
  }

  /** The origin block: `Some(None)` is no origin, `None` is malformed. */
  function ReadOrigin(block: Bytes): Option<Option<Origin>>
    requires |block| == ORIGIN_BYTES
  {
    var code := block[0..3];
    if code == [0, 0, 0] then (if AllZero(block[3..]) then Some(None) else None)
    else if !(forall i | 0 <= i < 3 :: Uppercase(code[i])) then None
    else
      var amount := Number(block[3..11]);
      if amount == 0 || amount > MAX_AMOUNT_MINOR then None
      else if block[11] > 4 then None
      else Some(Some(Origin(code, amount, block[11])))
  }

  function Decode(bytes: Bytes): (r: Option<BidRecord>)
    ensures r.Some? ==> Sized(bytes)
  {
    if !Sized(bytes) then None
    else
      var padEnd := PadEnd(bytes[0]);
      var amount := Number(bytes[1..9]);
      if amount == 0 || amount > MAX_AMOUNT_MINOR then None
      else
        var idLen := bytes[9];
        if idLen == 0 || idLen > MAX_AUCTION_ID_BYTES then None
        else
          var nameAt := 10 + idLen;
          if nameAt >= padEnd then None
          else
            var nameLen := bytes[nameAt];
            var nameEnd := nameAt + 1 + nameLen;
            if nameLen > MAX_NAME_BYTES || nameEnd >= padEnd then None
            else
              var contactLen := bytes[nameEnd];
              var end := nameEnd + 1 + contactLen;
              if end > padEnd || !AllZero(bytes[end..padEnd]) then None
              else
                var origin := if bytes[0] == RECORD_V2 then Some(None) else ReadOrigin(bytes[padEnd..]);
                var id, name := bytes[10..nameAt], bytes[nameAt + 1..nameEnd];
                if origin.None? || !Utf8(id) || !Utf8(name) then None
                else
                  var contact := if contactLen == 0 then None else Some(bytes[nameEnd + 1..end]);
                  Some(BidRecord(id, amount, name, contact, origin.value))
  }

  // ---- the printer ------------------------------------------------------------

  function ContactBytes(r: BidRecord): Bytes {
    if r.contact.None? then [] else r.contact.value
  }

  /** The bytes before the padding. */
  function End(r: BidRecord): nat {
    12 + |r.auctionId| + |r.name| + |ContactBytes(r)|
  }

  predicate ValidOrigin(o: Origin) {
    && |o.code| == 3 && (forall i | 0 <= i < 3 :: Uppercase(o.code[i]))
    && 0 < o.amount <= MAX_AMOUNT_MINOR && o.decimals <= 4
  }

  /** The records a version can hold. */
  predicate Fits(version: Byte, r: BidRecord) {
    && version in {RECORD_V2, RECORD_V3}
    && 0 < r.amount <= MAX_AMOUNT_MINOR
    && 0 < |r.auctionId| <= MAX_AUCTION_ID_BYTES && Utf8(r.auctionId)
    && |r.name| <= MAX_NAME_BYTES && Utf8(r.name)
    && (r.contact.Some? ==> 0 < |r.contact.value| < 256)
    && End(r) <= PadEnd(version)
    && (r.origin.Some? ==> version == RECORD_V3 && ValidOrigin(r.origin.value))
  }

  function OriginBlock(origin: Option<Origin>): (block: Bytes)
    requires origin.Some? ==> ValidOrigin(origin.value)
    ensures |block| == ORIGIN_BYTES
  {
    if origin.None? then Zeros(ORIGIN_BYTES)
    else origin.value.code + BigEndian(origin.value.amount, 8) + [origin.value.decimals]
  }

  /** A record's fields in the order they are written. */
  function Layout(version: Byte, r: BidRecord): (fields: seq<Bytes>)
    requires Fits(version, r)
  {
    [[version], BigEndian(r.amount, 8), [|r.auctionId|], r.auctionId, [|r.name|], r.name,
     [|ContactBytes(r)|], ContactBytes(r), Zeros(PadEnd(version) - End(r)),
     if version == RECORD_V2 then [] else OriginBlock(r.origin)]
  }

  function Join(fields: seq<Bytes>): Bytes {
    if fields == [] then [] else Join(fields[..|fields| - 1]) + fields[|fields| - 1]
  }

  function Encode(version: Byte, r: BidRecord): Bytes
    requires Fits(version, r)
  {
    Join(Layout(version, r))
  }

  /** Field `k` of joined fields stands between the lengths of what comes before and after it. */
  lemma {:induction false} FieldAt(fields: seq<Bytes>, k: nat)
    requires k < |fields|
    ensures |Join(fields[..k])| <= |Join(fields[..k + 1])| == |Join(fields[..k])| + |fields[k]| <= |Join(fields)|
    ensures Join(fields)[|Join(fields[..k])|..|Join(fields[..k + 1])|] == fields[k]
  {
    var n := |fields| - 1;
    assert fields[..k + 1][..k] == fields[..k];
    if k == n {
      assert fields[..k + 1] == fields;
    } else {
      FieldAt(fields[..n], k);
      assert fields[..n][..k] == fields[..k] && fields[..n][..k + 1] == fields[..k + 1];
    }
  }

  /** Where each field of a record stands. */
  ghost predicate Written(bytes: Bytes, version: Byte, r: BidRecord)
    requires Fits(version, r)
  {
    var nameAt := 10 + |r.auctionId|;
    var nameEnd := nameAt + 1 + |r.name|;
    && |bytes| == (if version == RECORD_V2 then RECORD_BYTES_V2 else RECORD_BYTES_V3)
    && bytes[0] == version && bytes[1..9] == BigEndian(r.amount, 8)
    && bytes[9] == |r.auctionId| && bytes[10..nameAt] == r.auctionId
    && bytes[nameAt] == |r.name| && bytes[nameAt + 1..nameEnd] == r.name
    && bytes[nameEnd] == |ContactBytes(r)| && bytes[nameEnd + 1..End(r)] == ContactBytes(r)
    && AllZero(bytes[End(r)..PadEnd(version)])
    && bytes[PadEnd(version)..] == (if version == RECORD_V2 then [] else OriginBlock(r.origin))
  }

  lemma Offsets(fields: seq<Bytes>)
    requires |fields| == 10
    requires |fields[0]| == 1 && |fields[1]| == 8 && |fields[2]| == |fields[4]| == |fields[6]| == 1
    ensures var n, m, c := |fields[3]|, |fields[5]|, |fields[7]|;
            && |Join(fields[..0])| == 0 && |Join(fields[..1])| == 1 && |Join(fields[..2])| == 9
                && |Join(fields[..3])| == 10
            && |Join(fields[..4])| == 10 + n && |Join(fields[..5])| == 11 + n && |Join(fields[..6])| == 11 + n + m
            && |Join(fields[..7])| == 12 + n + m && |Join(fields[..8])| == 12 + n + m + c
            && |Join(fields[..9])| == 12 + n + m + c + |fields[8]|
            && |Join(fields)| == 12 + n + m + c + |fields[8]| + |fields[9]|
  {
    hide Join;
    assert Join(fields[..0]) == [] by { JoinNone(fields[..0]); }
    FieldAt(fields, 0);
    FieldAt(fields, 1);
    FieldAt(fields, 2);
    FieldAt(fields, 3);
    FieldAt(fields, 4);
    FieldAt(fields, 5);
    FieldAt(fields, 6);
    FieldAt(fields, 7);
    FieldAt(fields, 8);
    FieldAt(fields, 9);
    assert fields[..10] == fields;
  }

  lemma JoinNone(fields: seq<Bytes>)
    requires fields == []
    ensures Join(fields) == []
  {
  }

  /** The printer writes every field in its place. */
  lemma EncodeWrites(version: Byte, r: BidRecord)
    requires Fits(version, r)
    ensures Written(Encode(version, r), version, r)
  {
    hide Join, Utf8, OriginBlock, BigEndian, ContactBytes, AllZero;
    var fields := Layout(version, r);
    FieldsInPlace(fields, Encode(version, r));
  }

  /** Joined fields of a record's shape, each in its place. */
  lemma FieldsInPlace(fields: seq<Bytes>, bytes: Bytes)
    requires |fields| == 10 && bytes == Join(fields)
    requires |fields[0]| == 1 && |fields[1]| == 8 && |fields[2]| == |fields[4]| == |fields[6]| == 1
    ensures var nameAt := 10 + |fields[3]|;
            var nameEnd := nameAt + 1 + |fields[5]|;
            var end := nameEnd + 1 + |fields[7]|;
            && |bytes| == end + |fields[8]| + |fields[9]|
            && [bytes[0]] == fields[0] && bytes[1..9] == fields[1] && [bytes[9]] == fields[2]
                && bytes[10..nameAt] == fields[3]
            && [bytes[nameAt]] == fields[4] && bytes[nameAt + 1..nameEnd] == fields[5]
            && [bytes[nameEnd]] == fields[6] && bytes[nameEnd + 1..end] == fields[7]
            && bytes[end..end + |fields[8]|] == fields[8] && bytes[end + |fields[8]|..] == fields[9]
  {
    hide Join;
    Offsets(fields);
    FieldAt(fields, 0);
    FieldAt(fields, 1);
    FieldAt(fields, 2);
    FieldAt(fields, 3);
    FieldAt(fields, 4);
    FieldAt(fields, 5);
    FieldAt(fields, 6);
    FieldAt(fields, 7);
    FieldAt(fields, 8);
    FieldAt(fields, 9);
    One(bytes, 0);
    One(bytes, 9);
    One(bytes, 10 + |fields[3]|);
    One(bytes, 11 + |fields[3]| + |fields[5]|);
  }

  lemma One(bytes: Bytes, i: nat)
    requires i < |bytes|
    ensures bytes[i..i + 1] == [bytes[i]]
  {
  }

  /** What stands in every place is all there is. */
  lemma WrittenOnce(a: Bytes, b: Bytes, version: Byte, r: BidRecord)
    requires Fits(version, r) && Written(a, version, r) && Written(b, version, r)
    ensures a == b
  {
    hide Utf8, OriginBlock, BigEndian, ContactBytes, AllZero;
    var n, m := |r.auctionId|, |r.name|;
    SamePart(a, b, 1, 9);
    SamePart(a, b, 10, 10 + n);
    SamePart(a, b, 11 + n, 11 + n + m);
    SamePart(a, b, 12 + n + m, End(r));
    SameZeros(a, b, End(r), PadEnd(version));
    SamePart(a, b, PadEnd(version), |a|);
  }

  lemma SamePart(a: Bytes, b: Bytes, i: nat, j: nat)
    requires i <= j <= |a| == |b| && a[i..j] == b[i..j]
    ensures forall k | i <= k < j :: a[k] == b[k]
  {
    forall k | i <= k < j
      ensures a[k] == b[k]
    {
      assert a[k] == a[i..j][k - i] && b[k] == b[i..j][k - i];
    }
  }

  lemma SameZeros(a: Bytes, b: Bytes, i: nat, j: nat)
    requires i <= j <= |a| == |b| && AllZero(a[i..j]) && AllZero(b[i..j])
    ensures forall k | i <= k < j :: a[k] == b[k]
  {
    assert a[i..j] == b[i..j];
    SamePart(a, b, i, j);
  }

  // ---- both directions --------------------------------------------------------

  lemma ReadOriginBack(origin: Option<Origin>)
    requires origin.Some? ==> ValidOrigin(origin.value)
    ensures ReadOrigin(OriginBlock(origin)) == Some(origin)
  {
    var block := OriginBlock(origin);
    if origin.None? {
      assert block[0..3] == [0, 0, 0];
    } else {
      var o := origin.value;
      assert block[0..3] == o.code && block[3..11] == BigEndian(o.amount, 8) && block[11] == o.decimals;
      Pow256Of8();
      NumberBack(o.amount, 8);
      assert Uppercase(o.code[0]);
    }
  }

  lemma OriginBlockBack(block: Bytes)
    requires |block| == ORIGIN_BYTES && ReadOrigin(block).Some?
    ensures var origin := ReadOrigin(block).value;
            (origin.Some? ==> ValidOrigin(origin.value)) && OriginBlock(origin) == block
  {
    if block[0..3] == [0, 0, 0] {
      assert block == block[0..3] + block[3..];
      assert block == Zeros(ORIGIN_BYTES);
    } else {
      BigEndianBack(block[3..11]);
      assert block == block[0..3] + block[3..11] + [block[11]];
    }
  }

  /** Bytes with every field in place decode to the record. */
  lemma DecodeWritten(bytes: Bytes, version: Byte, r: BidRecord)
    requires Fits(version, r) && Written(bytes, version, r)
    ensures Decode(bytes) == Some(r)
  {
    hide Utf8, OriginBlock, BigEndian, ReadOrigin, Number, AllZero;
    Pow256Of8();
    NumberBack(r.amount, 8);
    if version == RECORD_V3 {
      ReadOriginBack(r.origin);
    }
  }

  /** The fields of a decoded record, and where they were read. */
  lemma DecodedFields(bytes: Bytes)
    requires Decode(bytes).Some?
    ensures var r := Decode(bytes).value;
            var padEnd, nameAt := PadEnd(bytes[0]), 10 + |r.auctionId|;
            var nameEnd := nameAt + 1 + |r.name|;
            && Fits(bytes[0], r) && nameEnd < End(r) <= padEnd <= |bytes|
            && bytes[9] == |r.auctionId| && bytes[10..nameAt] == r.auctionId
            && bytes[nameAt] == |r.name| && bytes[nameAt + 1..nameEnd] == r.name
            && bytes[nameEnd] == |ContactBytes(r)| && bytes[nameEnd + 1..End(r)] == ContactBytes(r)
            && AllZero(bytes[End(r)..padEnd]) && r.amount == Number(bytes[1..9])
            && if bytes[0] == RECORD_V2 then r.origin.None? else ReadOrigin(bytes[padEnd..]) == Some(r.origin)
  {
    hide Utf8, OriginBlock, BigEndian, ReadOrigin, Number, AllZero;
    if bytes[0] == RECORD_V3 {
      OriginBlockBack(bytes[PadEnd(bytes[0])..]);
    }
  }

  /** A decoded record fits its version, and the bytes have every field of it in place. */
  lemma DecodedWritten(bytes: Bytes)
    requires Decode(bytes).Some?
    ensures Fits(bytes[0], Decode(bytes).value) && Written(bytes, bytes[0], Decode(bytes).value)
  {
    hide Decode, Utf8, OriginBlock, BigEndian, ReadOrigin, Number, AllZero;
    DecodedFields(bytes);
    BigEndianBack(bytes[1..9]);
    if bytes[0] == RECORD_V3 {
      OriginBlockBack(bytes[PadEnd(bytes[0])..]);
    }
  }

  /** Print, then decode: the record comes back. */
  lemma DecodeAfterEncode(version: Byte, r: BidRecord)
    requires Fits(version, r)
    ensures Decode(Encode(version, r)) == Some(r)
  {
    EncodeWrites(version, r);
    DecodeWritten(Encode(version, r), version, r);
  }

  /** Decode, then print: exactly the bytes come back, so nothing else can be in them. */
  lemma EncodeAfterDecode(bytes: Bytes)
    requires Decode(bytes).Some?
    ensures Fits(bytes[0], Decode(bytes).value) && Encode(bytes[0], Decode(bytes).value) == bytes
  {
    hide Decode, Encode, Written;
    DecodedWritten(bytes);
    EncodeWrites(bytes[0], Decode(bytes).value);
    WrittenOnce(bytes, Encode(bytes[0], Decode(bytes).value), bytes[0], Decode(bytes).value);
  }

  /** Two encodings of one bid are the same bytes exactly when they are of the same version. */
  lemma OneEncodingPerVersion(a: Bytes, b: Bytes)
    requires Decode(a).Some? && Decode(a) == Decode(b)
    ensures a != [] && b != [] && (a == b <==> a[0] == b[0])
  {
    hide Encode, Fits, Written;
    EncodeAfterDecode(a);
    EncodeAfterDecode(b);
  }

  /** A bid without an origin that fits the older version has an encoding in each. */
  lemma TwoEncodings(r: BidRecord)
    requires Fits(RECORD_V2, r)
    ensures Fits(RECORD_V3, r)
    ensures Decode(Encode(RECORD_V2, r)) == Decode(Encode(RECORD_V3, r)) == Some(r)
    ensures Encode(RECORD_V2, r) != Encode(RECORD_V3, r)
  {
    DecodeAfterEncode(RECORD_V2, r);
    DecodeAfterEncode(RECORD_V3, r);
    EncodeWrites(RECORD_V2, r);
    EncodeWrites(RECORD_V3, r);
  }

  /** Such bids are the only ones with more than one encoding. */
  lemma EncodingsOf(a: Bytes, b: Bytes)
    requires Decode(a).Some? && Decode(a) == Decode(b) && a != b
    ensures Fits(RECORD_V2, Decode(a).value) && Decode(a).value.origin.None?
  {
    hide Encode, Written;
    EncodeAfterDecode(a);
    EncodeAfterDecode(b);
  }

  // ---- the format in numbers --------------------------------------------------

  /** What is after the padding: nothing of an origin, or three capital letters, an amount and its decimals. */
  ghost predicate SpellsOrigin(block: Bytes, origin: Option<Origin>) {
    match origin
    case None => forall i | 0 <= i < |block| :: block[i] == 0
    case Some(o) =>
      && |block| == 12 && |o.code| == 3 && block[0..3] == o.code
      && (forall i | 0 <= i < 3 :: 'A' as int <= o.code[i] <= 'Z' as int)
      && 0 < o.amount <= 1_000_000_000_000 && Number(block[3..11]) == o.amount
      && block[11] == o.decimals && o.decimals <= 4
  }

  /** The bytes of a record, place by place. */
  ghost predicate Spells(bytes: Bytes, r: BidRecord) {
    && bytes != [] && ((bytes[0] == 2 && |bytes| == 288) || (bytes[0] == 3 && |bytes| == 320))
    && 0 < |r.auctionId| <= 64 && |r.name| <= 48 && (r.contact.Some? ==> 0 < |r.contact.value| < 256)
    && IsText(r.auctionId) && IsText(r.name)
    && 0 < r.amount <= 1_000_000_000_000 && Number(bytes[1..9]) == r.amount
    && var contact := if r.contact.None? then [] else r.contact.value;
       var padEnd := if bytes[0] == 2 then 288 else 308;
       var nameAt := 10 + |r.auctionId|;
       var nameEnd := nameAt + 1 + |r.name|;
       var end := nameEnd + 1 + |contact|;
    && end <= padEnd
    && bytes[9] == |r.auctionId| && bytes[10..nameAt] == r.auctionId
    && bytes[nameAt] == |r.name| && bytes[nameAt + 1..nameEnd] == r.name
    && bytes[nameEnd] == |contact| && bytes[nameEnd + 1..end] == contact
    && (forall i | end <= i < padEnd :: bytes[i] == 0)
    && SpellsOrigin(bytes[padEnd..], r.origin)
  }

  lemma OriginSpelled(block: Bytes, origin: Option<Origin>)
    requires |block| == ORIGIN_BYTES
    ensures SpellsOrigin(block, origin)
            <==> (origin.Some? ==> ValidOrigin(origin.value)) && block == OriginBlock(origin)
  {
    if origin.None? {
      if SpellsOrigin(block, origin) {
        assert block == Zeros(ORIGIN_BYTES);
      }
    } else {
      var o := origin.value;
      Pow256Of8();
      BigEndianBack(block[3..11]);
      assert block == block[0..3] + block[3..11] + [block[11]];
      if ValidOrigin(o) {
        NumberBack(o.amount, 8);
        var printed := OriginBlock(origin);
        assert printed[0..3] == o.code && printed[3..11] == BigEndian(o.amount, 8) && printed[11] == o.decimals;
      }
    }
  }

  lemma AmountSpelled(bytes: Bytes, amount: nat)
    requires |bytes| == 8 && amount <= MAX_AMOUNT_MINOR
    ensures Number(bytes) == amount <==> bytes == BigEndian(amount, 8)
  {
    Pow256Of8();
    NumberBack(amount, 8);
    BigEndianBack(bytes);
  }

  /** Without an origin the block is empty in the older version. */
  lemma TailSpelled(bytes: Bytes, r: BidRecord)
    requires Sized(bytes)
    ensures SpellsOrigin(bytes[PadEnd(bytes[0])..], r.origin)
            <==> && (r.origin.Some? ==> bytes[0] == RECORD_V3 && ValidOrigin(r.origin.value))
                 && bytes[PadEnd(bytes[0])..] == if bytes[0] == RECORD_V2 then [] else OriginBlock(r.origin)
  {
    hide OriginBlock;
    if bytes[0] == RECORD_V3 {
      OriginSpelled(bytes[PadEnd(bytes[0])..], r.origin);
    }
  }

  lemma SpellsWritten(bytes: Bytes, r: BidRecord)
    requires Spells(bytes, r)
    ensures Sized(bytes) && Fits(bytes[0], r) && Written(bytes, bytes[0], r)
  {
    hide Utf8, IsText, OriginBlock, ValidOrigin, SpellsOrigin, BigEndian, Number, AllZero;
    Utf8Iff(r.auctionId);
    Utf8Iff(r.name);
    TailSpelled(bytes, r);
    AmountSpelled(bytes[1..9], r.amount);
    PadSpelled(bytes, End(r), PadEnd(bytes[0]));
  }

  lemma WrittenSpells(bytes: Bytes, r: BidRecord)
    requires Sized(bytes) && Fits(bytes[0], r) && Written(bytes, bytes[0], r)
    ensures Spells(bytes, r)
  {
    hide Utf8, IsText, OriginBlock, ValidOrigin, SpellsOrigin, BigEndian, Number, AllZero;
    Utf8Iff(r.auctionId);
    Utf8Iff(r.name);
    TailSpelled(bytes, r);
    AmountSpelled(bytes[1..9], r.amount);
    PadSpelled(bytes, End(r), PadEnd(bytes[0]));
  }

  lemma PadSpelled(bytes: Bytes, lo: nat, hi: nat)
    requires lo <= hi <= |bytes|
    ensures AllZero(bytes[lo..hi]) <==> forall i | lo <= i < hi :: bytes[i] == 0
  {
    forall i | lo <= i < hi
      ensures bytes[lo..hi][i - lo] == bytes[i]
    {
    }
  }

  /** The decoder takes exactly the bytes that spell a record, and reads that record. */
  lemma DecodesIff(bytes: Bytes, r: BidRecord)
    ensures Decode(bytes) == Some(r) <==> Spells(bytes, r)
  {
    hide Decode, Written, Fits, Spells;
    if Decode(bytes) == Some(r) {
      DecodedWritten(bytes);
      WrittenSpells(bytes, r);
    }
    if Spells(bytes, r) {
      SpellsWritten(bytes, r);
      DecodeWritten(bytes, bytes[0], r);
    }
  }
}
