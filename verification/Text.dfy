/** Which bytes are text: the recogniser of UTF-8, against the encoding of scalar values. */
module Texts {
  import opened Encodings

  predicate Continuation(b: Byte) { 0x80 <= b < 0xC0 }

  /** Well-formed UTF-8. */
  predicate Utf8(bytes: Bytes) {
    if bytes == [] then true
    else
      var b := bytes[0];
      if b < 0x80 then Utf8(bytes[1..])
      else if 0xC2 <= b < 0xE0 then |bytes| >= 2 && Continuation(bytes[1]) && Utf8(bytes[2..])
      else if 0xE0 <= b < 0xF0 then
        && |bytes| >= 3 && Continuation(bytes[1]) && Continuation(bytes[2])
        && (b == 0xE0 ==> bytes[1] >= 0xA0) && (b == 0xED ==> bytes[1] < 0xA0)
        && Utf8(bytes[3..])
      else if 0xF0 <= b < 0xF5 then
        && |bytes| >= 4 && Continuation(bytes[1]) && Continuation(bytes[2]) && Continuation(bytes[3])
        && (b == 0xF0 ==> bytes[1] >= 0x90) && (b == 0xF4 ==> bytes[1] < 0x90)
        && Utf8(bytes[4..])
      else false
  }

  // ---- what it recognises -------------------------------------------------------

  /** A Unicode scalar value: a code point that is no surrogate. */
  type Scalar = c: nat | c < 0xD800 || 0xE000 <= c < 0x11_0000

  /** The bytes of a scalar value (section 3 of RFC 3629). */
  function Utf8Of(c: Scalar): (bytes: Bytes)
    ensures bytes != []
  {
    if c < 0x80 then [c]
    else if c < 0x800 then [0xC0 + c / 64, 0x80 + c % 64]
    else if c < 0x1_0000 then [0xE0 + c / 4096, 0x80 + c / 64 % 64, 0x80 + c % 64]
    else [0xF0 + c / 0x4_0000, 0x80 + c / 4096 % 64, 0x80 + c / 64 % 64, 0x80 + c % 64]
  }

  function TextOf(cs: seq<Scalar>): Bytes {
    if cs == [] then [] else Utf8Of(cs[0]) + TextOf(cs[1..])
  }

  lemma TwoBytes(b: nat, x: nat)
    requires 0xC2 <= b < 0xE0 && x < 64
    ensures var c: nat := (b - 0xC0) * 64 + x; 0x80 <= c < 0x800 && Utf8Of(c) == [b, 0x80 + x]
  {
  }

  lemma ThreeBytes(b: nat, x: nat, y: nat)
    requires 0xE0 <= b < 0xF0 && x < 64 && y < 64 && (b == 0xE0 ==> x >= 0x20) && (b == 0xED ==> x < 0x20)
    ensures var c: nat := (b - 0xE0) * 4096 + x * 64 + y;
            && 0x800 <= c < 0x1_0000 && (c < 0xD800 || 0xE000 <= c)
            && Utf8Of(c) == [b, 0x80 + x, 0x80 + y]
  {
    var c: nat := (b - 0xE0) * 4096 + x * 64 + y;
    assert c / 64 == (b - 0xE0) * 64 + x;
  }

  lemma FourBytes(b: nat, x: nat, y: nat, z: nat)
    requires 0xF0 <= b < 0xF5 && x < 64 && y < 64 && z < 64 && (b == 0xF0 ==> x >= 0x10) && (b == 0xF4 ==> x < 0x10)
    ensures var c: nat := (b - 0xF0) * 0x4_0000 + x * 4096 + y * 64 + z;
            0x1_0000 <= c < 0x11_0000 && Utf8Of(c) == [b, 0x80 + x, 0x80 + y, 0x80 + z]
  {
    var c: nat := (b - 0xF0) * 0x4_0000 + x * 4096 + y * 64 + z;
    var q: nat := (b - 0xF0) * 4096 + x * 64 + y;
    var p: nat := (b - 0xF0) * 64 + x;
    assert c / 64 == q && c % 64 == z;
    assert q / 64 == p && q % 64 == y;
    assert p / 64 == b - 0xF0 && p % 64 == x;
    assert c / 4096 == p && c / 0x4_0000 == p / 64;
  }

  /** The first scalar of a text, and the rest of it. */
  lemma SplitScalar(bytes: Bytes) returns (c: Scalar, rest: Bytes)
    requires Utf8(bytes) && bytes != []
    ensures bytes == Utf8Of(c) + rest && Utf8(rest)
  {
    hide Utf8Of;
    var b: nat := bytes[0];
    if b < 0x80 {
      c, rest := b, bytes[1..];
      assert Utf8Of(c) == [b] by { OneByte(b); }
    } else {
      var x: nat := bytes[1] - 0x80;
      if b < 0xE0 {
        TwoBytes(b, x);
        c, rest := (b - 0xC0) * 64 + x, bytes[2..];
        assert bytes == [bytes[0], bytes[1]] + rest;
      } else {
        var y: nat := bytes[2] - 0x80;
        if b < 0xF0 {
          ThreeBytes(b, x, y);
          c, rest := (b - 0xE0) * 4096 + x * 64 + y, bytes[3..];
          assert bytes == [bytes[0], bytes[1], bytes[2]] + rest;
        } else {
          var z: nat := bytes[3] - 0x80;
          FourBytes(b, x, y, z);
          c, rest := (b - 0xF0) * 0x4_0000 + x * 4096 + y * 64 + z, bytes[4..];
          assert bytes == [bytes[0], bytes[1], bytes[2], bytes[3]] + rest;
        }
      }
    }
  }

  lemma OneByte(b: nat)
    requires b < 0x80
    ensures Utf8Of(b) == [b]
  {
  }

  /** What the recogniser sees in front of the rest: one scalar's bytes. */
  ghost predicate Lead(first: Bytes) {
    || (|first| == 1 && first[0] < 0x80)
    || (|first| == 2 && 0xC2 <= first[0] < 0xE0 && Continuation(first[1]))
    || (|first| == 3 && 0xE0 <= first[0] < 0xF0 && Continuation(first[1]) && Continuation(first[2])
        && (first[0] == 0xE0 ==> first[1] >= 0xA0) && (first[0] == 0xED ==> first[1] < 0xA0))
    || (|first| == 4 && 0xF0 <= first[0] < 0xF5 && Continuation(first[1]) && Continuation(first[2])
        && Continuation(first[3]) && (first[0] == 0xF0 ==> first[1] >= 0x90) && (first[0] == 0xF4 ==> first[1] < 0x90))
  }

  lemma LeadOf(c: Scalar)
    ensures Lead(Utf8Of(c))
  {
    if 0x800 <= c < 0x1_0000 {
      ThreeParts(c);
    } else if c >= 0x1_0000 {
      FourParts(c);
    }
  }

  lemma ThreeParts(c: nat)
    requires 0x800 <= c < 0x1_0000 && (c < 0xD800 || 0xE000 <= c)
    ensures 0 <= c / 4096 < 16 && 0 <= c / 64 % 64 < 64
    ensures c / 4096 == 0 ==> c / 64 % 64 >= 0x20
    ensures c / 4096 == 0xD ==> c / 64 % 64 < 0x20
  {
    var q := c / 64;
    assert c / 4096 == q / 64 && q == q / 64 * 64 + q % 64;
  }

  lemma FourParts(c: nat)
    requires 0x1_0000 <= c < 0x11_0000
    ensures 0 <= c / 0x4_0000 < 5
    ensures c / 0x4_0000 == 0 ==> c / 4096 % 64 >= 0x10
    ensures c / 0x4_0000 == 4 ==> c / 4096 % 64 < 0x10
  {
    var q := c / 4096;
    assert c / 0x4_0000 == q / 64 && q == q / 64 * 64 + q % 64;
  }

  lemma LeadThen(first: Bytes, rest: Bytes)
    requires Lead(first) && Utf8(rest)
    ensures Utf8(first + rest)
  {
    assert (first + rest)[|first|..] == rest;
  }

  lemma {:induction false} TextIsUtf8(cs: seq<Scalar>)
    ensures Utf8(TextOf(cs))
  {
    if cs != [] {
      TextIsUtf8(cs[1..]);
      LeadOf(cs[0]);
      LeadThen(Utf8Of(cs[0]), TextOf(cs[1..]));
    }
  }

  lemma {:induction false} Utf8IsText(bytes: Bytes) returns (cs: seq<Scalar>)
    requires Utf8(bytes)
    ensures TextOf(cs) == bytes
    decreases |bytes|
  {
    cs := [];
    if bytes != [] {
      var c, rest := SplitScalar(bytes);
      cs := Utf8IsText(rest);
      cs := [c] + cs;
    }
  }

  /** The encoding of some sequence of scalar values. */
  ghost predicate IsText(bytes: Bytes) {
    exists cs :: TextOf(cs) == bytes
  }

  /** The recogniser takes exactly the encodings of sequences of scalar values. */
  lemma Utf8Iff(bytes: Bytes)
    ensures Utf8(bytes) <==> IsText(bytes)
  {
    if Utf8(bytes) {
      var cs := Utf8IsText(bytes);
    }
    if cs :| TextOf(cs) == bytes {
      TextIsUtf8(cs);
    }
  }
}
