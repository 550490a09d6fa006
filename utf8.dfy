/** UTF-8, the encoding behind Rust's `str::as_bytes` and byte-string literals.
    Every string the fixtures turn into bytes goes through `Encode`. */
module Utf8 {

  /** An octet, as Rust's `u8`. */
  newtype byte = x: int | 0 <= x < 0x100

  /** Largest scalar value that still encodes in one, two and three octets. */
  const MaxOneOctet: int := 0x7F
  const MaxTwoOctets: int := 0x7FF
  const MaxThreeOctets: int := 0xFFFF

  /** A continuation octet has the bit pattern 10xxxxxx. */
  predicate IsContinuation(b: byte) {
    0x80 <= b < 0xC0
  }

  /** The number of octets announced by a leading octet, 0 when `b` cannot lead. */
  function SequenceLength(b: byte): nat {
    if b < 0x80 then 1
    else if 0xC2 <= b < 0xE0 then 2
    else if 0xE0 <= b < 0xF0 then 3
    else if 0xF0 <= b < 0xF5 then 4
    else 0
  }

  /** The UTF-8 encoding of one Unicode scalar value (RFC 3629, section 3). */
  function EncodeChar(c: char): (r: seq<byte>)
    ensures 1 <= |r| <= 4
    ensures |r| == SequenceLength(r[0])
    ensures forall i :: 1 <= i < |r| ==> IsContinuation(r[i])
    ensures |r| == 1 <==> c as int <= MaxOneOctet
  {
    var n := c as int;
    if n <= MaxOneOctet then
      [n as byte]
    else if n <= MaxTwoOctets then
      [(0xC0 + n / 0x40) as byte, (0x80 + n % 0x40) as byte]
    else if n <= MaxThreeOctets then
      [(0xE0 + n / 0x1000) as byte, (0x80 + n / 0x40 % 0x40) as byte, (0x80 + n % 0x40) as byte]
    else
      [(0xF0 + n / 0x40000) as byte, (0x80 + n / 0x1000 % 0x40) as byte,
       (0x80 + n / 0x40 % 0x40) as byte, (0x80 + n % 0x40) as byte]
  }

  /** The scalar value carried by one well-formed encoded character. */
  function DecodeChar(r: seq<byte>): int
    requires 1 <= |r| <= 4
  {
    if |r| == 1 then r[0] as int
    else if |r| == 2 then (r[0] as int - 0xC0) * 0x40 + (r[1] as int - 0x80)
    else if |r| == 3 then
      ((r[0] as int - 0xE0) * 0x40 + (r[1] as int - 0x80)) * 0x40 + (r[2] as int - 0x80)
    else
      (((r[0] as int - 0xF0) * 0x40 + (r[1] as int - 0x80)) * 0x40 + (r[2] as int - 0x80)) * 0x40
        + (r[3] as int - 0x80)
  }

  /** Decoding an encoded character gives the character back. */
  lemma EncodeCharRoundTrip(c: char)
    ensures DecodeChar(EncodeChar(c)) == c as int
  {
    var n := c as int;
    if n <= MaxOneOctet {
    } else if n <= MaxTwoOctets {
      assert n == (n / 0x40) * 0x40 + n % 0x40;
    } else if n <= MaxThreeOctets {
      assert n / 0x40 == (n / 0x1000) * 0x40 + n / 0x40 % 0x40;
      assert n == (n / 0x40) * 0x40 + n % 0x40;
    } else {
      assert n / 0x1000 == (n / 0x40000) * 0x40 + n / 0x1000 % 0x40;
      assert n / 0x40 == (n / 0x1000) * 0x40 + n / 0x40 % 0x40;
      assert n == (n / 0x40) * 0x40 + n % 0x40;
    }
  }

  /** The chunks joined end to end, in order. */
  function Flatten(chunks: seq<seq<byte>>): seq<byte> {
    if chunks == [] then [] else chunks[0] + Flatten(chunks[1..])
  }

  /** The UTF-8 encoding of a string, what `s.as_bytes()` holds: the encodings of its
      characters, one after the other. */
  function Encode(s: string): seq<byte> {
    Flatten(seq(|s|, i requires 0 <= i < |s| => EncodeChar(s[i])))
  }

  /** Every character is at most 0x7F: its encoding is one octet per character. */
  predicate IsAscii(s: string) {
    forall i :: 0 <= i < |s| ==> s[i] as int <= MaxOneOctet
  }

  /** Flattening distributes over concatenation. */
  lemma {:induction false} FlattenAppend(a: seq<seq<byte>>, b: seq<seq<byte>>)
    ensures Flatten(a + b) == Flatten(a) + Flatten(b)
  {
    if a == [] {
      assert a + b == b;
    } else {
      assert (a + b)[1..] == a[1..] + b;
      FlattenAppend(a[1..], b);
    }
  }

  /** A non-empty string encodes as its first character's encoding followed by the rest's. */
  lemma EncodeCons(s: string)
    requires s != []
    ensures Encode(s) == EncodeChar(s[0]) + Encode(s[1..])
  {
    var chunks := seq(|s|, i requires 0 <= i < |s| => EncodeChar(s[i]));
    assert chunks[1..] == seq(|s[1..]|, i requires 0 <= i < |s[1..]| => EncodeChar(s[1..][i]));
  }

  /** Encoding distributes over concatenation, so a string may be encoded piece by piece. */
  lemma EncodeAppend(a: string, b: string)
    ensures Encode(a + b) == Encode(a) + Encode(b)
  {
    var ca := seq(|a|, i requires 0 <= i < |a| => EncodeChar(a[i]));
    var cb := seq(|b|, i requires 0 <= i < |b| => EncodeChar(b[i]));
    assert seq(|a + b|, i requires 0 <= i < |a + b| => EncodeChar((a + b)[i])) == ca + cb;
    FlattenAppend(ca, cb);
  }

  /** An ASCII string encodes octet for octet as its character codes. */
  lemma {:induction false} EncodeAscii(s: string)
    requires IsAscii(s)
    ensures |Encode(s)| == |s|
    ensures forall i :: 0 <= i < |s| ==> Encode(s)[i] as int == s[i] as int
  {
    if s != [] {
      assert IsAscii(s[1..]) by {
        forall i | 0 <= i < |s[1..]| ensures s[1..][i] as int <= MaxOneOctet {
          assert s[1..][i] == s[i + 1];
        }
      }
      EncodeAscii(s[1..]);
      EncodeCons(s);
    }
  }
}
