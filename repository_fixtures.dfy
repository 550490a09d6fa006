/** The test fixtures of the repository crate (repository/src/test_helpers/fixtures.rs):
    the JPEG signature check, the fake message body and main URL builders, and the
    fixture error type. The faker draws are parameters. */
module RepositoryFixtures {
  import opened Utf8

  /** The start-of-image (SOI) and end-of-image (EOI) markers of
      ITU-T T.81 (ISO/IEC 10918-1), Table B.1. */
  const JpegSignature: seq<byte> := [0xFF, 0xD8]
  const JpegEndSignature: seq<byte> := [0xFF, 0xD9]

  datatype Option<T> = None | Some(value: T)

  // ---------------------------------------------------------------------------
  // FixtureError and its Display
  // ---------------------------------------------------------------------------

  /** The two failures a fixture reports; each carries a message. */
  datatype FixtureError = MissingData(msg: string) | QueryFailed(msg: string)
  {
    /** The text `Display::fmt` writes: the carried message, unchanged, whatever the kind. */
    function Display(): (s: string)
      ensures s == msg
    {
      match this
      case MissingData(m) => m
      case QueryFailed(m) => m
    }
  }

  /** The written text does not reveal which kind of failure occurred. */
  lemma DisplayForgetsKind(m: string)
    ensures MissingData(m).Display() == QueryFailed(m).Display() == m
  {
  }

  // ---------------------------------------------------------------------------
  // is_jpeg
  // ---------------------------------------------------------------------------

  /** A buffer framed by the two markers: SOI, any octets, EOI. */
  ghost predicate JpegFramed(a: seq<byte>) {
    exists body :: a == JpegSignature + body + JpegEndSignature
  }

  /** Framing by the two markers, stated octet by octet. Because SOI and EOI differ in
      their second octet, the two markers cannot overlap and a framed buffer has at
      least four octets. */
  lemma JpegFramedIff(a: seq<byte>)
    ensures JpegFramed(a) <==>
      |a| >= 4 && a[0] == 0xFF && a[1] == 0xD8 && a[|a| - 2] == 0xFF && a[|a| - 1] == 0xD9
  {
    if JpegFramed(a) {
      var body :| a == JpegSignature + body + JpegEndSignature;
      assert a[|a| - 1] == 0xD9;
    }
    if |a| >= 4 && a[0] == 0xFF && a[1] == 0xD8 && a[|a| - 2] == 0xFF && a[|a| - 1] == 0xD9 {
      assert a == JpegSignature + a[2..|a| - 2] + JpegEndSignature;
    }
  }

  /** The shortest buffer `is_jpeg` accepts is SOI immediately followed by EOI:
      four octets, and nothing shorter is accepted. */
  lemma ShortestJpeg(a: seq<byte>)
    ensures JpegFramed(JpegSignature + JpegEndSignature)
    ensures |a| < 4 ==> !JpegFramed(a)
  {
    assert JpegSignature + JpegEndSignature == JpegSignature + [] + JpegEndSignature;
    JpegFramedIff(a);
  }

  /** `is_jpeg`: the flag is set only when the buffer holds at least two octets, the
      first two are SOI, and the last two are EOI. The slice of the last two octets is
      taken only after the length check, so it is always within bounds. */
  method IsJpeg(avatar: seq<byte>) returns (isValid: bool)
    ensures isValid <==> JpegFramed(avatar)
    ensures isValid <==>
      |avatar| >= 4 && avatar[0] == 0xFF && avatar[1] == 0xD8
      && avatar[|avatar| - 2] == 0xFF && avatar[|avatar| - 1] == 0xD9
  {
    isValid := false;
    if |avatar| >= 2 && avatar[0..2] == JpegSignature {
      var endOffset := |avatar| - 2;
      if avatar[endOffset..] == JpegEndSignature {
        isValid := true;
      }
    }
    assert |avatar| >= 2 ==> avatar[0] == avatar[0..2][0] && avatar[1] == avatar[0..2][1];
    assert |avatar| >= 2 ==>
      avatar[|avatar| - 2] == avatar[|avatar| - 2..][0] && avatar[|avatar| - 1] == avatar[|avatar| - 2..][1];
    JpegFramedIff(avatar);
  }

  // ---------------------------------------------------------------------------
  // get_fake_message_body
  // ---------------------------------------------------------------------------

  /** The element type of the array literal `[..4]`: a range with no start and end 4. */
  datatype RangeTo = RangeTo(end: int)

  /** The collection the loop of `get_fake_message_body` iterates over: the array
      literal `[..4]`, which holds ONE element, the range `..4`. */
  const MessageBodyLoop: seq<RangeTo> := [RangeTo(4)]

  /** The body before the loop: the prefix, or the empty string when there is none. */
  function PrefixText(prefix: Option<string>): string {
    match prefix
    case Some(pref) => pref
    case None => ""
  }

  /** The body after appending each sentence in turn as `format!("{}. {}", body, s)`. */
  function AppendSentences(body: string, sentences: seq<string>): string {
    if sentences == [] then body
    else AppendSentences(body, sentences[..|sentences| - 1]) + ". " + sentences[|sentences| - 1]
  }

  /** `get_fake_message_body`. `sentences` are the sentences the faker draws, in order,
      one per iteration. The loop iterates over a one-element array, so it runs once
      and the body holds exactly one sentence. */
  method GetFakeMessageBody(prefix: Option<string>, sentences: seq<string>) returns (body: string)
    requires |sentences| >= |MessageBodyLoop|
    ensures body == PrefixText(prefix) + ". " + sentences[0]
    ensures body == AppendSentences(PrefixText(prefix), sentences[..1])
  {
    body := match prefix
      case Some(pref) => pref
      case None => "";
    for i := 0 to |MessageBodyLoop|
      invariant body == AppendSentences(PrefixText(prefix), sentences[..i])
    {
      assert sentences[..i + 1][..i] == sentences[..i];
      var randomSentence := sentences[i];
      body := body + ". " + randomSentence;
    }
  }

  /** The loop as evidently intended, over the range `0..4`: four sentences. */
  method GetFakeMessageBodyFourSentences(prefix: Option<string>, sentences: seq<string>)
    returns (body: string)
    requires |sentences| >= 4
    ensures body == AppendSentences(PrefixText(prefix), sentences[..4])
    ensures body == PrefixText(prefix) + ". " + sentences[0] + ". " + sentences[1]
                    + ". " + sentences[2] + ". " + sentences[3]
  {
    body := PrefixText(prefix);
    for i := 0 to 4
      invariant body == AppendSentences(PrefixText(prefix), sentences[..i])
    {
      assert sentences[..i + 1][..i] == sentences[..i];
      body := body + ". " + sentences[i];
    }
    var start := PrefixText(prefix);
    assert sentences[..1][..0] == [];
    assert AppendSentences(start, sentences[..1]) == start + ". " + sentences[0];
    assert sentences[..2][..1] == sentences[..1];
    assert AppendSentences(start, sentences[..2])
      == start + ". " + sentences[0] + ". " + sentences[1];
    assert sentences[..3][..2] == sentences[..2];
    assert AppendSentences(start, sentences[..3])
      == start + ". " + sentences[0] + ". " + sentences[1] + ". " + sentences[2];
    assert sentences[..4][..3] == sentences[..3];
  }

  /** What the one-element loop loses: with four sentences drawn, the body as written
      keeps only the first, while the intended loop keeps all four. */
  lemma MessageBodyKeepsOneSentence()
    ensures |MessageBodyLoop| == 1
    ensures AppendSentences("", ["a", "b", "c", "d"][..|MessageBodyLoop|]) == ". a"
    ensures AppendSentences("", ["a", "b", "c", "d"][..4]) == ". a. b. c. d"
  {
    var s: seq<string> := ["a", "b", "c", "d"];
    assert s[..1][..0] == [];
    assert s[..4][..3] == s[..3];
    assert s[..3][..2] == s[..2];
    assert s[..2][..1] == s[..1];
  }

  // ---------------------------------------------------------------------------
  // get_fake_main_url
  // ---------------------------------------------------------------------------

  /** Rust's `char::is_whitespace`: the Unicode White_Space property. */
  predicate IsWhitespace(c: char) {
    var n := c as int;
    (0x09 <= n <= 0x0D) || n == 0x20 || n == 0x85 || n == 0xA0 || n == 0x1680
    || (0x2000 <= n <= 0x200A) || n == 0x2028 || n == 0x2029 || n == 0x202F
    || n == 0x205F || n == 0x3000
  }

  predicate NoWhitespace(s: string) {
    forall i :: 0 <= i < |s| ==> !IsWhitespace(s[i])
  }

  /** The string `retain(|c| !c.is_whitespace())` leaves: the non-whitespace characters in order. */
  function RemoveWhitespace(s: string): (r: string)
    ensures |r| <= |s|
  {
    if s == [] then []
    else RemoveWhitespace(s[..|s| - 1]) + (if IsWhitespace(s[|s| - 1]) then [] else [s[|s| - 1]])
  }

  /** Removing whitespace leaves no whitespace and keeps every other character:
      a character is in the result exactly when it is in the input and is not whitespace. */
  lemma {:induction false} RemoveWhitespaceContents(s: string)
    ensures NoWhitespace(RemoveWhitespace(s))
    ensures forall c :: c in RemoveWhitespace(s) <==> c in s && !IsWhitespace(c)
  {
    if s != [] {
      var init := s[..|s| - 1];
      RemoveWhitespaceContents(init);
      assert s == init + [s[|s| - 1]];
    }
  }

  /** A string without whitespace is left as it is; in particular removal is idempotent. */
  lemma {:induction false} RemoveWhitespaceIdentity(s: string)
    requires NoWhitespace(s)
    ensures RemoveWhitespace(s) == s
  {
    if s != [] {
      RemoveWhitespaceIdentity(s[..|s| - 1]);
    }
  }

  /** `String::retain` with the whitespace test: compacts the kept characters to the
      front of the buffer, in order, and returns the new length. */
  method RetainNonWhitespace(domain: array<char>) returns (len: nat)
    modifies domain
    ensures len <= domain.Length
    ensures domain[..len] == RemoveWhitespace(old(domain[..]))
  {
    ghost var s := domain[..];
    var i, k := 0, 0;
    while i < domain.Length
      invariant k <= i <= domain.Length
      invariant domain[..k] == RemoveWhitespace(s[..i])
      invariant domain[i..] == s[i..]
    {
      assert s[..i + 1][..i] == s[..i];
      var c := domain[i];
      if !IsWhitespace(c) {
        domain[k] := c;
        k := k + 1;
      }
      i := i + 1;
    }
    assert s[..i] == s;
    len := k;
  }

  /** The URL `get_fake_main_url` formats from a company name and a domain suffix. */
  function MainUrl(companyName: string, domainSuffix: string): string {
    "https://" + RemoveWhitespace(companyName) + "." + domainSuffix
  }

  /** The URL is the scheme, a whitespace-free host label made of the company name's
      other characters, a dot, and the suffix. */
  lemma MainUrlShape(companyName: string, domainSuffix: string)
    ensures var url := MainUrl(companyName, domainSuffix);
      var host := RemoveWhitespace(companyName);
      url[..8] == "https://"
      && url[8..8 + |host|] == host && NoWhitespace(host)
      && url[8 + |host|] == '.' && url[9 + |host|..] == domainSuffix
  {
    RemoveWhitespaceContents(companyName);
  }

  /** `get_fake_main_url`, with the faker's company name and domain suffix as parameters. */
  method GetFakeMainUrl(companyName: string, domainSuffix: string) returns (url: string)
    ensures url == MainUrl(companyName, domainSuffix)
  {
    var domain := new char[|companyName|](i requires 0 <= i < |companyName| => companyName[i]);
    assert domain[..] == companyName;
    var len := RetainNonWhitespace(domain);
    url := "https://" + domain[..len] + "." + domainSuffix;
  }
}
