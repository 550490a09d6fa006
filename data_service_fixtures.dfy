/** The multipart/form-data body the data service's tests post to create a profile
    (data_service/src/test_helpers/fixtures.rs, `get_profile_create_multipart`).
    The framing follows section 5.1.1 of RFC 2046 for parts with content, and each
    text part is a `form-data` part as in section 4.2 of RFC 7578. Without the
    avatar, the close delimiter line directly follows the sixth delimiter line, one
    CRLF short of an RFC 2046 empty body part. The faker draws are parameters. */
module DataServiceFixtures {
  import opened Utf8
  import RepositoryFixtures

  /** The values the faker draws for one profile, in the order the serializer draws them. */
  datatype ProfileFakes = ProfileFakes(
    userName: string,
    firstName: string,
    lastName: string,
    description: string,
    region: string,
    companyName: string,
    domainSuffix: string)

  /** What stands between one delimiter line and the next line of the framing. */
  datatype FormPart =
    | TextField(name: string, value: string)
    | FileField(name: string, filename: string, contentType: string, data: seq<byte>)
      /** Nothing at all, not even the blank line an RFC 2046 empty body part would
          need: the delimiter line is directly followed by the next line of the framing. */
    | NoPart

  const Crlf: string := "\r\n"

  /** The form field names, in the order the fields are written. */
  const UserNameField: string := "user_name"
  const FullNameField: string := "full_name"
  const DescriptionField: string := "description"
  const RegionField: string := "region"
  const MainUrlField: string := "main_url"
  const AvatarField: string := "avatar"
  const TextFieldNames: seq<string> := [UserNameField, FullNameField, DescriptionField, RegionField, MainUrlField]

  /** The file name and media type the avatar part announces. */
  const AvatarFilename: string := "profile.jpeg"
  const JpegMediaType: string := "image/jpeg"

  /** The header lines exactly as the fixture spells them out. */
  const UserNameHeader: string := "Content-Disposition: form-data; name=\"user_name\"\r\n\r\n"
  const FullNameHeader: string := "Content-Disposition: form-data; name=\"full_name\"\r\n\r\n"
  const DescriptionHeader: string := "Content-Disposition: form-data; name=\"description\"\r\n\r\n"
  const RegionHeader: string := "Content-Disposition: form-data; name=\"region\"\r\n\r\n"
  const MainUrlHeader: string := "Content-Disposition: form-data; name=\"main_url\"\r\n\r\n"
  const AvatarDisposition: string := "Content-Disposition: form-data; name=\"avatar\"; filename=\"profile.jpeg\"\r\n"
  const AvatarContentType: string := "Content-Type: image/jpeg\r\n\r\n"

  /** The growable byte buffer the body is written into (actix's `BytesMut`). */
  class ByteBuffer {
    var bytes: seq<byte>

    constructor ()
      ensures bytes == []
    {
      bytes := [];
    }

    /** `extend`: appends a chunk at the end. */
    method Extend(chunk: seq<byte>)
      modifies this
      ensures bytes == old(bytes) + chunk
    {
      bytes := bytes + chunk;
    }
  }

  /** The line `--boundary` CRLF that opens every part. */
  function DelimiterLine(boundary: string): seq<byte> {
    Encode("--" + boundary + Crlf)
  }

  /** The line `--boundary--` CRLF that ends the body. */
  function CloseDelimiterLine(boundary: string): seq<byte> {
    Encode("--" + boundary + "--" + Crlf)
  }

  /** The header of a text part (section 4.2 of RFC 7578): its disposition and the blank line. */
  function TextHeader(name: string): string {
    "Content-Disposition: form-data; name=\"" + name + "\"" + Crlf + Crlf
  }

  /** The disposition line of a file part, which also names the file. */
  function FileDisposition(name: string, filename: string): string {
    "Content-Disposition: form-data; name=\"" + name + "\"; filename=\"" + filename + "\"" + Crlf
  }

  /** The media-type line of a file part and the blank line. */
  function ContentTypeHeader(contentType: string): string {
    "Content-Type: " + contentType + Crlf + Crlf
  }

  /** The literal header lines are the general header forms for their fields. */
  lemma UserNameHeaderLiteral() ensures TextHeader(UserNameField) == UserNameHeader {}
  lemma FullNameHeaderLiteral() ensures TextHeader(FullNameField) == FullNameHeader {}
  lemma DescriptionHeaderLiteral() ensures TextHeader(DescriptionField) == DescriptionHeader {}
  lemma RegionHeaderLiteral() ensures TextHeader(RegionField) == RegionHeader {}
  lemma MainUrlHeaderLiteral() ensures TextHeader(MainUrlField) == MainUrlHeader {}
  lemma AvatarDispositionLiteral() ensures FileDisposition(AvatarField, AvatarFilename) == AvatarDisposition {
    var front := "Content-Disposition: form-data; name=\"avatar\"; filename=\"";
    assert "Content-Disposition: form-data; name=\"" + AvatarField + "\"; filename=\"" == front;
    assert AvatarFilename + "\"" + Crlf == "profile.jpeg\"\r\n";
    assert front + "profile.jpeg\"\r\n" == AvatarDisposition;
  }
  lemma AvatarContentTypeLiteral() ensures ContentTypeHeader(JpegMediaType) == AvatarContentType {}

  /** The bytes of one part, up to and including the CRLF that ends its content. */
  function PartBytes(p: FormPart): seq<byte> {
    match p
    case TextField(name, value) => Encode(TextHeader(name)) + Encode(value + Crlf)
    case FileField(name, filename, contentType, data) =>
      Encode(FileDisposition(name, filename)) + Encode(ContentTypeHeader(contentType)) + data + Encode(Crlf)
    case NoPart => []
  }

  /** Every chunk preceded by the separator `d`, in order. */
  function Interleave(d: seq<byte>, chunks: seq<seq<byte>>): seq<byte> {
    if chunks == [] then []
    else Interleave(d, chunks[..|chunks| - 1]) + d + chunks[|chunks| - 1]
  }

  /** The bytes of each part, in order. */
  function PartsBytes(parts: seq<FormPart>): (r: seq<seq<byte>>)
    ensures |r| == |parts|
  {
    if parts == [] then []
    else PartsBytes(parts[..|parts| - 1]) + [PartBytes(parts[|parts| - 1])]
  }

  /** The bytes of the first k parts are the first k entries of `PartsBytes`. */
  lemma {:induction false} PartsBytesPrefix(parts: seq<FormPart>, k: nat)
    requires k <= |parts|
    ensures PartsBytes(parts[..k]) == PartsBytes(parts)[..k]
  {
    if k == |parts| {
      assert parts[..k] == parts;
    } else {
      var init := parts[..|parts| - 1];
      PartsBytesPrefix(init, k);
      assert init[..k] == parts[..k];
      assert PartsBytes(parts)[..k] == PartsBytes(init)[..k];
    }
  }

  /** Every part preceded by its delimiter line, in order: the body before the close
      delimiter line. */
  function Opening(boundary: string, parts: seq<FormPart>): seq<byte> {
    Interleave(DelimiterLine(boundary), PartsBytes(parts))
  }

  /** The framed body: the parts with their delimiter lines, then the close delimiter
      line. This is the framing of section 5.1.1 of RFC 2046 when every part has
      content; a `NoPart` leaves its delimiter line with no body part after it. */
  function Frame(boundary: string, parts: seq<FormPart>): seq<byte> {
    Opening(boundary, parts) + CloseDelimiterLine(boundary)
  }

  /** The parts of the profile form, in the order they are written: the five text
      fields, then the avatar file when it is requested and nothing otherwise. */
  function ProfileParts(avatar: seq<byte>, withAvatar: bool, fakes: ProfileFakes): seq<FormPart> {
    [ TextField(UserNameField, fakes.userName),
      TextField(FullNameField, fakes.firstName + " " + fakes.lastName),
      TextField(DescriptionField, fakes.description),
      TextField(RegionField, fakes.region),
      TextField(MainUrlField, RepositoryFixtures.MainUrl(fakes.companyName, fakes.domainSuffix)),
      if withAvatar then FileField(AvatarField, AvatarFilename, JpegMediaType, avatar) else NoPart ]
  }

  /** The body `get_profile_create_multipart` produces. */
  function ProfileCreateMultipart(avatar: seq<byte>, boundary: string, withAvatar: bool, fakes: ProfileFakes)
    : seq<byte>
  {
    Frame(boundary, ProfileParts(avatar, withAvatar, fakes))
  }

  // ---------------------------------------------------------------------------
  // Properties of the framing
  // ---------------------------------------------------------------------------

  /** Interleaving the first k+1 chunks adds the separator and chunk k to the first k. */
  lemma InterleaveStep(d: seq<byte>, chunks: seq<seq<byte>>, k: nat)
    requires k < |chunks|
    ensures Interleave(d, chunks[..k + 1]) == Interleave(d, chunks[..k]) + d + chunks[k]
  {
    assert chunks[..k + 1][..k] == chunks[..k];
  }

  /** Interleaving the first k chunks gives a prefix of interleaving all of them. */
  lemma {:induction false} InterleavePrefix(d: seq<byte>, chunks: seq<seq<byte>>, k: nat)
    requires k <= |chunks|
    ensures var all, first := Interleave(d, chunks), Interleave(d, chunks[..k]);
      |first| <= |all| && all[..|first|] == first
    decreases |chunks| - k
  {
    if k < |chunks| {
      InterleavePrefix(d, chunks, k + 1);
      InterleaveStep(d, chunks, k);
      var first := Interleave(d, chunks[..k]);
      var next := Interleave(d, chunks[..k + 1]);
      assert next[..|first|] == first;
    } else {
      assert chunks[..k] == chunks;
    }
  }

  /** In `f`, the chunks interleaved with `d` and closed by `c`, chunk k (here `x`) sits
      right after its separator, which sits where the first k chunks end (here `at`). */
  lemma FramedPlacement(d: seq<byte>, chunks: seq<seq<byte>>, c: seq<byte>, k: nat,
                        f: seq<byte>, at: nat, x: seq<byte>)
    requires k < |chunks|
    requires f == Interleave(d, chunks) + c && at == |Interleave(d, chunks[..k])| && x == chunks[k]
    ensures OccursAt(f, at, d) && OccursAt(f, at + |d|, x)
  {
    InterleavePrefix(d, chunks, k + 1);
    InterleaveStep(d, chunks, k);
    var all := Interleave(d, chunks);
    var first := Interleave(d, chunks[..k]);
    var next := Interleave(d, chunks[..k + 1]);
    SliceOfPrefix(f, all, 0, |next|);
    assert f[..|next|] == next;
    CutPieces(first, d, x, []);
    SliceOfPrefix(f, next, |first|, |first| + |d|);
    SliceOfPrefix(f, next, |first| + |d|, |first| + |d| + |x|);
  }

  /** `x` occurs in `s` starting at offset `at`. */
  predicate OccursAt(s: seq<byte>, at: int, x: seq<byte>) {
    0 <= at && at + |x| <= |s| && s[at..at + |x|] == x
  }

  /** Regrouping a concatenation. */
  lemma Regroup(a: seq<byte>, b: seq<byte>, c: seq<byte>)
    ensures a + (b + c) == a + b + c
  {
  }

  /** A slice that lies inside a known prefix is a slice of that prefix. */
  lemma SliceOfPrefix(s: seq<byte>, p: seq<byte>, i: nat, j: nat)
    requires |p| <= |s| && s[..|p|] == p && i <= j <= |p|
    ensures s[i..j] == p[i..j]
  {
    forall t | 0 <= t < j - i
      ensures s[i..j][t] == p[i..j][t]
    {
      assert s[..|p|][i + t] == s[i + t];
    }
  }

  /** Two pieces in the middle of a sequence can be cut back out of it. */
  lemma CutPieces(front: seq<byte>, x: seq<byte>, y: seq<byte>, back: seq<byte>)
    ensures var s := front + x + y + back;
      s[|front|..|front| + |x|] == x
      && s[|front| + |x|..|front| + |x| + |y|] == y
      && s[|front| + |x| + |y|..] == back
  {
    var s := front + x + y + back;
    assert s == front + (x + (y + back));
  }

  /** The pieces of a concatenation occur in it one after the other. */
  lemma PiecesOccur(s: seq<byte>, front: seq<byte>, x: seq<byte>, y: seq<byte>, back: seq<byte>)
    requires s == front + x + y + back
    ensures OccursAt(s, |front|, x) && OccursAt(s, |front| + |x|, y)
    ensures s[|front| + |x| + |y|..] == back
  {
    CutPieces(front, x, y, back);
  }

  /** Six parts appended one at a time, starting from none, are the six parts in order. */
  lemma SixParts(a: FormPart, b: FormPart, c: FormPart, d: FormPart, e: FormPart, f: FormPart)
    ensures [] + [a] + [b] + [c] + [d] + [e] + [f] == [a, b, c, d, e, f]
  {
  }

  /** Framing none of the parts gives nothing; framing all of them gives the opening. */
  lemma OpeningEnds(boundary: string, parts: seq<FormPart>)
    ensures Opening(boundary, parts[..0]) == []
    ensures Opening(boundary, parts[..|parts|]) == Opening(boundary, parts)
  {
    assert parts[..0] == [];
    assert parts[..|parts|] == parts;
  }

  /** Framing one more part extends the opening by a delimiter line and that part. */
  lemma OpeningStep(boundary: string, parts: seq<FormPart>, k: nat)
    requires k < |parts|
    ensures Opening(boundary, parts[..k + 1])
            == Opening(boundary, parts[..k]) + DelimiterLine(boundary) + PartBytes(parts[k])
  {
    PartsBytesPrefix(parts, k + 1);
    PartsBytesPrefix(parts, k);
    InterleaveStep(DelimiterLine(boundary), PartsBytes(parts), k);
  }

  /** Framing one more part at the end extends the opening by a delimiter line and
      that part. */
  lemma OpeningSnoc(boundary: string, ps: seq<FormPart>, p: FormPart)
    ensures Opening(boundary, ps + [p]) == Opening(boundary, ps) + DelimiterLine(boundary) + PartBytes(p)
  {
    var parts := ps + [p];
    OpeningStep(boundary, parts, |ps|);
    OpeningEnds(boundary, parts);
    assert parts[..|ps|] == ps;
  }

  /** Appending a text part writes its delimiter line, its header lines, and its value
      followed by CRLF, one after the other. */
  lemma TextPartAppend(boundary: string, ps: seq<FormPart>, name: string, value: string, header: string,
                       before: seq<byte>)
    requires before == Opening(boundary, ps) && TextHeader(name) == header
    ensures var after, d := Opening(boundary, ps + [TextField(name, value)]), DelimiterLine(boundary);
      after == before + d + Encode(header) + Encode(value + Crlf)
      && after == before + d + Encode(header) + Encode(value) + Encode(Crlf)
  {
    OpeningSnoc(boundary, ps, TextField(name, value));
    EncodeAppend(value, Crlf);
    var d, h := DelimiterLine(boundary), Encode(header);
    Regroup(before + d, h, Encode(value + Crlf));
    Regroup(before + d + h, Encode(value), Encode(Crlf));
  }

  /** Appending a file part writes its delimiter line, its disposition line, its
      media-type line and blank line, its octets, and CRLF, one after the other. */
  lemma FilePartAppend(boundary: string, ps: seq<FormPart>, name: string, filename: string, contentType: string,
                       data: seq<byte>, disposition: string, typeHeader: string, before: seq<byte>)
    requires before == Opening(boundary, ps)
    requires FileDisposition(name, filename) == disposition && ContentTypeHeader(contentType) == typeHeader
    ensures Opening(boundary, ps + [FileField(name, filename, contentType, data)])
      == before + DelimiterLine(boundary) + Encode(disposition) + Encode(typeHeader) + data + Encode(Crlf)
  {
    OpeningSnoc(boundary, ps, FileField(name, filename, contentType, data));
    var d := DelimiterLine(boundary);
    var x, y, w := Encode(disposition), Encode(typeHeader), Encode(Crlf);
    Regroup(before + d, x + y + data, w);
    Regroup(before + d, x + y, data);
    Regroup(before + d, x, y);
  }

  /** Appending an empty part writes its delimiter line only. */
  lemma NoPartAppend(boundary: string, ps: seq<FormPart>, before: seq<byte>)
    requires before == Opening(boundary, ps)
    ensures Opening(boundary, ps + [NoPart]) == before + DelimiterLine(boundary)
  {
    OpeningSnoc(boundary, ps, NoPart);
    assert before + DelimiterLine(boundary) + [] == before + DelimiterLine(boundary);
  }

  /** The framed body and the opening of its first k parts, as interleavings of the
      parts' bytes with the delimiter line. */
  lemma FrameAsInterleave(boundary: string, parts: seq<FormPart>, k: nat)
    requires k <= |parts|
    ensures var d, chunks := DelimiterLine(boundary), PartsBytes(parts);
      Frame(boundary, parts) == Interleave(d, chunks) + CloseDelimiterLine(boundary)
      && Opening(boundary, parts[..k]) == Interleave(d, chunks[..k])
  {
    PartsBytesPrefix(parts, k);
  }

  /** Part k, for every k, is preceded by its own delimiter line, which starts where the
      first k parts end: one delimiter line per part. */
  lemma PartPlacement(boundary: string, parts: seq<FormPart>, k: nat)
    requires k < |parts|
    ensures OccursAt(Frame(boundary, parts), |Opening(boundary, parts[..k])|, DelimiterLine(boundary))
  {
    var d, at, chunks := DelimiterLine(boundary), |Opening(boundary, parts[..k])|, PartsBytes(parts);
    FrameAsInterleave(boundary, parts, k);
    FramedPlacement(d, chunks, CloseDelimiterLine(boundary), k, Frame(boundary, parts), at, chunks[k]);
  }

  /** The body begins with its first k parts, each preceded by its delimiter line, for
      every k: the parts are written in their order. */
  lemma FramePrefix(boundary: string, parts: seq<FormPart>, k: nat)
    requires k <= |parts|
    ensures OccursAt(Frame(boundary, parts), 0, Opening(boundary, parts[..k]))
  {
    var d, chunks := DelimiterLine(boundary), PartsBytes(parts);
    FrameAsInterleave(boundary, parts, k);
    InterleavePrefix(d, chunks, k);
    var all, first := Interleave(d, chunks), Interleave(d, chunks[..k]);
    SliceOfPrefix(all + CloseDelimiterLine(boundary), all, 0, |first|);
  }

  /** `--` followed by the boundary and CRLF: its first two octets are hyphens. */
  lemma DelimiterLineStartsWithHyphens(boundary: string)
    ensures var d := DelimiterLine(boundary);
      |d| >= 2 && d[0] == 0x2D && d[1] == 0x2D
  {
    assert "--" + boundary + Crlf == "--" + (boundary + Crlf);
    EncodeAppend("--", boundary + Crlf);
    EncodeAscii("--");
  }

  /** Whatever the parts, the framed body ends with the close delimiter line; when
      there is at least one part it starts with a delimiter line. */
  lemma FrameEnds(boundary: string, parts: seq<FormPart>)
    ensures var f, d, c := Frame(boundary, parts), DelimiterLine(boundary), CloseDelimiterLine(boundary);
      |f| >= |c| && f[|f| - |c|..] == c
      && (parts != [] ==> |f| >= |d| && f[..|d|] == d)
  {
    var d, c := DelimiterLine(boundary), CloseDelimiterLine(boundary);
    var o := Opening(boundary, parts);
    assert (o + c)[|o + c| - |c|..] == c;
    if parts != [] {
      PartPlacement(boundary, parts, 0);
      assert parts[..0] == [];
      assert Opening(boundary, parts[..0]) == [];
    }
  }

  // ---------------------------------------------------------------------------
  // Properties of the profile body
  // ---------------------------------------------------------------------------

  /** The text fields come first, in the fixed order user_name, full_name, description,
      region, main_url; the full name is the first name, one space, the last name; the
      sixth part is the avatar file exactly when it is requested. */
  lemma ProfilePartsLayout(avatar: seq<byte>, withAvatar: bool, fakes: ProfileFakes)
    ensures var parts := ProfileParts(avatar, withAvatar, fakes);
      |parts| == 6
      && (forall i :: 0 <= i < 5 ==> parts[i].TextField? && parts[i].name == TextFieldNames[i])
      && parts[0].value == fakes.userName
      && parts[1].value == fakes.firstName + " " + fakes.lastName
      && parts[2].value == fakes.description
      && parts[3].value == fakes.region
      && parts[4].value == RepositoryFixtures.MainUrl(fakes.companyName, fakes.domainSuffix)
      && ((exists i :: 0 <= i < |parts| && parts[i].FileField?) <==> withAvatar)
      && (withAvatar ==> parts[5] == FileField(AvatarField, AvatarFilename, JpegMediaType, avatar))
      && (!withAvatar ==> parts[5] == NoPart)
  {
    var parts := ProfileParts(avatar, withAvatar, fakes);
    if withAvatar {
      assert parts[5].FileField?;
    }
  }

  /** The body opens with `--boundary` CRLF, ends with `--boundary--` CRLF, and holds
      six delimiter lines at six increasing offsets, one in front of each of its six
      parts, whether or not the avatar is requested. */
  lemma ProfileMultipartFraming(avatar: seq<byte>, boundary: string, withAvatar: bool, fakes: ProfileFakes)
    ensures var p := ProfileCreateMultipart(avatar, boundary, withAvatar, fakes);
      var parts := ProfileParts(avatar, withAvatar, fakes);
      var d, c := DelimiterLine(boundary), CloseDelimiterLine(boundary);
      |parts| == 6
      && |p| >= |d| + |c| && p[..|d|] == d && p[|p| - |c|..] == c
      && p[0] == 0x2D && p[1] == 0x2D
      && (forall k :: 0 <= k < |parts| ==> OccursAt(p, |Opening(boundary, parts[..k])|, d))
      && (forall k :: 0 <= k < 5 ==> |Opening(boundary, parts[..k])| < |Opening(boundary, parts[..k + 1])|)
  {
    var parts := ProfileParts(avatar, withAvatar, fakes);
    var p := ProfileCreateMultipart(avatar, boundary, withAvatar, fakes);
    var d := DelimiterLine(boundary);
    FrameEnds(boundary, parts);
    DelimiterLineStartsWithHyphens(boundary);
    assert p[0] == p[..|d|][0] && p[1] == p[..|d|][1];
    forall k | 0 <= k < |parts|
      ensures OccursAt(p, |Opening(boundary, parts[..k])|, d)
    {
      PartPlacement(boundary, parts, k);
    }
    forall k | 0 <= k < 5
      ensures |Opening(boundary, parts[..k])| < |Opening(boundary, parts[..k + 1])|
    {
      OpeningStep(boundary, parts, k);
    }
  }

  /** CRLF is the two octets 0x0D 0x0A. */
  lemma CrlfOctets()
    ensures Encode(Crlf) == [0x0D, 0x0A]
  {
    EncodeAscii(Crlf);
  }

  /** When the last part is a file, the body ends with the file's header lines, its
      octets unchanged, CRLF and the close delimiter line. */
  lemma LastFilePart(boundary: string, parts: seq<FormPart>, disposition: string, contentType: string)
    requires |parts| > 0 && parts[|parts| - 1].FileField?
    requires FileDisposition(parts[|parts| - 1].name, parts[|parts| - 1].filename) == disposition
    requires ContentTypeHeader(parts[|parts| - 1].contentType) == contentType
    ensures var f, data := Frame(boundary, parts), parts[|parts| - 1].data;
      var h := Encode(disposition) + Encode(contentType);
      var start := |Opening(boundary, parts[..|parts| - 1])| + |DelimiterLine(boundary)|;
      OccursAt(f, start, h) && OccursAt(f, start + |h|, data)
      && f[start + |h| + |data|..] == Encode(Crlf) + CloseDelimiterLine(boundary)
  {
    var k := |parts| - 1;
    var last := parts[k];
    FilePartAppend(boundary, parts[..k], last.name, last.filename, last.contentType, last.data,
                   disposition, contentType, Opening(boundary, parts[..k]));
    assert parts[..k] + [last] == parts;
    var c := CloseDelimiterLine(boundary);
    var x, y, data := Encode(disposition), Encode(contentType), parts[k].data;
    var crlf := Encode(Crlf);
    var front := Opening(boundary, parts[..k]) + DelimiterLine(boundary);
    var f := Frame(boundary, parts);
    Regroup(front + x, y, data);
    Regroup(front, x, y);
    Regroup(front + (x + y) + data, crlf, c);
    PiecesOccur(f, front, x + y, data, crlf + c);
  }

  /** With the avatar, the sixth part follows the sixth delimiter line: the two header
      lines, the avatar octets copied unchanged, then CRLF and the close delimiter line,
      which end the body. */
  lemma ProfileMultipartAvatarPart(avatar: seq<byte>, boundary: string, fakes: ProfileFakes)
    ensures var p := ProfileCreateMultipart(avatar, boundary, true, fakes);
      var parts := ProfileParts(avatar, true, fakes);
      var h := Encode(AvatarDisposition) + Encode(AvatarContentType);
      var start := |Opening(boundary, parts[..5])| + |DelimiterLine(boundary)|;
      OccursAt(p, start, h) && OccursAt(p, start + |h|, avatar)
      && p[start + |h| + |avatar|..] == Encode(Crlf) + CloseDelimiterLine(boundary)
  {
    AvatarDispositionLiteral();
    AvatarContentTypeLiteral();
    LastFilePart(boundary, ProfileParts(avatar, true, fakes), AvatarDisposition, AvatarContentType);
  }

  /** Without the avatar, the sixth delimiter line is directly followed by the close
      delimiter line, and the body is the one with the avatar minus the avatar part. */
  lemma ProfileMultipartWithoutAvatar(avatar: seq<byte>, boundary: string, fakes: ProfileFakes)
    ensures var p := ProfileCreateMultipart(avatar, boundary, false, fakes);
      var q := ProfileCreateMultipart(avatar, boundary, true, fakes);
      var d, c := DelimiterLine(boundary), CloseDelimiterLine(boundary);
      var a := PartBytes(FileField(AvatarField, AvatarFilename, JpegMediaType, avatar));
      |p| >= |d| + |c| && p[|p| - |d| - |c|..] == d + c
      && q == p[..|p| - |c|] + a + c
  {
    var withParts := ProfileParts(avatar, true, fakes);
    var noParts := ProfileParts(avatar, false, fakes);
    var d, c := DelimiterLine(boundary), CloseDelimiterLine(boundary);
    assert withParts[..6] == withParts && noParts[..6] == noParts;
    assert withParts[..5] == noParts[..5];
    OpeningStep(boundary, withParts, 5);
    OpeningStep(boundary, noParts, 5);
    var before := Opening(boundary, noParts[..5]);
    var p := ProfileCreateMultipart(avatar, boundary, false, fakes);
    assert PartBytes(noParts[5]) == [];
    assert before + d + [] == before + d;
    Regroup(before, d, c);
    CutPieces(before, d, c, []);
    assert p[..|p| - |c|] == before + d;
  }

  // ---------------------------------------------------------------------------
  // get_profile_create_multipart
  // ---------------------------------------------------------------------------

  /** `get_profile_create_multipart`: grows one buffer chunk by chunk and returns its
      bytes, which are the framed profile form. */
  method GetProfileCreateMultipart(avatar: seq<byte>, boundary: string, withAvatar: bool, fakes: ProfileFakes)
    returns (payload: seq<byte>)
    ensures payload == ProfileCreateMultipart(avatar, boundary, withAvatar, fakes)
  {
    ghost var parts: seq<FormPart> := [];
    var buffer := new ByteBuffer();
    OpeningEnds(boundary, []);

    UserNameHeaderLiteral();
    TextPartAppend(boundary, parts, UserNameField, fakes.userName, UserNameHeader, buffer.bytes);
    buffer.Extend(Encode("--" + boundary + Crlf));
    buffer.Extend(Encode(UserNameHeader));
    buffer.Extend(Encode(fakes.userName + Crlf));
    parts := parts + [TextField(UserNameField, fakes.userName)];

    FullNameHeaderLiteral();
    TextPartAppend(boundary, parts, FullNameField, fakes.firstName + " " + fakes.lastName, FullNameHeader,
                   buffer.bytes);
    buffer.Extend(Encode("--" + boundary + Crlf));
    buffer.Extend(Encode(FullNameHeader));
    buffer.Extend(Encode(fakes.firstName + " " + fakes.lastName + Crlf));
    parts := parts + [TextField(FullNameField, fakes.firstName + " " + fakes.lastName)];

    DescriptionHeaderLiteral();
    TextPartAppend(boundary, parts, DescriptionField, fakes.description, DescriptionHeader, buffer.bytes);
    buffer.Extend(Encode("--" + boundary + Crlf));
    buffer.Extend(Encode(DescriptionHeader));
    buffer.Extend(Encode(fakes.description + Crlf));
    parts := parts + [TextField(DescriptionField, fakes.description)];

    RegionHeaderLiteral();
    TextPartAppend(boundary, parts, RegionField, fakes.region, RegionHeader, buffer.bytes);
    buffer.Extend(Encode("--" + boundary + Crlf));
    buffer.Extend(Encode(RegionHeader));
    buffer.Extend(Encode(fakes.region + Crlf));
    parts := parts + [TextField(RegionField, fakes.region)];

    var mainUrl := RepositoryFixtures.GetFakeMainUrl(fakes.companyName, fakes.domainSuffix);
    MainUrlHeaderLiteral();
    TextPartAppend(boundary, parts, MainUrlField, mainUrl, MainUrlHeader, buffer.bytes);
    buffer.Extend(Encode("--" + boundary + Crlf));
    buffer.Extend(Encode(MainUrlHeader));
    buffer.Extend(Encode(mainUrl));
    buffer.Extend(Encode(Crlf));
    parts := parts + [TextField(MainUrlField, mainUrl)];

    ghost var avatarPart := if withAvatar then FileField(AvatarField, AvatarFilename, JpegMediaType, avatar)
                            else NoPart;
    ghost var beforeAvatar := buffer.bytes;
    buffer.Extend(Encode("--" + boundary + Crlf));
    if withAvatar {
      AvatarDispositionLiteral();
      AvatarContentTypeLiteral();
      FilePartAppend(boundary, parts, AvatarField, AvatarFilename, JpegMediaType, avatar,
                     AvatarDisposition, AvatarContentType, beforeAvatar);
      buffer.Extend(Encode(AvatarDisposition));
      buffer.Extend(Encode(AvatarContentType));
      buffer.Extend(avatar);
      buffer.Extend(Encode(Crlf));
    } else {
      NoPartAppend(boundary, parts, beforeAvatar);
    }
    parts := parts + [avatarPart];
    SixParts(TextField(UserNameField, fakes.userName),
             TextField(FullNameField, fakes.firstName + " " + fakes.lastName),
             TextField(DescriptionField, fakes.description), TextField(RegionField, fakes.region),
             TextField(MainUrlField, mainUrl), avatarPart);

    buffer.Extend(Encode("--" + boundary + "--" + Crlf));
    payload := buffer.bytes;
  }
}
