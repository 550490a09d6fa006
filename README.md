# Test fixtures of dechat-services, modelled in Dafny

The two test-helper modules of the services build the inputs the tests send: a JPEG
signature check for avatars, fake message bodies and main URLs, the error type fixtures
report, and the `multipart/form-data` body that the data service's profile-creation
tests post. The random values the `fake` crate draws become parameters, so every
helper is a deterministic function of its inputs.

- `utf8.dfy`, module `Utf8`: UTF-8 (RFC 3629, section 3), which is what Rust's
  `str::as_bytes` yields. `Encode` is the encodings of the characters, one after
  the other. It distributes over concatenation, and ASCII text encodes as its
  character codes.
- `repository_fixtures.dfy`, module `RepositoryFixtures`
  (`repository/src/test_helpers/fixtures.rs`):
  - `IsJpeg` keeps the source's mutable flag. It accepts exactly the buffers that
    begin with the SOI marker `FF D8` and end with the EOI marker `FF D9` (ITU-T T.81,
    Table B.1). The two markers cannot overlap, so the shortest accepted buffer has
    four octets.
  - `GetFakeMessageBody` is the loop of `get_fake_message_body`.
  - `GetFakeMainUrl` calls `RetainNonWhitespace`, an in-place compaction of a character
    array that models `String::retain` with Rust's `char::is_whitespace` (the Unicode
    White_Space property).
  - `FixtureError.Display` is the `Display` implementation.
- `data_service_fixtures.dfy`, module `DataServiceFixtures`
  (`data_service/src/test_helpers/fixtures.rs`):
  - `GetProfileCreateMultipart` grows a `ByteBuffer` (the `BytesMut`) with the same
    sequence of `extend` calls as the source.
  - It is proved equal to `ProfileCreateMultipart`: each part behind a delimiter line,
    then the close delimiter line. The parts are the five `form-data` text fields of
    section 4.2 of RFC 7578, then the avatar file. With the avatar, this is the
    framing of section 5.1.1 of RFC 2046.
  - Without the avatar, the sixth delimiter line is followed directly by the close
    delimiter line, with no body part between them (`NoPart`). The body then has
    six delimiter lines but is one CRLF short of RFC 2046's empty sixth body part
    (`--b` CRLF CRLF `--b--`). It is not a five-part body either.

## Model

| member | source | states |
|---|---|---|
| `RepositoryFixtures.FixtureError.Display` | repository/src/test_helpers/fixtures.rs:37-43 | the text written is the carried message, unchanged |
| `RepositoryFixtures.DisplayForgetsKind` | repository/src/test_helpers/fixtures.rs:39-42 | `MissingData(m)` and `QueryFailed(m)` write the same text, `m` |
| `RepositoryFixtures.JpegFramedIff` | repository/src/test_helpers/fixtures.rs:17-19 | a buffer is SOI + anything + EOI exactly when it has at least 4 octets, octets 0 and 1 are `FF D8`, and the last two are `FF D9` |
| `RepositoryFixtures.ShortestJpeg` | repository/src/test_helpers/fixtures.rs:49-51 | SOI immediately followed by EOI (4 octets) is accepted; no buffer shorter than 4 octets is, lengths 0 to 3 included |
| `RepositoryFixtures.IsJpeg` | repository/src/test_helpers/fixtures.rs:47-61 | returns true exactly when the buffer is SOI-framed and EOI-terminated, in both directions; buffers under 2 octets give false; the end slice is taken only after the length test, so it is in bounds |
| `RepositoryFixtures.GetFakeMessageBody` | repository/src/test_helpers/fixtures.rs:63-74 | the body is the prefix (empty for `None`), `". "` and the first drawn sentence: the loop over `[..4]` runs once |
| `RepositoryFixtures.MessageBodyKeepsOneSentence` | repository/src/test_helpers/fixtures.rs:69 | `[..4]` has one element; with sentences a, b, c, d the body is `". a"`, whereas four iterations give `". a. b. c. d"` |
| `RepositoryFixtures.GetFakeMessageBodyFourSentences` | repository/src/test_helpers/fixtures.rs:69-72 | the loop over `0..4` appends the four drawn sentences in order, each after `". "` |
| `RepositoryFixtures.RemoveWhitespace` | repository/src/test_helpers/fixtures.rs:78 | removing whitespace never lengthens a string |
| `RepositoryFixtures.RemoveWhitespaceContents` | repository/src/test_helpers/fixtures.rs:78 | the result has no whitespace, and a character occurs in it exactly when it occurs in the input and is not whitespace |
| `RepositoryFixtures.RemoveWhitespaceIdentity` | repository/src/test_helpers/fixtures.rs:78 | a string without whitespace is left unchanged, so retaining twice is retaining once |
| `RepositoryFixtures.RetainNonWhitespace` | repository/src/test_helpers/fixtures.rs:78 | in place, the kept characters are compacted to the front of the buffer in their order, and the new length is returned |
| `RepositoryFixtures.MainUrlShape` | repository/src/test_helpers/fixtures.rs:79 | the URL is `https://`, then the whitespace-free company name, then `.`, then the domain suffix |
| `RepositoryFixtures.GetFakeMainUrl` | repository/src/test_helpers/fixtures.rs:76-80 | the returned URL is the one `MainUrl` specifies for the drawn company name and suffix |
| `Utf8.EncodeChar` | data_service/src/test_helpers/fixtures.rs:46 | a character encodes as 1 to 4 octets; the lead octet announces the length and the rest are continuation octets; one octet exactly for code points up to 0x7F |
| `Utf8.EncodeCharRoundTrip` | data_service/src/test_helpers/fixtures.rs:46 | decoding an encoded character gives back its code point |
| `Utf8.EncodeAppend` | data_service/src/test_helpers/fixtures.rs:71-72 | encoding a concatenation is concatenating the encodings, so the URL and `b"\r\n"` written separately equal one `"{}\r\n"` line |
| `Utf8.EncodeAscii` | data_service/src/test_helpers/fixtures.rs:76-81 | an ASCII string encodes as its character codes, one octet each, as the byte-string literals do |
| `DataServiceFixtures.ByteBuffer.constructor` | data_service/src/test_helpers/fixtures.rs:45 | a new buffer is empty |
| `DataServiceFixtures.ByteBuffer.Extend` | data_service/src/test_helpers/fixtures.rs:46 | `extend` appends the chunk after the bytes already written |
| `DataServiceFixtures.UserNameHeaderLiteral` | data_service/src/test_helpers/fixtures.rs:47-49 | the literal header is the `form-data` disposition for `user_name` followed by a blank line |
| `DataServiceFixtures.FullNameHeaderLiteral` | data_service/src/test_helpers/fixtures.rs:52-54 | the same for `full_name` |
| `DataServiceFixtures.DescriptionHeaderLiteral` | data_service/src/test_helpers/fixtures.rs:59-61 | the same for `description` |
| `DataServiceFixtures.RegionHeaderLiteral` | data_service/src/test_helpers/fixtures.rs:66 | the same for `region` |
| `DataServiceFixtures.MainUrlHeaderLiteral` | data_service/src/test_helpers/fixtures.rs:70 | the same for `main_url` |
| `DataServiceFixtures.AvatarDispositionLiteral` | data_service/src/test_helpers/fixtures.rs:76-78 | the avatar disposition is the file-part form for field `avatar` and file name `profile.jpeg` |
| `DataServiceFixtures.AvatarContentTypeLiteral` | data_service/src/test_helpers/fixtures.rs:79 | the avatar media-type line announces `image/jpeg`, followed by a blank line |
| `DataServiceFixtures.CrlfOctets` | data_service/src/test_helpers/fixtures.rs:72 | CRLF is the two octets `0D 0A` |
| `DataServiceFixtures.OpeningStep` | data_service/src/test_helpers/fixtures.rs:46-82 | writing part k after the first k parts appends exactly one delimiter line and that part's bytes |
| `DataServiceFixtures.TextPartAppend` | data_service/src/test_helpers/fixtures.rs:46-72 | a text part is its delimiter line, its disposition header and blank line, then its value and CRLF, whether the value and CRLF go in one `extend` or two |
| `DataServiceFixtures.FilePartAppend` | data_service/src/test_helpers/fixtures.rs:73-82 | a file part is its delimiter line, disposition line, media-type line and blank line, its octets, then CRLF |
| `DataServiceFixtures.NoPartAppend` | data_service/src/test_helpers/fixtures.rs:73 | an empty part writes its delimiter line and nothing else |
| `DataServiceFixtures.PartPlacement` | data_service/src/test_helpers/fixtures.rs:46-73 | for every part k, a delimiter line starts in the body exactly where the first k parts end |
| `DataServiceFixtures.FramePrefix` | data_service/src/test_helpers/fixtures.rs:45-82 | for every k, the body begins with the first k parts, in order, each after its delimiter line |
| `DataServiceFixtures.DelimiterLineStartsWithHyphens` | data_service/src/test_helpers/fixtures.rs:46 | a delimiter line begins with two hyphens, `2D 2D` |
| `DataServiceFixtures.FrameEnds` | data_service/src/test_helpers/fixtures.rs:45-83 | any framed body ends with the close delimiter line, and begins with a delimiter line when there is a part |
| `DataServiceFixtures.ProfilePartsLayout` | data_service/src/test_helpers/fixtures.rs:47-82 | there are six parts; the first five are text fields named user_name, full_name, description, region, main_url, in that order; full_name is first name, one space, last name; main_url is the fake URL; there is a file part exactly when the avatar is requested, and it is `avatar`, `profile.jpeg`, `image/jpeg` with the given octets |
| `DataServiceFixtures.ProfileMultipartFraming` | data_service/src/test_helpers/fixtures.rs:45-83 | with or without the avatar, the body starts with `--boundary` CRLF and its first octets are hyphens; it ends with `--boundary--` CRLF; it has a delimiter line in front of each of its six parts, at six strictly increasing offsets |
| `DataServiceFixtures.LastFilePart` | data_service/src/test_helpers/fixtures.rs:75-83 | when the last part is a file, the body ends with its header lines, its octets unchanged, CRLF and the close delimiter line |
| `DataServiceFixtures.ProfileMultipartAvatarPart` | data_service/src/test_helpers/fixtures.rs:75-82 | with the avatar, the sixth delimiter line is followed by the avatar's two header lines, the avatar octets unchanged, CRLF, and then the close delimiter line, which ends the body |
| `DataServiceFixtures.ProfileMultipartWithoutAvatar` | data_service/src/test_helpers/fixtures.rs:73-83 | without the avatar, the body ends with the sixth delimiter line immediately followed by the close delimiter line; it is the with-avatar body minus the avatar part |
| `DataServiceFixtures.GetProfileCreateMultipart` | data_service/src/test_helpers/fixtures.rs:40-86 | the bytes the `extend` calls produce are exactly the framed profile form `ProfileCreateMultipart` |

## Left out

- The SQL repositories (`repository/src/repo/post/post.rs`, `repository/src/repo/profile/profile.rs`) are left out. Every operation is a query whose outcome depends on a database schema that is not part of this model.
- The lazily initialised test harnesses, the actix server bootstrap (`data_service/src/lib.rs`), `get_app`, `get_app_state` and `get_app_data` are left out. They are concurrency, environment and network setup.
- The Sui event listener (`event_handler/src/sui/sui.rs`) is network I/O.
- The record types in the two `model.rs` files have no behaviour.
- `get_profile_avatar` reads a file from disk, so the avatar octets are a parameter.
- Every `fake()` draw is a parameter: the sentences, user name, first and last names, description, region, company name and domain suffix. What the `fake` crate guarantees about them (word counts, alphabet) is not modelled.
- `GetFakeMessageBody`, `GetFakeMessageBodyFourSentences`: the drawn sentences come in as a sequence that is long enough for the loop. The `requires` states only that supply, not a demand of the source.
- The `println!` diagnostics of `is_jpeg` are output only and are left out.
- `FixtureError.Display`: the `fmt::Result` of the formatter is not modelled. The display is the text written.
- Rust `String`s are modelled as sequences of characters, not as their UTF-8 bytes. `RetainNonWhitespace` therefore compacts characters, not bytes.
- The capacity growth of `BytesMut` is not modelled. `ByteBuffer` holds only the bytes written.
- `ProfileMultipartFraming` places the six delimiter lines in front of the six parts. It does not state that the boundary text occurs nowhere else: a drawn value that contains the boundary would add occurrences, and the source does not prevent that.

## Findings

| source | as written | input that shows it | evidently intended | confidence | as-written member | corrected member |
|---|---|---|---|---|---|---|
| repository/src/test_helpers/fixtures.rs:69 | `for _ in [..4]` iterates over an array holding one element, the range `..4`, so one sentence is appended | prefix `None`, drawn sentences `a`, `b`, `c`, `d`: the body is `". a"` | four iterations (`for _ in 0..4`), giving `". a. b. c. d"` | medium, not executed | `RepositoryFixtures.MessageBodyKeepsOneSentence` | `RepositoryFixtures.GetFakeMessageBodyFourSentences` |
