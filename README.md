# macocr, modelled in Dafny

macocr is a macOS tool that runs Apple Vision text recognition on images. It
has two front ends: a command line that prints each image's transcript or
exports it to a text file, and an HTTP server. The server has an upload form
and a JSON API, and can be guarded by HTTP Basic authentication. All of it
lives in `src/main.rs`. This project models the parts of that file that have
real logic and proves what they promise:

- **Result assembly** (`Ocr`). `get_ocr_result` turns the recognizer's
  observations into a transcript with one line per recognized candidate. It
  also gives one pixel-space box per line: normalized corners (origin at the
  bottom left, y up) are mapped to pixels (origin at the top left, y down),
  and the box spans their minimum and maximum. The loop is a method, proved
  against specification functions that join each observation's contribution
  in order (`Joins`, shared with the command-line loops).
- **Credential configuration** (`Credentials`). `is_valid_auth_format`
  (`^[^:]+:[^:]+$`) is run as a small automaton and proved equal to "exactly
  one colon, with a non-empty side on each part". Startup's `split_once(':')`
  is proved to give back the two parts.
- **The Basic authentication gate** (`BasicAuth`, with `Http`, `Base64` and
  `Utf8`). This is the middleware's chain of checks:
  1. the header is visible ASCII;
  2. it starts with the `Basic ` prefix;
  3. the rest is standard base64 (padding and zero pad bits required, after
     RFC 4648 section 4);
  4. that decodes to UTF-8 (RFC 3629 section 3);
  5. it splits at the first colon;
  6. the parts match the configured credentials.

  The main theorem: with a configured username that has no colon, the request
  is forwarded exactly when the header is the canonical Basic encoding of the
  configured credentials. Every other request gets the same 401 reply. Both
  codecs are proved to round-trip in both directions to support this.
- **The upload handler** (`Upload`, with `Paths`). It covers:
  - Accept negotiation;
  - the random stored name, which keeps the original extension (Rust's
    `Path::extension` rules are modelled in `Paths`);
  - HTML escaping of the transcript, proved per-character, free of `<` and
    `>`, with every `&` beginning an entity, and invertible;
  - the full mapping from what happened (no field, create failure, write
    failure, not an image, recognized) to the JSON or HTML reply.
- **The command-line loops** (`Cli`). Without flags, the transcript of every
  recognized image is printed. With `--ocr`, each transcript is written to
  `<stem>.txt` and each successful write is announced. Non-images and failed
  recognitions leave no trace.

Outside effects are parameters of the model. This covers file reads, content
sniffing, image decoding, the recognizer's results, file creation and writes,
and the UUID drawn for a stored name. Each operation is then a function of
those outcomes.

Two behaviours of the code worth noting:
- The command-line export writes `<stem>.txt` into the working directory, not
  beside the input image (`src/main.rs:126-128`). `Cli.ExportIgnoresDirectory`
  proves this, so two images with the same name in different directories
  export to the same file.
- An upload whose first field is present but empty is not answered with
  "No file received". Any present field is stored, and the empty file is then
  reported as not an image (`src/main.rs:330-373`).

## Model

| member | source | states |
|---|---|---|
| `Joins.JoinedAppend` | src/main.rs:114-135 | what a loop produces for consecutive input lists is the two outputs one after the other |
| `Joins.JoinedSkip` | src/main.rs:114-135 | an element that contributes nothing can be dropped wherever it stands |
| `Ocr.Min4` | src/main.rs:262-265 | the fold of `f64::min` from +inf over four corners is a lower bound of them that is one of them |
| `Ocr.Max4` | src/main.rs:263-265 | the fold of `f64::max` from -inf over four corners is an upper bound of them that is one of them |
| `Ocr.BoxEnclosesCorners` | src/main.rs:252-272 | the box carries the line's text, has non-negative width and height, and spans exactly the least to the greatest pixel coordinates of the four mapped corners |
| `Ocr.Assemble` | src/main.rs:247-275 | the loop over the observations yields exactly the transcript and the boxes of all of them, in order |
| `Ocr.GetOcrResult` | src/main.rs:219-285 | fails exactly when the file cannot be read; otherwise gives the decoded dimensions (0 by 0 when decoding fails), the transcript and the boxes of the observations, none when the request yielded no results |
| `Ocr.TranscriptAppend` | src/main.rs:248-253 | observations are taken in order: the transcript of a concatenation is the concatenation of transcripts |
| `Ocr.BoxesAppend` | src/main.rs:247-275 | the same for the boxes |
| `Ocr.WithoutCandidateContributesNothing` | src/main.rs:251 | an observation without a candidate adds neither text nor a box, wherever it stands |
| `Ocr.OneBoxPerRecognizedLine` | src/main.rs:247-275 | only observations with a top candidate are recognized; the transcript is the recognized lines alone; there is exactly one box per recognized line, in order, built from that observation with its text |
| `Ocr.PixelWithin` | src/main.rs:255-260 | a normalized point in the unit square maps into the image rectangle |
| `Ocr.BoxWithinImage` | src/main.rs:255-272 | the box of an observation whose corners lie in the unit square lies within the image |
| `Ocr.AllBoxesWithinImage` | src/main.rs:247-275 | every box of a result whose observations lie in the unit square lies within the image |
| `Ocr.RecognizedFrom` | src/main.rs:250-251 | every recognized observation is one of the input's |
| `Ocr.UnitSquareIsWholeImage` | src/main.rs:255-270 | the unit square, corners in the recognizer's order, is the whole image, the y axis being flipped |
| `Ocr.UnitSquareExample` | src/main.rs:255-270 | in a 100 by 200 image the unit square is the box at (0, 0) of size 100 by 200 |
| `Ocr.ZeroDimensionsCollapse` | src/main.rs:223-227 | when the dimensions cannot be decoded, every box is the empty box at the origin and keeps its text |
| `Text.ContainsIffOccurs` | src/main.rs:326 | `contains` holds exactly when the pattern occurs at some index |
| `Text.IndexOf` | src/main.rs:182 | finds the first occurrence of a character, or reports that there is none |
| `Text.IndexOfAt` | src/main.rs:182 | an occurrence with none before it is the one found |
| `Text.LastIndexOf` | src/main.rs:335-337 | finds the last occurrence of a character, or reports that there is none |
| `Text.LastIndexOfAt` | src/main.rs:335-337 | an occurrence with none after it is the one found |
| `Text.SplitOnce` | src/main.rs:182 | `split_once` fails exactly when the separator is absent; otherwise the input is the left part, the separator and the right part, the left part holding no separator |
| `Text.SplitOnceJoin` | src/main.rs:503 | splitting `left:right` with a colon-free `left` gives back `left` and `right` |
| `Text.Split` | src/main.rs:335-337 | the pieces between separators: at least one, none holding the separator, and the whole input when it holds none |
| `Text.JoinSplit` | src/main.rs:335-337 | the pieces joined with the separator give the input back |
| `Text.SplitAround` | src/main.rs:335-337 | splitting at a separator splits the two sides separately |
| `Text.ReplaceCharAppend` | src/main.rs:402 | `replace` of a one-character pattern works piece by piece |
| `Text.ReplaceCharAbsent` | src/main.rs:402 | `replace` leaves a string without the pattern unchanged |
| `Paths.Named` | src/main.rs:335-337 | the components of a path are exactly its non-empty pieces other than "." |
| `Paths.NamedAppend` | src/main.rs:335-337 | components keep the order of the pieces: those of consecutive pieces follow one another |
| `Paths.NamedSingle` | src/main.rs:335-337 | a single piece gives itself as its one component, or nothing when it is empty or "."; with `Paths.NamedAppend` this fixes the components of every path, copies included |
| `Paths.FileName` | src/main.rs:335-337 | `file_name` is a single, non-empty component other than "." and ".." |
| `Paths.FileStem` | src/main.rs:126 | `file_stem` is non-empty and holds no separator |
| `Paths.PlainFileName` | src/main.rs:335-337 | a single component is its own file name |
| `Paths.FileNameIgnoresDirectory` | src/main.rs:126 | the directories in front of a file name do not change it |
| `Paths.StemAndExtensionMakeTheName` | src/main.rs:126 | stem, a dot and the extension give back the file name; with no extension the stem is the name |
| `Paths.ExtensionIsPlain` | src/main.rs:335-337 | an extension holds no dot and no separator |
| `Http.ToStr` | src/main.rs:497 | `HeaderValue::to_str` succeeds exactly on tab and visible ASCII, with the same code points |
| `Http.ToStrBytesOf` | src/main.rs:497 | a header value that converts to text is that text's bytes |
| `Http.BytesOfToStr` | src/main.rs:497 | visible ASCII text converts back from its bytes |
| `Base64.ValueOfCharOf` | src/main.rs:500 | the standard alphabet maps each value to a character and back |
| `Base64.CharOfValueOf` | src/main.rs:500 | the same from the character side |
| `Base64.Encode` | src/main.rs:500 | the padded encoding has four characters for every started group of three bytes |
| `Base64.EncodingAlphabet` | src/main.rs:500 | every character of an encoding is from the standard alphabet or the pad character `=` |
| `Base64.DecodeEncode` | src/main.rs:500 | decoding the encoding of any bytes gives them back |
| `Base64.EncodeDecode` | src/main.rs:500 | any text the standard decoder accepts is the encoding of what it decodes to, so acceptance is canonical |
| `Base64.GroupCanonical` | src/main.rs:500 | a full group that decodes is the encoding of its three bytes |
| `Base64.FinalGroupCanonical` | src/main.rs:500 | a final group with padding decodes only with zero pad bits, and is then the encoding of its bytes |
| `Utf8.DecodeEncode` | src/main.rs:501 | decoding the UTF-8 encoding of any text gives it back |
| `Utf8.EncodeDecode` | src/main.rs:501 | any bytes `String::from_utf8` accepts are the encoding of the text they decode to: no overlong forms, surrogates or values past U+10FFFF |
| `Utf8.FirstCanonical` | src/main.rs:501 | a decoded first character was encoded in its shortest form |
| `Utf8.ScalarRoundTrip` | src/main.rs:501 | every character's encoding decodes back to it, consuming all of its bytes |
| `Credentials.ValidAuthFormatIffLanguage` | src/main.rs:483-486 | the format check accepts exactly a non-empty colon-free user, one colon and a non-empty colon-free password |
| `Credentials.AcceptedExample` | src/main.rs:483-486 | "alice:secret" is accepted |
| `Credentials.RejectedExamples` | src/main.rs:483-486 | "", "alice" and ":x" are rejected |
| `Credentials.RejectedSecondColon` | src/main.rs:483-486 | a second colon is rejected |
| `Credentials.ValidFormatSplits` | src/main.rs:176-182 | an accepted setting splits at its colon into its two parts |
| `Credentials.ConfiguredCredential` | src/main.rs:176-184 | authentication is configured exactly when the setting is user, colon, password, and the user and password are those parts |
| `BasicAuth.Decide` | src/main.rs:489-524 | the middleware either forwards the request or gives the single 401 reply with its realm and message |
| `BasicAuth.EncodingIsVisible` | src/main.rs:497 | a base64 encoding is visible ASCII, so a header carrying it converts to text |
| `BasicAuth.ForwardsExactlyTheCredentials` | src/main.rs:489-524 | for a colon-free username the request is forwarded exactly when the header is `Basic ` and the base64 of the UTF-8 of `user:password` |
| `BasicAuth.ColonInUserNeverForwards` | src/main.rs:503-504 | a username holding a colon can never be matched |
| `BasicAuth.ConfiguredGate` | src/main.rs:176-188 | with a configured setting the gate admits exactly the Basic encoding of that setting |
| `Upload.ApiRequestIffJsonAccepted` | src/main.rs:324-327 | a request is an API request exactly when an Accept header is present, converts to text, and contains `application/json` |
| `Upload.StoredNameKeepsExtension` | src/main.rs:331-344 | the stored name is the UUID, optionally followed by "." and the original's extension; it is a single component whose extension is the original's |
| `Upload.UnnamedIsBareUuid` | src/main.rs:331-344 | a field without a file name is stored under the bare UUID |
| `Upload.EscapeHtmlIsPerCharacter` | src/main.rs:402 | the chained `replace` calls escape each character on its own |
| `Upload.EscapedHasNoAngleBrackets` | src/main.rs:402 | an escaped transcript holds no `<` and no `>` |
| `Upload.EscapedAmpersandsBeginEntities` | src/main.rs:402 | every `&` in an escaped transcript begins `&amp;`, `&lt;` or `&gt;` |
| `Upload.EscapeLeavesPlainTextAlone` | src/main.rs:402 | text without `&`, `<` and `>` is unchanged |
| `Upload.UnescapeEscape` | src/main.rs:402 | escaping loses nothing: unescaping gives the transcript back |
| `Upload.UploadFile` | src/main.rs:322-481 | JSON exactly for API requests; the stored name is drawn for every present field; success exactly when a field was stored and recognized; the reply of each failure path, and the result page, which shows an escaped transcript that unescapes to the transcript |
| `Cli.ModeOf` | src/main.rs:114-137 | without flags the transcripts are printed; `--ocr` exports; `--server` touches no file |
| `Cli.Outcome` | src/main.rs:114-125 | an argument is recognized exactly when it is an image that can be read, and then with its transcript and dimensions |
| `Cli.Run` | src/main.rs:114-135 | prints the transcripts in order without flags; with `--ocr` writes each export and announces the successful ones; nothing in server mode |
| `Cli.PrintAll` | src/main.rs:114-121 | standard output is the transcripts of the recognized arguments, in order |
| `Cli.ExportAll` | src/main.rs:122-135 | the writes are the exports of the recognized arguments, and the output announces those that succeed |
| `Cli.ExportNameIsPlainTextFile` | src/main.rs:126-128 | the export is a single component in the working directory, with extension `txt` and the input's stem |
| `Cli.ExportedExactlyWhenRecognized` | src/main.rs:124-128 | an argument is exported exactly when it is a readable image whose path has a stem, and then as `<stem>.txt` holding its transcript |
| `Cli.SkippedFileLeavesNoTrace` | src/main.rs:115-125 | an argument that is not a readable image changes neither the output nor the writes |
| `Cli.ExportsComeFromRecognizedImages` | src/main.rs:122-135 | there are no more exports than arguments, and each is named after a recognized argument and holds its transcript |
| `Cli.ExportIgnoresDirectory` | src/main.rs:126-128 | the export depends only on the file name: images with the same name in different directories go to the same file |

## Left out

- The Vision request itself: how the request is set up, how it is performed and what it recognizes. The observations are an input, and a failed request is treated as no results, because its error is discarded (`src/main.rs:229-245`).
- `image::open` and `dimensions`: the decoded size is an input.
- Content sniffing (`infer::is_image`): it is an input, `false` when the file cannot be read.
- Reading and writing files, the temporary upload directory and its creation: their outcomes are inputs.
- `Uuid::new_v4`: the UUID is an input, a hyphenated lower-case UUID where a lemma needs one.
- Floating point: coordinates are reals, so `f64` rounding, NaN and infinities are not modelled. The folds from plus and minus infinity are stated as `Ocr.Min4` and `Ocr.Max4` over real numbers.
- The HTML text around the heading and the `<pre>` block, the upload form (`show_form`), and JSON serialization: pages are modelled by their heading and escaped content, and JSON by the fields of `UploadResponse`.
- The axum router, body limits, tower tracing layers, tokio and the server start-up output (address, colours): these are framework wiring and I/O.
- Argument parsing by clap: `Cli.ModeOf` takes the two flags, and the parser's refusal of `--ocr` together with `--server` is its precondition.
- The panics on a malformed multipart stream (`unwrap` on `next_field` and `bytes`): the model takes the first field as given.
- Header-name lookup in the `HeaderMap` (case-insensitive, first value): the `authorization` and `accept` values are inputs as `Option`s.
- The regular-expression engine: `is_valid_auth_format` is modelled by an automaton for its one pattern, proved equal to the language it denotes.
- Whether `save_path.to_str()` fails depends on the temporary directory's path: it is an outcome of the upload's analysis input.
