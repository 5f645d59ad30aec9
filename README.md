# A verified model of a minimal static-file HTTP server

The system is a small HTTP server written in Rust (`main.rs`). It accepts
TCP connections one at a time. From each connection it reads up to 512
bytes and takes the request target from the first line. It percent-decodes
the target, strips its leading slashes and pushes what remains onto the
root directory. The result is joined onto the canonical root and
canonicalized. If the canonical path lies under the canonical root, the
server answers with an HTML listing for a directory, with the file
(its type sniffed from its content) for a regular file, and with nothing
for anything else. Outside the root it answers `404 NOT FOUND`.

Each unwrap of `handle_request`, `serve_directory` and `serve_file` that
the model keeps becomes an explicit `Crash` with a `Panic` naming its line
(`Outcomes.Panic`). The write unwraps are not modelled (see below), and the
unwrap of main.rs:17 is kept although it cannot fail
(`Request.FirstLineAlwaysPresent`). The
filesystem (`canonicalize`, `is_dir`, `is_file`, `fs::read`, the directory
walk), the percent-decoder and the content sniffer are function-valued
parameters (`Server.FileSystem`, `Server.Env`). The handler's result is
`Sent(bytes)`, `Silent` for a connection closed without a response, or
`Crash(panic)`.

Modules:

- `Options`, `Bytes` and `Text` hold the option and result types, UTF-8
  encoding (`str::as_bytes`), and a first-index search.
- `Request` models the 512-byte buffer, `lines().next()` and
  `split_whitespace().nth(1)`.
- `Paths` models Unix paths: `push`, `join`, `starts_with` and
  `trim_start_matches('/')`.
- `Responses` models `serve_directory`, `serve_file` and `send_404`. It
  also has the client-side partner `SplitResponse`, which splits a
  response at its first blank line, and `ParseListing`, which reads the
  links back out of a listing.
- `Server` models `handle_request`.

Some behaviour of the code that a reader might not expect:

- A target that cannot be parsed, cannot be decoded, or resolves to a path
  that does not exist panics. A 404 is not sent.
- A resource inside the root that is neither a directory nor a regular
  file gets no response, not a 404.
- All leading slashes are trimmed, not just one. With only one stripped,
  `//etc` would stay absolute and replace the root.
- An unreadable file makes the handler panic, and so does a walk error.
  No error status other than the 404 is ever sent.
- `is_dir`, `is_file`, the walk and the read use the joined, uncanonical
  `resource`, not its canonical form.
- The listing applies no HTML escaping.

## Model

| member | source | states |
|---|---|---|
| Bytes.EncodeChar | main.rs:55 | a char encodes to 1 to 4 bytes; it is one byte (its own code) exactly when it is ASCII; otherwise a lead byte of at least 0xC0 and continuation bytes in [0x80, 0xC0) |
| Bytes.Utf8 | main.rs:55 | the encoding of a string is between its length and four times its length |
| Bytes.Utf8Append | main.rs:71-72 | encoding distributes over concatenation |
| Bytes.Utf8OfAscii | main.rs:77 | an ASCII string encodes to its own codes, one byte per char |
| Bytes.Utf8AsciiPrefix | main.rs:55 | through a run of ASCII chars, byte i of the encoding is the code of char i, whatever follows |
| Bytes.Utf8Length | main.rs:55 | the encoding has the string's length if and only if the string is ASCII |
| Text.IndexOf | main.rs:17 | the result is the position of the first occurrence of the char, or the length when it does not occur; no earlier position holds it |
| Text.IndexOfAppend | main.rs:17 | the search passes over a prefix without the char |
| Request.BufferText | main.rs:10-14 | the decoded buffer is always 512 chars: what was received, then NUL padding |
| Request.IsWhitespace | main.rs:18 | definition (no contract of its own): the Unicode White_Space property `split_whitespace` splits on; `Request.Tokens`, `Request.TokensOfLayout` and `Request.LayoutOfTokens` state how it splits |
| Request.FirstLine | main.rs:17 | the first line is absent only for empty text; it is a prefix without a line feed, and what follows it is a line feed (opt. preceded by a carriage return) or nothing |
| Request.Tokens | main.rs:18 | every token is non-empty and free of whitespace |
| Request.Gaps | main.rs:18 | there is one separator more than there are tokens |
| Request.TokensOfLayout | main.rs:18 | tokens laid out with whitespace separators (non-empty between tokens) split back into exactly those tokens |
| Request.LayoutOfTokens | main.rs:18 | every text is its tokens laid out with its whitespace gaps, and those gaps are well separated |
| Request.TokensCons | main.rs:18 | after leading whitespace, the first token runs up to the next whitespace |
| Request.ParseTarget | main.rs:10-18 | a parsed target is non-empty and has no whitespace; a failure is the failed read or the missing second token |
| Request.TargetOfRequestLine | main.rs:14-18 | for a request line of the form method, whitespace, target, whitespace, the target parsed is exactly the second token |
| Request.UnterminatedTarget | main.rs:10-18 | a request that ends right after its target gets the NUL padding appended to the target |
| Request.MissingTarget | main.rs:17-18 | a first line with a single token panics at main.rs:18 |
| Request.FirstLineAlwaysPresent | main.rs:17 | the padded buffer always has a first line, so main.rs:17 cannot panic |
| Paths.Components | main.rs:30 | a path has one component per name plus the root for an absolute path |
| Paths.Names | main.rs:25 | every name kept when splitting a string on `/` is non-empty, not `.` and free of `/` |
| Paths.NamesDropSlash | main.rs:25 | a leading `/` contributes no name |
| Paths.NamesAfterSlash | main.rs:25 | one more leading `/` leaves the names unchanged |
| Paths.ParsePath | main.rs:25 | a parsed path is well formed, and it is absolute exactly when the string starts with `/` |
| Paths.Push | main.rs:25 | definition (no contract of its own): `PathBuf::push`, where an absolute argument replaces the path; `Paths.UntrimmedPushReplacesRoot` and `Server.JoinFull` state its cases |
| Paths.Join | main.rs:29 | definition (no contract of its own): `Path::join` as a push onto a copy; `Server.JoinFull` and `Server.JoinFullPath` state what it yields here |
| Paths.StartsWith | main.rs:30 | definition (no contract of its own): a component prefix; `Paths.StartsWithNames` characterizes it in both directions and `Paths.StringPrefixIsNotEnough` separates it from a string prefix |
| Paths.FullPath | main.rs:24-25 | definition (no contract of its own): the root with the trimmed target pushed; `Paths.FullPathUnderRoot` states it is the root followed by the target's names |
| Paths.TrimLeadingSlashes | main.rs:25 | the result is a suffix, everything removed is `/`, and the result does not start with `/` |
| Paths.TrimKeepsNames | main.rs:25 | trimming the leading slashes keeps the path's names |
| Paths.TrimmedPathIsRelative | main.rs:25 | the trimmed target parses to the relative path with the target's names |
| Paths.TrimIdempotent | main.rs:25 | trimming twice is trimming once |
| Paths.FullPathUnderRoot | main.rs:24-25 | the full path is the root followed by the target's names, and it starts with the root |
| Paths.UntrimmedPushReplacesRoot | main.rs:25 | without the trim, pushing an absolute target would replace the root entirely |
| Paths.SingleStripStaysAbsolute | main.rs:25 | stripping one slash from `//etc` leaves an absolute path; trimming all of them does not |
| Paths.StartsWithNames | main.rs:30 | `starts_with` holds exactly when the base is the empty relative path, or the absoluteness agrees and the base's names are a prefix of the path's names |
| Paths.StartsWithSelf | main.rs:30 | the canonical root itself is accepted by the containment test |
| Paths.StringPrefixIsNotEnough | main.rs:30 | a sibling whose last name extends the base's has the base's text as a string prefix, yet it is not under the base |
| Paths.RootEvilIsOutsideRoot | main.rs:30 | `/root-evil` is not under `/root`, while `/root/a` is |
| Paths.JoinNamesExtendLast | main.rs:30 | lengthening the last name lengthens the rendered path by the same text |
| Paths.NamesOfJoin | main.rs:25 | valid names joined with `/` split back into the same names |
| Paths.NamesOfName | main.rs:25 | a valid name alone splits into itself |
| Paths.NamesOfLead | main.rs:25 | a valid name followed by `/` splits off as the first name |
| Paths.ParseRender | main.rs:25 | a well-formed path parses back from its rendering |
| Responses.MaxDepth | main.rs:45 | the depth filter keeps no more entries than the walk has, all at most the limit deep |
| Responses.MaxDepthMembers | main.rs:45 | an entry is kept if and only if it is in the walk and within the depth limit |
| Responses.MaxDepthCons | main.rs:45 | proof step: the first item is kept exactly when it is within the limit |
| Responses.MaxDepthAppend | main.rs:45 | the depth filter distributes over concatenation of walks |
| Responses.MaxDepthKeeps | main.rs:45 | a kept item lands right after the items kept before it |
| Responses.MaxDepthOrder | main.rs:45 | kept entries stay in walk order: a later kept item lands at a strictly later position |
| Responses.ListedPaths | main.rs:45-47 | listing succeeds exactly when every kept item is an entry, and then lists their paths in order; the failure is the walk panic |
| Responses.Link | main.rs:48 | definition (no contract of its own): target and text are the same unescaped path; `Responses.ParseLinkOf` reads it back |
| Responses.ListingBody | main.rs:44-49 | definition (no contract of its own): one link per path in order; `Responses.ListingBodySnoc` and `Responses.ParseListingBody` state its properties |
| Responses.ListingDocument | main.rs:53 | definition (no contract of its own): the body between `<html><body>` and `</body></html>`; `Responses.ListingReadsBack` reads it back |
| Responses.ListingPage | main.rs:51-54 | definition (no contract of its own): the `text/html` header and the document; `Responses.ListingReadsBack` and `Server.ListingStatusDigit` state its properties |
| Responses.DirectoryOutcome | main.rs:43-56 | never silent; it sends exactly when every item the depth filter keeps is an entry, and otherwise panics with the walk panic; `Responses.DirectoryOutcomeCases` restates this over the unfiltered walk |
| Responses.ListedPathsSnoc | main.rs:45-47 | one more entry appends its path |
| Responses.ListingBodySnoc | main.rs:48 | one more path appends its link |
| Responses.ListingStep | main.rs:45-48 | one more entry in the loop keeps the body equal to the listing body of the paths seen so far |
| Responses.DirectoryListed | main.rs:45-55 | when every kept item is an entry, the directory handler sends the listing page of their paths |
| Responses.DirectoryFails | main.rs:46 | one kept walk error makes the directory handler panic at main.rs:46 |
| Responses.ServeDirectory | main.rs:43-55 | the loop's outcome is the listing page of the kept entries, or the walk panic |
| Responses.DirectoryOutcomeCases | main.rs:45-46 | the directory handler panics exactly when the walk yields an error at depth 0 or 1, and then with the walk panic |
| Responses.HeadEnd | main.rs:51-55 | the head ends at the first blank line, with no blank line before it |
| Responses.HeadEndAfter | main.rs:51-55 | a head without a blank line ends where the blank line is appended |
| Responses.SplitAtBlankLine | main.rs:51-55 | a head without a blank line, the blank line and any body split back into that head and that body |
| Responses.Utf8WithoutCr | main.rs:55 | text without a carriage return encodes without byte 13 |
| Responses.TwoLineHead | main.rs:52 | two lines without carriage returns, joined by CRLF, contain no blank line |
| Responses.HeadSplits | main.rs:68-70 | two lines without carriage returns, the second starting with an ASCII char, followed by a blank line and any body, split back into those two lines and that body |
| Responses.OkHeaderParts | main.rs:69 | the status line and the `Content-Type` line of a 200 head hold no carriage return |
| Responses.OkHeadSplits | main.rs:68-72 | a 200 header naming a type without carriage returns, followed by any body, splits back into the status and type lines and that body |
| Responses.StatusOnlySplits | main.rs:76 | a status line followed by a blank line reads back as that line with an empty body |
| Responses.NotFoundReadsBack | main.rs:75-77 | the 404 response reads back as the status line `HTTP/1.1 404 NOT FOUND` with an empty body |
| Responses.NotFoundLength | main.rs:76-77 | the 404 response is 26 bytes, one per char of its text |
| Responses.FileReadsBack | main.rs:58-72 | a served file reads back as the 200 head with the sniffed type, or `application/octet-stream` when nothing is sniffed, followed by exactly the file's bytes |
| Responses.UnreadableFileCrashes | main.rs:59 | a failed read panics, writing nothing |
| Responses.ServeFile | main.rs:58-73 | it panics exactly when the read fails, with the read panic; otherwise it sends, and the file's bytes are exactly the tail of what is sent; `Responses.FileReadsBack` pins the head |
| Responses.MimeType | main.rs:62-66 | definition (no contract of its own): the sniffed type or `application/octet-stream`; `Responses.FileReadsBack` states both cases |
| Responses.FileHeader | main.rs:68-70 | definition (no contract of its own): the 200 status line and the content-type line; `Responses.OkHeadSplits` reads it back |
| Responses.NotFound | main.rs:75-78 | definition (no contract of its own): the 404 text encoded; `Responses.NotFoundReadsBack`, `Responses.NotFoundLength` and `Server.NotFoundStatusDigit` state its properties |
| Responses.ListingReadsBack | main.rs:51-55 | a listing reads back as the `text/html` head followed by the HTML document |
| Responses.ParseLink | main.rs:48 | a link read off the front leaves a strictly shorter rest |
| Responses.LinkParts | main.rs:48 | proof step: a link is its opening `<a href="`, its path and its closing text |
| Responses.ParseLinkOf | main.rs:48 | the link of a path without `"`, followed by anything, reads back as that path and what follows |
| Responses.ParseListingCons | main.rs:48 | a link in front of a listing that reads back puts its path in front of the paths read |
| Responses.ListingBodyCons | main.rs:48 | proof step: a listing body is its first link followed by the body of the rest |
| Responses.ParseListingBody | main.rs:48 | the links of a listing whose paths have no `"` parse back to exactly those paths |
| Server.HandleRequest | main.rs:9-41 | a failed read panics with the read panic; no panic is ever the missing-first-line one |
| Server.HandleTarget | main.rs:21-40 | it panics only with the decoding, canonicalization, walk or read panic; `Server.OutsideRootIsNotFound`, `Server.ContainedDispatch`, `Server.ServedOnlyInsideRoot` and `Server.CanonicalizeFailureCrashes` state its cases |
| Server.Resolve | main.rs:24-30 | it succeeds exactly when both canonicalizations succeed, and then holds the canonical root, the joined resource and its canonical form; otherwise it fails with the root or resource panic |
| Server.Contained | main.rs:30 | definition (no contract of its own): the canonical resource starts with the canonical root, component-wise; `Paths.StartsWithNames` characterizes the test |
| Server.Dispatch | main.rs:30-40 | definition (no contract of its own): the 404 outside the root, else serving the resource; `Server.OutsideRootIsNotFound` and `Server.ContainedDispatch` state both branches |
| Server.ServeResource | main.rs:31-37 | it is silent exactly when the resource is neither a directory nor a regular file, and panics only with the walk or read panic |
| Server.MissingTargetCrashes | main.rs:17-18 | a first line with a single token panics at main.rs:18, whatever the root and filesystem |
| Server.RequestLineReachesHandler | main.rs:10-21 | a well-formed request line hands exactly its second token to decoding |
| Server.ResourceUnderRoot | main.rs:24-29 | the resource is the canonical root joined with the full path; for an absolute root it is the root followed by the target's names and starts with the root; for a relative root it is the canonical root, the root and the target's names |
| Server.ResolvedResource | main.rs:29 | proof step: the resource handed on is the canonical root joined with the full path |
| Server.JoinFullPath | main.rs:24-29 | joining the full path onto any base gives the root and the target's names for an absolute root, and base, root and names for a relative root |
| Server.ResolveUsesOnlyCanonicalize | main.rs:24-30 | resolution depends on `canonicalize` and on no other part of the filesystem |
| Server.JoinFull | main.rs:29 | proof step: joining onto an absolute full path yields it, joining onto a relative one appends it |
| Server.CanonicalizeFailureCrashes | main.rs:28-30 | failing to canonicalize the root or the resource panics |
| Server.OutsideRootIsNotFound | main.rs:30-39 | outside the root the outcome is exactly the 404, whatever `is_dir`, `is_file`, the read, the walk and the sniffer would say, and it reads back as the 404 status line alone |
| Server.ContainedDispatch | main.rs:30-37 | inside the root, a directory (checked first) gets its listing, else a regular file its contents, else nothing |
| Server.ServedOnlyInsideRoot | main.rs:30-37 | any response other than the 404 comes from a decoded target whose resource passed the containment test and is a directory or a regular file |
| Server.OkIsNotNotFound | main.rs:30-37 | nothing served inside the root is the 404 response |
| Server.OkStatusIsAscii | main.rs:69 | the 200 status line is 15 ASCII chars with `'2'` at position 9 |
| Server.OkStatusDigit | main.rs:68-71 | any text starting with the 200 status line encodes with byte 9 equal to `'2'` |
| Server.FileStatusDigit | main.rs:69-72 | byte 9 of every file response is `'2'` |
| Server.ListingStatusDigit | main.rs:51-55 | byte 9 of every listing is `'2'` |
| Server.NotFoundChars | main.rs:76 | the 404 text is 26 chars, ASCII up to position 9, which holds `'4'` |
| Server.TextDigit | main.rs:76 | a text ASCII up to position 9 encodes with byte 9 equal to its char 9 |
| Server.NotFoundStatusDigit | main.rs:76-77 | byte 9 of the 404 response is `'4'` |
| Server.ServeStatusDigit | main.rs:31-37 | whatever serving a resource sends, a listing or a file, has byte 9 equal to `'2'` |
| Server.ContainedStatusDigit | main.rs:30-37 | whatever is sent for a resource inside the root has byte 9 equal to `'2'` |
| Server.ListingIsNotNotFound | main.rs:51-77 | no listing equals the 404 response |
| Server.OkHeaderIsNotNotFound | main.rs:68-77 | no 200 response equals the 404 response |

## Left out

- The TCP listener, its accept loop (main.rs:80-88) and the current directory as root. The root is a parameter of `Server.HandleRequest`.
- The read itself. What it delivered (at most 512 chars) or its failure is a parameter.
- `String::from_utf8_lossy`: the received bytes are taken as already-decoded chars. The NUL padding is counted in chars, which agrees with the buffer whenever the received bytes are ASCII.
- Write failures (`write_all(..).unwrap()`, main.rs:55, 71-72, 77) are not modelled. A response is taken to be written whole.
- The filesystem semantics of `canonicalize`, `is_dir`, `is_file`, `fs::read` and symlinks are oracles. Nothing is assumed about how they agree with each other.
- `walkdir`'s order and contents are an oracle: a sequence of entries and errors with their depths, which `max_depth(1)` filters.
- `infer`'s signature table is an oracle from content to an optional type.
- `url_escape::decode_component` is an oracle from the target to an optional decoded string.
- `Path::display` is taken to be the listing string the walk oracle carries for each entry.
- Paths are modelled by their component form, the absolute flag and the names, with `.` and empty components dropped everywhere. `Path::components` drops them too, except that it keeps a leading `.` of a relative path as `CurDir`, which the model does not represent.
- The filesystem oracles are keyed by that component form, while the code hands the operating system the full path text. A trailing `/` or `.` is therefore invisible to them. For `GET /a.txt/`, the code canonicalizes and tests `<root>/a.txt/`, which fails for a regular file because a trailing slash demands a directory; in the model `/a.txt/` and `/a.txt` reach the same path and the same oracle answers. Likewise `/` and `/.` (pushing `""` or `.`) reach the same path, so the walk oracle cannot give them different display strings.
- A panic on the main thread ends the whole server process. The model stops at the `Crash` outcome of one request.
- Bytes.EncodeChar: the encoding is given by its length, lead and continuation classes, not by the exact bit layout of each byte.
