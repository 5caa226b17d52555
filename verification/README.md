# Resumable download routine of psa-update, modelled in Dafny

psa-update fetches firmware archives over HTTP and continues an interrupted
download instead of restarting it. This project models the single-file
routine `download_file` of `src/download.rs` and its two filename helpers:

- **Filename resolution** (`filename.dfy`): a present `content-disposition`
  header must match `attachment; filename=(\S+)`. The match is the leftmost
  one, and the capture is the maximal non-whitespace run after it. A header
  that does not match is a failure; the URL is not consulted then. Without
  the header, the last URL path segment is the name, and it may be empty.
  The regular expression is replaced by a hand-written matcher whose
  contract states the leftmost/maximal semantics declaratively.
- **Resume planning** (`resume.dfy`): the probe phase yields one of three
  outcomes. It can fail. It can skip the download because the local file
  already has the probe's length. Or it fixes the resume position and the
  probe's length. This module also holds the `Range: bytes=<n>-` header,
  proved to parse back to `n`.
- **Chunked copy** (`transfer.dfy`): the read loop runs until the first
  zero-length read. It counts every chunk on the progress counter and hands
  it to the writer, then flushes. It is an imperative method with loop
  invariants.
- **The whole routine** (`download.dfy`): the steps composed in order. The
  model chooses the bar's length, opens the file in create or append mode,
  and returns the name parsed from the transfer response.

`http.dfy` holds the response record, the error values, bytes and the file
system map. `wrappers.dfy` holds `Option` and `Result`.

Network responses, the body's read results and file-operation failures are
inputs. The probe and the transfer are each an optional response; None
means sending failed. The body is a sequence of chunks, and running past the
last chunk is a zero-length read. A `Faults` record says which open, read,
write or flush fails. The file system is a map from name to contents.

## Model

| member | source | states |
|---|---|---|
| Filename.RunEnd | src/download.rs:170 | `\S+` is greedy: the run it returns has no whitespace and ends at whitespace or at the end of the header |
| Filename.FindFrom | src/download.rs:173-176 | the position returned is a match of the literal followed by a non-whitespace character, and no earlier position matches; None means no position matches |
| Filename.Capture | src/download.rs:170-178 | a capture exists iff the pattern matches somewhere; it is the maximal non-whitespace run after the leftmost match, so it is non-empty and has no whitespace |
| Filename.FromDisposition | src/download.rs:150-187 | no header gives no name; a header that is not visible ASCII fails; a text header succeeds iff the pattern matches, and then gives exactly the capture; otherwise it fails with the header in the error |
| Filename.ParseFilename | src/download.rs:129-147 | with the header, success iff it is text and matches, and the name is the leftmost capture; without it, success iff the URL has path segments, and the name is the last one (possibly empty) |
| Filename.DispositionRoundTrip | src/download.rs:170-181 | writing `attachment; filename=<name>`, optionally followed by whitespace and more, then parsing it back gives `<name>` |
| Filename.HeaderDecidesAlone | src/download.rs:131-134 | when the header is present, the result does not depend on the URL's path segments |
| Filename.MalformedHeaderFails | src/download.rs:180-185 | `attachment; name=foo` fails with a parse error whatever the URL |
| Filename.HeaderNameWins | src/download.rs:129-134 | a header `attachment; filename=<name>` with a visible, whitespace-free name resolves to that name, whatever the URL, length or accept-ranges |
| Filename.HeaderPreferredOverUrl | src/download.rs:131-134 | a well-formed header's filename wins over the last URL segment |
| Filename.QuotedValueKeepsQuotes | src/download.rs:170 | a quoted value yields the token with its quotes |
| Filename.TrailingSlashGivesEmptyName | src/download.rs:138-141 | without the header, a URL ending in `/` resolves to the empty name |
| Resume.PlanResume | src/download.rs:23-56 | resume off means start at zero; probe send or filename failure fails; no accept-ranges, an empty name or no local file means start at zero; with accept-ranges and a local file of length K: skip iff K equals the probe length (0 if absent), otherwise resume at exactly K with the probe length recorded, and any resumed plan arises only this way |
| Resume.EmptyFileWithoutLengthIsComplete | src/download.rs:46-52 | an existing empty local file and a probe without a length make the download count as complete |
| Resume.EmptyNameNeverResumes | src/download.rs:38-39 | the empty name is never found locally, so a probe resolving to `""` starts from zero even if the map holds `""` |
| Resume.ResumeMayPassLength | src/download.rs:38-47 | a local file longer than the probe's length is resumed past the end; nothing bounds the position by the length |
| Resume.Decimal | src/download.rs:64 | the rendering `{}` gives the position: a non-empty run of decimal digits with no leading zero |
| Resume.DecimalRoundTrip | src/download.rs:64 | the decimal rendering of the position parses back to the position |
| Resume.RangeHeader | src/download.rs:59-65 | a `Range` header is present iff the resume position is positive, and it parses back to that position |
| Transfer.EndIndex | src/download.rs:105-114 | the loop ends at the first zero-length read: every earlier chunk is non-empty |
| Transfer.FlattenSize | src/download.rs:115 | the bytes counted on the bar equal the sum of the chunk sizes |
| Transfer.ReadChunks | src/download.rs:105-119 | the loop stops at the first zero-length read or the first failure; the writer has received exactly the chunks counted by `copied`; progress is the start plus their sizes, plus the failed chunk after a failed write |
| Transfer.CopyBody | src/download.rs:102-122 | success iff no read, write or flush fails; then the file is the prefix plus every chunk before the first empty one, and progress is the start plus the sum of their sizes; a read failure stops before the chunk; a failed write still counts its chunk on the bar; whatever happens, the file is the prefix followed by a prefix of the payload |
| Download.OpenSucceeds | src/download.rs:90-100 | position zero opens in create mode, which fails only on an I/O fault or the empty name; a positive position opens in append mode, which also fails when the file does not exist |
| Download.RunTransfer | src/download.rs:58-125 | keeps `TransferPhase`: send and name failures propagate; the bar exists iff the transfer names a file, with the probe's length when resuming; open, read, write and flush failures each report their own error and leave the bar at the bytes counted so far; the file is the opening contents followed by a prefix of the payload, exactly the chunks before a failed read, the whole payload on success; no other file changes |
| Download.DownloadFile | src/download.rs:17-126 | probe failures propagate with no request and no bar; skip exactly when the plan says so, leaving files unchanged; otherwise the request is always built, with `Range` exactly the plan's header (present iff the position is positive, parsing back to it); no Range without resume or accept-ranges; from there on `TransferPhase` holds at the plan's position and probe length, so every transfer-phase promise of RunTransfer holds of the whole download |

## Left out

- `src/main.rs`: command-line parsing, prompts, catalog queries, disk listing, extraction and the parallel fan-out of downloads are I/O, UI and concurrency.
- The HTTP exchange itself: the probe (sent as a GET) and the transfer are input records; a send failure is None.
- Compiling the regular expression (src/download.rs:170-171) cannot fail for the constant pattern, so that error path is not modelled.
- The progress bar's rendering, style, message, `reset_eta`, `finish` and all logging; only its length and position are kept.
- Integer widths: `u64` lengths and positions are unbounded `nat`s, because no file reaches 2^64 bytes.
- The 4096-byte read buffer: chunks may have any size, since no modelled property depends on it.
- `fs::metadata` on a directory succeeds with the directory's size; the model's file system holds regular files only.
- Filename.IsSpace: ASCII whitespace stands for the regular expression's Unicode `\s`; the two agree on every string `to_str` accepts (visible ASCII and tab).
- Transfer.CopyBody: after a failed write or flush, the model records every byte handed to the writer; the real `BufWriter` may have put fewer on disk.
- Download.DownloadFile: an empty name is taken as impossible to open, and append mode as failing on a missing file; other open failures are a fault input.
- Resume.PlanResume: the metadata of the empty name is taken as unreadable, so an empty name never resumes; other metadata failures are not modelled.

## Notes on the code

- A URL ending in `/` gives the empty name `""`; the code takes the last path segment as is (Filename.TrailingSlashGivesEmptyName).
- Nothing bounds the resume position by the probe's length: a local file longer than the resource is resumed past its end (Resume.ResumeMayPassLength).
- `reset_eta` is called on every download, resumed or not; the model keeps no ETA.
- The filename used for the transfer is parsed again from the transfer response and is not compared with the probe's (Download.DownloadFile).
