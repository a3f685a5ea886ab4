# fds command-line tool: a Dafny model of its deterministic core

`fds/fds_cmd.py` is the command-line client for the FDS object storage
service. Most of it hands work to the storage SDK. This project models the
parts that make their own decisions, and proves what they promise:

- **Configuration precedence** (`parse_argument`), in module `Config`. A truthy
  `-b`, `-r`, `--ak` or `--sk` flag wins over the per-user JSON configuration
  file. Otherwise the file's `bucket`, `region`, `ak` or `sk` is used. The end
  point always ends up as the raw `-e` value (see Findings).
- **The metadata string** (`parse_metadata_from_str`), in module `Metadata`.
  The string is split on `;`. Each entry is cut at its first `:`. An entry
  without a colon raises. Pairs with an empty key or value are dropped. Every
  other pair goes to user-defined metadata when its key starts with the SDK's
  user-metadata prefix, and to headers otherwise.
- **Listing**, in module `Listing`:
  - `list_buckets` filters buckets by prefix and by start mark. The start mark
    uses Python 2 string order.
  - `list_directory` normalises the prefix to end in `/`. It prints every page,
    with the prefix stripped, until a page says the listing is complete.
  - `list_object` prints one page of raw names. It adds `...` when that page
    is truncated.
  - Both listings jump to a start mark with the marker
    `bucket + '/' + prefix + start_mark`.
- **Transfers**, in module `Transfer`:
  - `get_object` copies a bounded prefix of the chunked download stream. For
    `--length n >= 0` it copies the first `min(n, total)` bytes, and `-1`
    stands for `sys.maxsize`. A value below -1 writes the first chunk minus its
    last `-n` bytes and stops, which is what Python's negative slicing gives.
  - `put_object` either uploads the `-d` file whole, or uploads standard input
    part by part. The parts are numbered from 0, and each carries exactly the
    bytes of one non-empty read.

How external things are represented:

- The storage client is represented by its answers: the pages a listing call
  returns, and the chunks of a download stream. The calls the listing
  commands make are recorded in order. For transfers, only the parts and the
  metadata sent are recorded (see Left out).
- Standard input is the list of what successive `readinto` calls deliver.
- Printed output is the list of lines written. Each line is followed by a
  newline in the source.
- Python `None` is `Option.None`. A raised exception is `Result.Err`.
- A string flag is "truthy" when it is present and non-empty.

Where the code and its usage text disagree, the model follows the code. The
usage text lists `end_point` as an optional key of the configuration file, but
the code never uses it. The code also reads a `bucket` key from that file,
which the usage text does not mention.

Files: `common.dfy` (shared vocabulary), `config.dfy`, `metadata.dfy`,
`listing.dfy`, `transfer.dfy`.

## Model

| member | source | states |
|---|---|---|
| Config.Lookup | fds/fds_cmd.py:53-97 | `local_config.get(key)`: a value exactly when the file has the key, and then the file's value |
| Config.Prefer | fds/fds_cmd.py:50-53 | a truthy flag is taken as is; otherwise the file's value, which may be absent |
| Config.ChooseEndPoint | fds/fds_cmd.py:55-64 | end point of the region branch: a truthy `-e` wins; `-r` without `-e` keeps the earlier value; with neither, the file's `end_point` |
| Config.ParseArgument | fds/fds_cmd.py:42-97 | bucket, region, access key and secret key come from a truthy flag, otherwise from the file; the end point is always the raw `-e` value |
| Config.ParseArgumentIntended | fds/fds_cmd.py:55-64 | the corrected merge: the same settings, except that the end point is the one the region branch chose |
| Config.FlagsOverrideFile | fds/fds_cmd.py:50-97 | when all four flags are truthy, the configuration file has no effect on the settings |
| Config.FileFillsMissingFlags | fds/fds_cmd.py:50-97 | with no flags, bucket, region, access key and secret key are exactly the file's entries |
| Config.FileEndPointIgnored | fds/fds_cmd.py:87 | as written, a file `end_point` never reaches the settings, while the corrected merge uses it when neither `-e` nor `-r` is truthy |
| Config.FileEndPointIgnoredExample | fds/fds_cmd.py:58-87 | a concrete case: no flags and a file naming an end point give no end point as written, and that end point when corrected |
| Config.IntendedEndPointFromFile | fds/fds_cmd.py:56-64 | in the corrected merge, the file's `end_point` takes effect exactly when neither `-e` nor `-r` is truthy |
| Metadata.Split | fds/fds_cmd.py:196 | `split(';')` yields at least one piece, and no piece contains the separator |
| Metadata.JoinSplit | fds/fds_cmd.py:196 | joining the pieces with the separator gives back the original string |
| Metadata.SplitJoin | fds/fds_cmd.py:196 | separator-free pieces are recovered exactly by splitting their join (the other direction of the round trip) |
| Metadata.SplitTrailingSeparator | fds/fds_cmd.py:196 | a trailing `;` adds exactly one empty last entry |
| Metadata.SplitAtFirst | fds/fds_cmd.py:197 | `split(':', 1)` fails exactly when there is no colon; otherwise key + `:` + value is the entry, and the key has no colon |
| Metadata.SplitAtFirstUnique | fds/fds_cmd.py:197 | the cut is at the first colon: any colon-free key with key + `:` + value equal to the entry is the one returned |
| Metadata.ParseEntries | fds/fds_cmd.py:196-202 | the loop succeeds exactly when every entry has a colon; otherwise it fails on the first entry without one |
| Metadata.ParseMetadata | fds/fds_cmd.py:192-203 | a missing or empty string gives no metadata object; otherwise it succeeds exactly when every `;`-entry has a colon, the object holding the kept pairs with the prefix as user metadata and the rest as headers, in entry order; a failure names the first entry without a colon |
| Metadata.ParseEntriesIsSelection | fds/fds_cmd.py:196-202 | the parser matches the reference: user metadata and headers are the kept pairs with and without the prefix, in entry order |
| Metadata.SelectMembership | fds/fds_cmd.py:198-202 | a pair is selected if and only if it occurs, has a non-empty key and value, and its key's prefix matches the list |
| Metadata.SelectPartition | fds/fds_cmd.py:198-202 | together, the two lists hold exactly the kept pairs as a multiset: none is lost or duplicated |
| Metadata.ParsedEntryPlacement | fds/fds_cmd.py:198-202 | each entry with a non-empty key and value lands in the list its prefix chooses; other entries land in neither |
| Metadata.SingleEntry | fds/fds_cmd.py:196-202 | a single entry keeps any further colons in its value, and goes to user metadata exactly when its key has the prefix |
| Metadata.TrailingSemicolonRaises | fds/fds_cmd.py:196-197 | a string ending in `;` always raises, and does so on the empty last entry when every earlier entry is well formed |
| Listing.LexLess | fds/fds_cmd.py:108 | Python 2 string order, character by character; a proper prefix is below the longer string |
| Listing.LexLessTrichotomy | fds/fds_cmd.py:108 | the string order used for start marks is irreflexive, asymmetric and total: exactly one of below, equal, above |
| Listing.LexLessTransitive | fds/fds_cmd.py:108 | the string order is transitive, so it is a strict total order |
| Listing.ExtensionNotBelow | fds/fds_cmd.py:108 | a string is never below a prefix of itself |
| Listing.AtOrAfter | fds/fds_cmd.py:108 | `name >= start_mark`: true for a missing start mark, since `name >= None` is true in Python 2; otherwise the name equals the start mark or is above it |
| Listing.BucketShown | fds/fds_cmd.py:108 | the bucket test; a bucket that extends the start mark is shown exactly when it starts with the prefix |
| Listing.ListBuckets | fds/fds_cmd.py:105-110 | at most one line per listed bucket |
| Listing.ListBucketsAppend | fds/fds_cmd.py:107-110 | output keeps input order: the listing of a concatenation is the two listings in turn |
| Listing.ListBucketsMembership | fds/fds_cmd.py:105-110 | a line is printed if and only if it is `name + '/'` for a bucket that starts with the prefix and is not below the start mark |
| Listing.ListBucketsUnfiltered | fds/fds_cmd.py:107-110 | with an empty prefix and no start mark, every bucket is printed, in order |
| Listing.StartMarkItselfShown | fds/fds_cmd.py:108 | a bucket that starts with both the prefix and the start mark is printed |
| Listing.NormalizePrefix | fds/fds_cmd.py:276-280 | the path prefix is empty or ends in `/`; it is empty for a missing or empty prefix; otherwise it extends the prefix by at most one character |
| Listing.NormalizePrefixShortest | fds/fds_cmd.py:279-280 | the path prefix is the shortest extension of the prefix that is empty or ends in `/` |
| Listing.NormalizePrefixIdempotent | fds/fds_cmd.py:276-280 | normalising a path prefix again changes nothing |
| Listing.Strip | fds/fds_cmd.py:294-298 | `name[prefix_len:]`: what follows the first `cut` characters, so the cut-off part followed by the result is the name; empty when `cut` is past the end |
| Listing.StripRestores | fds/fds_cmd.py:291-298 | for a name under the path prefix, the prefix followed by the printed text is the name |
| Listing.StripAll | fds/fds_cmd.py:294-299 | each name becomes its text after the first `len(path_prefix)` characters, with the count and order unchanged |
| Listing.OpeningCalls | fds/fds_cmd.py:281-289 | the first call lists with the given prefix and delimiter; a truthy start mark adds exactly one jump to `bucket + '/' + prefix + start_mark`, and without one that call is the only one |
| Listing.FirstComplete | fds/fds_cmd.py:301-303 | finds the first page at or after the given one that is not truncated, with every page before it truncated; none if every page is truncated |
| Listing.FirstShown | fds/fds_cmd.py:285-289 | the index of the first answer shown: 1 exactly when a truthy start mark made the first answer be replaced by the jump's answer, otherwise 0 |
| Listing.FirstShownAnswersLastOpening | fds/fds_cmd.py:281-289 | the first answer shown is the answer to the last opening request: the jump when there is one, otherwise the listing call |
| Listing.ListDirectory | fds/fds_cmd.py:275-303 | lists under the normalised prefix with delimiter `/`; shows every page from the first after any jump to the first complete one, prefix stripped; follows each page's next marker; nothing when the pages run out |
| Listing.ListObject | fds/fds_cmd.py:306-323 | lists under the raw prefix with no delimiter and jumps to the start mark when one is truthy; prints one page's names unchanged, followed by exactly one `...` line if and only if that page is truncated |
| Listing.DirectoryAgreesWithFlatOnOnePage | fds/fds_cmd.py:291-299 | given the same answers, with nothing to strip and a complete first page, the directory listing and the flat listing print the same lines; their first requests differ in delimiter (`/` against none), so in general the service answers them differently |
| Listing.CompleteFirstPageIsLast | fds/fds_cmd.py:301-302 | a page that is not truncated ends the directory listing |
| Listing.DirectoryLineRestores | fds/fds_cmd.py:297-298 | a printed object line under the path prefix, with the prefix put back in front, is the object's name |
| Transfer.Budget | fds/fds_cmd.py:212-214 | the starting budget: `--length` itself when it is not -1, `sys.maxsize` for -1; non-negative exactly when `--length >= -1` |
| Transfer.Head | fds/fds_cmd.py:219-220 | `chunk[0:l]` is a prefix of the chunk: the first `l` bytes, or, for negative `l`, all but the last `-l` |
| Transfer.BudgetSpent | fds/fds_cmd.py:219-223 | once a chunk brings a non-negative budget to zero, exactly the first `budget` bytes of the stream have been written |
| Transfer.BoundedCopy | fds/fds_cmd.py:212-230 | for a non-negative budget, writes the first `min(budget, total)` bytes of the stream; stops at the first chunk that exhausts the budget; a budget below zero writes the first chunk minus its last bytes and stops |
| Transfer.GetObject | fds/fds_cmd.py:206-230 | writes to the `-d` file or to standard output; `--length n >= 0` writes the first `min(n, total)` bytes; `-1` writes the whole stream when it fits `sys.maxsize`; below -1, the first chunk minus its last `-n` bytes |
| Transfer.ReadsBeforeEof | fds/fds_cmd.py:169-172 | counts the reads before the first empty one: all of them deliver bytes, and the next one, if any, is empty |
| Transfer.UploadParts | fds/fds_cmd.py:166-181 | one part per non-empty read before end of input; part `i` is numbered `i` and carries exactly read `i`'s bytes, never stale buffer bytes; the parts concatenate to the input read |
| Transfer.PutObject | fds/fds_cmd.py:150-189 | a malformed metadata string raises before any upload; otherwise the file is uploaded whole, or standard input is uploaded as numbered parts, with the parsed metadata |

## Findings

| source | as written | input that shows it | evidently intended | confidence | as-written member | corrected member |
|---|---|---|---|---|---|---|
| fds/fds_cmd.py:87 | `end_point = args.end_point` overwrites the end point chosen at lines 56-64, so a configuration-file `end_point` never takes effect | no flags, and a configuration file `{"end_point": "cnbj1.fds.api.xiaomi.com"}`: the end point stays `None` | the region branch's choice stands, so the file's `end_point` is used when neither `-e` nor `-r` is given. The usage text lists `end_point` as an optional configuration key | high; not executed | Config.ParseArgument (shown by Config.FileEndPointIgnoredExample) | Config.ParseArgumentIntended (proved by Config.IntendedEndPointFromFile) |

## Left out

- Argument parsing, help text, the usage printout and the command dispatch in `main` (lines 326-583). These are declarative wiring that selects which modelled operation runs.
- `read_local_config` and JSON decoding. The configuration file is given as a map from keys to strings. Values that are not strings are not modelled. The case where the file is missing and no logger is set is not modelled either: `return {}` sits under the logger test, so that path goes on to open the missing file.
- The flags that `parse_argument` copies unchanged into globals (method, object, CDN, HTTPS, list flags, data file, start mark, metadata, length, offset). The modelled operations take these as parameters instead.
- Logging, `print_config`, `sys.stdout.flush`, and `print(length)` for each uploaded part. These are diagnostics only.
- The storage SDK itself:
  - The client, the configuration class, the object-metadata class and the upload-part-result list.
  - The metadata object is modelled as the ordered pairs handed to `add_user_metadata` and `add_header`. How the SDK stores repeated keys is not shown.
  - The user-metadata prefix is a parameter.
  - An `upload_part` result is modelled by the part it was sent.
  - The upload id and the JSON of the part list are not modelled.
- `list_next_batch_of_objects` receives the whole previous result. Only the marker each follow-up call uses is recorded. A listing whose pages run out while still truncated yields `None`, standing for the source looping on the server's further answers.
- Buckets are reduced to their names.
- Strings are sequences with one character per byte of a Python 2 `str`, so `len`, slicing, `startswith` and `>=` all count and compare bytes. Names the SDK might return as `unicode` are not modelled. For those, `len(path_prefix)` counted in bytes could cut a name wrongly under a non-ASCII prefix.
- The transfer calls to the storage client are not recorded: `get_object` with its `position` (lines 209-211), `init_multipart_upload` (line 163) and `complete_multipart_upload` (line 185). The model keeps only the bytes written, the parts sent and the metadata.
- The `--offset` position is handed to the SDK, which starts the stream there. Closing the stream is not modelled.
- `bucket_name_completer`, `get_bucket_acl`, `post_object`, `put_bucket`, `head_object`, `head_bucket`, `delete_object`, `delete_bucket` and the empty `check_*` functions. These are completion over the network, single SDK calls, or stubs.
- The top-level exception handler and exit codes. Errors are returned as `Result.Err` and not turned into a process status.
- The start mark is an optional value. In Python 2, `name >= None` is true, so a missing start mark filters nothing.
- Listing.ListBuckets: its own contract only bounds the number of lines. What is printed, and in what order, is stated by Listing.ListBucketsMembership and Listing.ListBucketsAppend.
