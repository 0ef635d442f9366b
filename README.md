# ohc-uploader, modelled in Dafny

`ohc-uploader.py` is a one-shot uploader for the OnlineHashCrack v2 API. It
collects the WPA hashes (hashcat mode 22000) found in the `*.hc22000` files of
the working directory, asks the service which hashes the account already has
(`list_tasks`), and uploads the new ones in a single request of at most 50
hashes. When more than 50 are new, it uploads nothing and writes the excess to
`ohc_overflow_hashes.txt` instead. The `-list` flag only lists the tasks.

This project models the logic of that script and proves its properties:

- `sequences.dfy` (module `Sequences`): duplicate-freedom, ordered subsequences, first index.
- `collector.dfy` (module `Collector`): `read_hashes_from_files`. The files are
  given as their lines, in sorted file-name order. Python's `str.strip()` is
  modelled over the characters for which `str.isspace()` holds. `ReadHashes`
  keeps the source's two loops and is proved equal to `CollectedHashes`, the
  functional specification. The lemmas show that the result has no
  duplicates, holds exactly the stripped hash lines, keeps first-occurrence
  order, and is the only list with those three properties.
- `wrappers.dfy` (module `Wrappers`): `Option`.
- `tasks.dfy` (module `Tasks`): `build_existing_hash_set`. The method
  `BuildExistingHashSet` keeps the source's loop and is proved equal to
  `ExistingHashes`.
- `reconcile.dfy` (module `Reconcile`): the filter that gives `new_hashes`,
  the 50-hash gate, and the overflow file text with its read-back in both
  directions.
- `uploader.dfy` (module `Uploader`): `main` and `list_tasks_mode` as one
  decision function `Run`. Its inputs are the configuration, the flag, the
  files, and the replies the service would give. Its output is the exit
  code, the requests sent in order, and the overflow text written.

The configuration checks (empty or placeholder `API_KEY`, `AGREE_TERMS` other
than `"yes"`) run before the `-list` flag is looked at
(ohc-uploader.py:143-152). So list mode also exits 2 on a bad configuration.

## Model

| member | source | states |
|---|---|---|
| `Collector.ReadHashes` | ohc-uploader.py:45-67 | The two loops (collect the stripped hash lines of every file, then keep each hash only at its first occurrence) return exactly `CollectedHashes(files)`; no files give the empty list |
| `Collector.Strip` | ohc-uploader.py:54 | `line.strip()`: the result is a slice of the line that neither starts nor ends with whitespace, and everything cut from either end is whitespace |
| `Collector.HashesInFileMembers` | ohc-uploader.py:53-57 | A value is one of a file's hashes exactly when it is the stripped form of one of its non-blank, non-comment lines |
| `Collector.AllHashesMembers` | ohc-uploader.py:50-57 | A value is in `all_hashes` exactly when it is the stripped form of a hash line of some file |
| `Collector.AllHashesHaveNoNewline` | ohc-uploader.py:53-54 | When each line has a newline only as its last character, as line iteration gives, no collected hash contains a newline |
| `Collector.DedupElements` | ohc-uploader.py:59-65 | De-duplication keeps exactly the same set of values |
| `Collector.DedupNoDuplicates` | ohc-uploader.py:59-65 | The de-duplicated list has no value twice |
| `Collector.DedupSubsequence` | ohc-uploader.py:59-65 | The de-duplicated list is an order-preserving subsequence of its input |
| `Collector.DedupFirstOccurrenceOrder` | ohc-uploader.py:59-65 | Of two de-duplicated hashes, the earlier one first occurs earlier in the input |
| `Collector.DedupUnique` | ohc-uploader.py:59-65 | Any duplicate-free list with the input's values, ordered by first occurrence, equals the de-duplicated list: the three properties above characterise it |
| `Collector.DedupOfDistinct` | ohc-uploader.py:59-65 | De-duplicating a list without duplicates returns it unchanged |
| `Collector.CollectedHashesSpec` | ohc-uploader.py:45-67 | The collected hashes are duplicate-free, never empty or `#`-prefixed, exactly the stripped hash lines of the files, in first-occurrence order across the files in sorted order, and a subsequence of their concatenation |
| `Collector.CollectedEmptyIff` | ohc-uploader.py:46-57 | The collector returns nothing exactly when no file has a hash line (no files, or only blank and comment lines) |
| `Collector.CollectIsIdempotent` | ohc-uploader.py:45-67 | Collecting again from the collected list, given as the lines of one file, gives the same list: every collected hash is already its own stripped form, passes the blank and `#` filter, and occurs once |
| `Collector.StripIsIdempotent` | ohc-uploader.py:54 | Stripping an already stripped line leaves it unchanged |
| `Collector.HashesInFile` | ohc-uploader.py:53-57 | The stripped hash lines of one file, in line order. It has no contract of its own: `HashesInFileMembers` states its members, and `HashesInFileOfStripped` states that a file of already stripped hash lines yields exactly those lines |
| `Collector.HashesInFileOfStripped` | ohc-uploader.py:53-57 | A file whose lines are all stripped hash lines yields exactly its lines |
| `Collector.AllHashes` | ohc-uploader.py:50-57 | `all_hashes`, the concatenation of every file's hash lines in file order. It has no contract of its own: `AllHashesMembers` and `AllHashesHaveNoNewline` state its meaning, and `ReadHashes`'s first loop is proved equal to it |
| `Collector.Dedup` | ohc-uploader.py:59-65 | The `seen`/`deduped` loop as a function. It has no contract of its own: `DedupElements`, `DedupNoDuplicates`, `DedupSubsequence` and `DedupFirstOccurrenceOrder` state its meaning, `DedupUnique` shows they determine it, and `ReadHashes`'s second loop is proved equal to it |
| `Tasks.HashesOfTasks` | ohc-uploader.py:108-112 | A hash is in the set exactly when some task entry carries it as a non-empty `hash` |
| `Tasks.ExistingHashes` | ohc-uploader.py:107-113 | A missing `tasks` field gives the empty set; otherwise the set holds exactly the truthy `hash` fields of the entries, and entries without a hash are ignored |
| `Tasks.BuildExistingHashSet` | ohc-uploader.py:103-113 | The loop that adds each truthy `hash` returns exactly `ExistingHashes(tasks)` |
| `Reconcile.NewHashes` | ohc-uploader.py:179 | `new_hashes` is an order-preserving subsequence of the local hashes and holds exactly the local hashes not already on the account |
| `Reconcile.NewHashesLength` | ohc-uploader.py:179 | There are never more new hashes than local ones |
| `Reconcile.NewHashesNoDuplicates` | ohc-uploader.py:179 | Filtering a duplicate-free list leaves it duplicate-free |
| `Reconcile.SkippedCount` | ohc-uploader.py:180 | `skipped` equals the number of distinct local hashes already on the account |
| `Reconcile.SubmissionGate` | ohc-uploader.py:189-191 | Everything is submitted exactly when there are at most 50 new hashes; otherwise the overflow is what follows the first 50, of length `len - 50`, and is not empty |
| `Reconcile.GateAtCap` | ohc-uploader.py:190 | With exactly 50 new hashes all 50 go in one request |
| `Reconcile.GateOneOverCap` | ohc-uploader.py:190-191 | With 51 new hashes nothing is submitted and the overflow is the 51st hash alone |
| `Reconcile.JoinLines` | ohc-uploader.py:194 | `"\n".join(xs)`. It has no contract of its own: `SplitJoin` and `JoinSplit` state that splitting on newlines undoes it and that it undoes splitting |
| `Reconcile.OverflowText` | ohc-uploader.py:194 | The overflow file text, `"\n".join(overflow) + "\n"`. It has no contract of its own: `OverflowRoundTrip` and `OverflowTextOfParse` state its read-back in both directions |
| `Reconcile.JoinSplit` | ohc-uploader.py:194 | Joining the newline-split pieces of any text gives the text back |
| `Reconcile.SplitJoin` | ohc-uploader.py:194 | Splitting the overflow text on newlines gives the overflow hashes followed by one empty piece |
| `Reconcile.OverflowRoundTrip` | ohc-uploader.py:194 | Reading back `"\n".join(overflow) + "\n"` gives `overflow` exactly, for a non-empty list of newline-free hashes |
| `Reconcile.OverflowTextOfParse` | ohc-uploader.py:194 | In the other direction, any newline-terminated text is the overflow text of what is read back from it |
| `Uploader.ExitForReply` | ohc-uploader.py:118-131 | A reply gives exit 4 exactly on a network error, 3 exactly on an HTTP status of 400 or more or a false `success`, and 0 exactly when the reply succeeded. The same rule gives the exit code of the upload reply, at ohc-uploader.py:214-226 |
| `Uploader.KeyConfigured` | ohc-uploader.py:143 | The key check: non-empty, and its stripped form does not start with `sk_XXX`. It has no contract of its own: `PlaceholderKeyRefused`, `PaddedPlaceholderRefused` and `OtherKeysAccepted` pin it down on examples, and `Run` states that failing it exits 2 |
| `Uploader.PlaceholderKeyRefused` | ohc-uploader.py:143-145 | The empty key and the shipped placeholder `sk_XXXXXX` fail the key check |
| `Uploader.PaddedPlaceholderRefused` | ohc-uploader.py:143-145 | The placeholder with surrounding whitespace fails the key check too, because the key is stripped before the prefix test |
| `Uploader.OtherKeysAccepted` | ohc-uploader.py:143 | A real-looking key passes the key check, and so does a key of whitespace only, which is non-empty and strips to a text without the placeholder prefix |
| `Uploader.ConfigValid` | ohc-uploader.py:143-149 | Both configuration checks: the key check and `AGREE_TERMS == "yes"`. It has no contract of its own: `Run` states that the run exits 2, sending and writing nothing, exactly when it fails |
| `Uploader.ListTasksMode` | ohc-uploader.py:116-131 | `list_tasks_mode`. It has no contract of its own: `ListModeOutcome` states its one request, no file, and exit 4, 3 or 0 by the reply |
| `Uploader.UploadStep` | ohc-uploader.py:204-226 | The upload request and its exit code. It has no contract of its own: `SubmitOutcome` states the request it sends and the exit code, and `UploadOnlyAfterSuccessfulListing` states when it is reached |
| `Uploader.Run` | ohc-uploader.py:143-226 | Every run that parses its arguments and does not crash exits with 0 to 4. It exits 2 exactly on a bad key or terms value, and then sends and writes nothing. It exits 1 exactly when it writes the overflow file. It sends at most two requests: the first is always the list request, and a second one is the upload of the new hashes, sent only in normal mode |
| `Uploader.NormalMode` | ohc-uploader.py:154-226 | A normal run exits 0, 1, 3 or 4, never 2. It writes the overflow file exactly when it exits 1. Any request it sends starts with the list request, and a second request is the upload of the collected hashes not on the account |
| `Uploader.AfterListing` | ohc-uploader.py:177-226 | After a successful listing the run exits 0, 1, 3 or 4. It writes the overflow file exactly when it exits 1. Its first request is the list request, and a second request, if any, is the upload of the new hashes with the key, the terms value and mode 22000 |
| `Uploader.ListModeOutcome` | ohc-uploader.py:116-131 | With a valid configuration, list mode sends the one list request, writes nothing, and exits 4, 3 or 0 for a network error, a failed reply or a successful one |
| `Uploader.NoLocalHashesExit` | ohc-uploader.py:155-158 | No hash line in any file (in particular no files): exit 0, no request, no overflow file |
| `Uploader.ListingFailureStops` | ohc-uploader.py:164-175 | A failed listing ends a normal run after the list request alone: exit 4 on a network error, 3 on a bad status or false `success`, no upload |
| `Uploader.NothingNewExit` | ohc-uploader.py:185-187 | When every local hash is already on the account, the run exits 0 after the listing, uploads nothing and writes nothing |
| `Uploader.OverflowOutcome` | ohc-uploader.py:189-202 | More than 50 new hashes: exit 1 and no upload. The overflow file holds `new_hashes[50:]` (length `len - 50`) and reads back to exactly that list |
| `Uploader.SubmitOutcome` | ohc-uploader.py:204-226 | 1 to 50 new hashes: exactly one upload after the listing, carrying key, terms, mode 22000 and all new hashes in order. No overflow file. The exit code follows the upload reply, so a timeout gives 4 |
| `Uploader.UploadOnlyAfterSuccessfulListing` | ohc-uploader.py:164-215 | Any upload is the second and last request and follows a successful listing in normal mode with a valid configuration. It carries 1 to 50 distinct collected hashes in collection order, none of them already on the account |
| `Uploader.ReconcilePartition` | ohc-uploader.py:177-180 | Each collected hash is either new or already on the account, never both. The new hashes are distinct, in collection order, and their count falls short of the local count by the number already on the account |

## Left out

- File discovery and reading (`glob.glob`, `sorted`, `open` with `errors="ignore"`): the files come in as already-read line sequences in sorted order.
- Collector.Strip: uses the character set of Python's `str.isspace()` (U+0009-U+000D, U+001C-U+001F, U+0020, U+0085, U+00A0, U+1680, U+2000-U+200A, U+2028, U+2029, U+202F, U+205F, U+3000). This list is written from Python's documented behaviour, not derived from its Unicode tables.
- `ohc_post`, `requests.post`, the 30 s and 60 s timeouts, the endpoint URL and JSON decoding with the `text[:4000]` fallback: a reply is given as the abstract `Response`. A body that is not JSON is a reply whose `success` is false. `_http_status` is always set, so its default of 0 is never used.
- The truthiness of `success` and `hash` for non-boolean or non-string JSON values: `success` is a boolean, and `hash` is an optional string that counts when it is non-empty.
- The `action: "list_tasks"` payload field and the `Content-Type` header: the list request is the `ListTasks` constructor.
- `argparse` and every `print`, including the response dumps and the choice of error message (`message`, `text`, "Unknown error"): the flag is a boolean input, and output to the terminal is not modelled. `parse_args()` (line 141) can end the script before the configuration checks: `-h` exits 0, and an unrecognised argument is a usage error that exits 2. Neither exit is modelled, so the model's exit 2 means a bad configuration only.
- Writing `ohc_overflow_hashes.txt`: only the text written is modelled.
- The configuration constants `API_KEY` and `AGREE_TERMS` are inputs rather than the script's constants. With the shipped placeholder key `sk_XXXXXX`, every run that gets past argument parsing exits 2 (`-h` exits 0 from `argparse` first).
- Replies are assumed to be JSON objects whose `tasks` field, when present and truthy, is a list of objects with hashable `hash` values. The script crashes with an uncaught exception, and Python exits 1 without an overflow file, when a reply is JSON but not an object (line 86), when a truthy `tasks` is not a list or an entry is not an object (109-110), when a `hash` is unhashable (112), when an input file cannot be opened or read (52), or when writing the overflow file fails (193). These crash paths are not modelled, so `Run`'s "exit 1 exactly when the overflow file is written" holds only for runs that do not crash.
