# Dataset download script: a verified model

`download_datasets.py` is an interactive script. It reads a manifest of named
datasets, asks which to fetch, and downloads each one from Google Drive
through the `gdown` helper, trying a fixed number of times. This project
models the three decision rules inside that script and proves their
properties. Terminal, network and file system are replaced by inputs:

- **Selection** (`Selector`, lines 87-104). The first prompt's line is
  stripped. `"1"` selects the whole manifest; `"2"` reads a second line;
  anything else exits. The second line is stripped and split on `,`. Every
  token becomes `int(token.strip()) - 1`, and all tokens are converted before
  any is used. Indices `>= len(datasets)` are dropped. The rest are
  subscripted with Python's negative indexing, in the order typed. The step
  has three outcomes: proceed with a list of entries, exit, or raise. It can
  raise `ValueError` or `IndexError`; neither is caught, so either ends the
  run.
- **Retry controller** (`Retry.DownloadWithGdown`, lines 27-55). A loop over
  attempts `0 .. retries-1`. Attempt `k` is a value `world(k)`: either the
  transfer raised, or it returned and the file was then found, with some size,
  or not found. The loop returns `True` at the first attempt that leaves a
  non-empty file. After every failure except the last it takes one backoff
  pause. It returns `False` when the attempts run out, and at once when
  `retries <= 0`.
- **Download loop and summary** (`Orchestrator`, lines 110-145). The loop
  walks the selected entries in order. `env(i)` answers, for the `i`-th entry,
  whether `data/<name>` exists, what is typed at the overwrite prompt, and what
  each download attempt observes. It appends a name to the success list only
  when the retry controller returns `True`. `RunSession` joins the selection,
  the loop and the choice between the summary's two branches.

`PyStr` holds the Python built-ins these rules use: `strip`, `lower`,
`split`, `int` and (as `int`'s inverse) `str`. The properties of those are
proved there: split/join round trips, the exact effect of `strip`, and
`int(str(n)) == n`.

Three consequences of the script's selection code:

- Entries are processed in the order typed, and duplicates are kept
  (`Selector.TypedOrderAndDuplicates`, `Selector.ChooseSpecific`).
- Only numbers above `len` are dropped. `0` and numbers down to `1 - len`
  select from the end (`0` picks the last entry). Numbers at or below `-len`
  raise `IndexError` (`Selector.ChooseSingle`, `Selector.ZeroSelectsLast`).
- A malformed number raises an uncaught `ValueError`. It is raised even when
  another token would have raised `IndexError`
  (`Selector.ChooseSpecificMalformed`).

## Model

| member | source | states |
|---|---|---|
| `PyStr.Strip` | download_datasets.py:87 | `str.strip()` (also lines 99, 100 and 121); its contract is stated by `StripShape`, `StripPadded` and `StripIdempotent` |
| `PyStr.TrimLeftShape` | download_datasets.py:87 | the left part of `strip()` keeps a suffix, removes only whitespace, and leaves no whitespace in front |
| `PyStr.TrimRightShape` | download_datasets.py:87 | the right part of `strip()` keeps a prefix, removes only whitespace, and leaves no whitespace at the end |
| `PyStr.StripShape` | download_datasets.py:87 | `strip()` keeps a contiguous slice, removes only whitespace on either side, and leaves none at either end |
| `PyStr.StripPadded` | download_datasets.py:99 | text with no whitespace at its ends, padded with any whitespace, strips back to exactly that text |
| `PyStr.StripIdempotent` | download_datasets.py:100 | stripping twice gives what stripping once gives |
| `PyStr.Lower` | download_datasets.py:121 | `lower()` keeps the length and maps each capital A-Z to its small letter, leaving every other character as it is |
| `PyStr.Split` | download_datasets.py:100 | `split(',')` always yields at least one piece, and no piece contains a comma |
| `PyStr.JoinSplit` | download_datasets.py:100 | joining the pieces of a split with the separator gives back the original string |
| `PyStr.SplitJoin` | download_datasets.py:100 | splitting a join of comma-free pieces gives back exactly those pieces |
| `PyStr.SplitLength` | download_datasets.py:100 | a split yields one more piece than the string has separators (so an empty answer still gives one token) |
| `PyStr.IntLiteral` | download_datasets.py:100 | the literal `int()` reads after its own stripping: an optional sign and a digit run; its contract is stated by `ParseDigitRun`, `ParseNegatedDigitRun` and `ParseFormat` |
| `PyStr.ParseInt` | download_datasets.py:100 | `int(s)`, which strips only the whitespace it skips and then reads `IntLiteral`; see `ParseFormat`, `IntKeepsFileSeparator` and `Selector.TokenNumberIsInt` |
| `PyStr.IntKeepsFileSeparator` | download_datasets.py:100 | `int()` does not skip U+001C although `strip()` removes it, so `int` of that character followed by `5` raises `ValueError` |
| `PyStr.ParseDigitRun` | download_datasets.py:100 | `int()` accepts a run of decimal digits (with single underscores between digits) and returns its value |
| `PyStr.ParseNegatedDigitRun` | download_datasets.py:100 | `int()` accepts a `-` followed by a digit run, and returns the negated value |
| `PyStr.ParseFormat` | download_datasets.py:100 | `int(str(n)) == n` for every integer, negative ones included |
| `Selector.Tokens` | download_datasets.py:99-100 | the tokens of the second answer, `selections.strip().split(',')`; see `PyStr.Split`, `PyStr.SplitLength` and `Selector.EmptySelectionRaises` |
| `Selector.FirstMalformed` | download_datasets.py:100 | the position of the first token `int()` refuses: all earlier tokens convert, and the one there does not |
| `Selector.TokenNumber` | download_datasets.py:100 | `int(idx.strip())` for one token; `TokenNumberIsInt` states that it is `int()` applied to the stripped token |
| `Selector.TokenNumberIsInt` | download_datasets.py:100 | converting a stripped token is exactly `int()` applied to it: `int()`'s own, narrower stripping finds nothing left to remove |
| `Selector.TokenIndices` | download_datasets.py:100 | the list comprehension converting every token; its contract is stated by `TokenIndicesOutcome` |
| `Selector.TokenIndicesOutcome` | download_datasets.py:100 | the conversion succeeds exactly when every token converts, giving one index per token, `int(token.strip()) - 1`, in token order; otherwise it raises `ValueError` for the first refused token |
| `Selector.PyGet` | download_datasets.py:101 | Python subscripting with negative indices yields an element of the list |
| `Selector.Pick` | download_datasets.py:101 | the filtered subscripting comprehension; its contract is stated by `PickOutcome`, `PickFilterThenSubscript`, `PickInRange` and `PickDropsPastEnd` |
| `Selector.PickOutcome` | download_datasets.py:101 | succeeds exactly when no index that passes the `i < len` filter is below `-len`; the result has no more entries than there are indices, all from the manifest; a failure is an `IndexError` for an index, from the list, below `-len` |
| `Selector.Below` | download_datasets.py:101 | the `if i < len(...)` filter alone: no longer than the input, every kept index below the bound and from the list; completeness and order are stated by `BelowMultiset` and `BelowConcat` |
| `Selector.BelowMultiset` | download_datasets.py:101 | every index below the bound is kept exactly as often as it occurs in the list, and no index at or above it is kept |
| `Selector.BelowConcat` | download_datasets.py:101 | filtering a concatenation is the concatenation of the filtered parts, so the kept indices stay in the order given |
| `Selector.PickFilterThenSubscript` | download_datasets.py:101 | when no index passing the filter is below `-len`, the comprehension equals the filter followed by one Python subscript per kept index, in order, duplicates kept |
| `Selector.PickInRange` | download_datasets.py:101 | with every index in `-len .. len-1`, the result has one entry per index, the subscripted entry at each position (order and duplicates kept) |
| `Selector.PickDropsPastEnd` | download_datasets.py:101 | an index `>= len` anywhere in the list leaves the result as if it were absent |
| `Selector.Resolve` | download_datasets.py:87-104 | the whole selection step; its contract is stated by `ChooseAll`, `ChooseOther`, `ChooseSpecific`, `ChooseSpecificInRange`, `ChooseSpecificMalformed` and `ChooseSingle` |
| `Selector.ChooseAll` | download_datasets.py:91-92 | choice `"1"` (after strip) selects the whole manifest in manifest order |
| `Selector.ChooseOther` | download_datasets.py:102-104 | the run exits with nothing selected exactly when the stripped choice is neither `"1"` nor `"2"` |
| `Selector.ChooseSpecific` | download_datasets.py:98-101 | with choice `"2"` and every token converting: the run proceeds exactly when no index passing the `< len` filter is below `-len`, and then selects the subscripted entries of the filtered indices, in typed order, duplicates kept; otherwise it raises `IndexError` for a typed index below `-len` |
| `Selector.ConvertedTokens` | download_datasets.py:100 | when each token reads as the corresponding given number, the conversion succeeds with those numbers minus one, in order |
| `Selector.ChooseSpecificInRange` | download_datasets.py:99-101 | with choice `"2"` and tokens that read as numbers all in `1..len`, the selection is `manifest[k-1]` for each typed `k`, in typed order, duplicates kept |
| `Selector.ChooseSpecificMalformed` | download_datasets.py:100 | if token `j` is not an integer, the run raises `ValueError` for the first refused token, which is at or before `j`, whatever the other tokens are |
| `Selector.ChooseSingle` | download_datasets.py:100-101 | a single typed number `k`: nothing selected if `k > len`; `IndexError` if `k - 1 < -len`; otherwise the Python element `manifest[k-1]` |
| `Selector.ZeroSelectsLast` | download_datasets.py:100-101 | typing `"0"` on a non-empty manifest selects exactly the last dataset |
| `Selector.TypedOrderAndDuplicates` | download_datasets.py:100-101 | `"3,1,1"` on a manifest of at least three entries selects the third, first and first entries, in that order |
| `Selector.EmptySelectionRaises` | download_datasets.py:99-100 | an empty or all-whitespace second answer raises `ValueError` for the empty literal |
| `Retry.Succeeded` | download_datasets.py:41 | an attempt succeeds when the transfer returned and the file then exists with a size above zero; the ensures of `DownloadWithGdown` state that success is the first such attempt among the first `retries` |
| `Retry.DownloadWithGdown` | download_datasets.py:27-55 | returns `True` iff some attempt among the first `retries` leaves a non-empty file; it stops at the first such attempt; never makes more than `retries` attempts (none when `retries <= 0`); makes all of them when it fails; pauses exactly once fewer than it attempts, so it never pauses after the last attempt |
| `Retry.FirstSuccessDecides` | download_datasets.py:31-44 | if attempt `k` is the first that would succeed, the download succeeds exactly when `k < retries` |
| `Orchestrator.ConfirmsOverwrite` | download_datasets.py:121-122 | `answer.strip().lower() == 'y'`; its contract is stated by `ConfirmsOverwriteIff` |
| `Orchestrator.Skipped` | download_datasets.py:120-124 | an entry is skipped when its file exists and the overwrite is not confirmed; `DownloadAll` and `SuccessfulNamesSubsequence` state that skipped entries never reach the success list |
| `Orchestrator.ConfirmsOverwriteIff` | download_datasets.py:121-122 | the overwrite is confirmed exactly when the stripped answer is `"y"` or `"Y"` |
| `Orchestrator.DownloadedPositionsSpec` | download_datasets.py:110-130 | the recorded positions are exactly those below `n` whose entry was not skipped and whose download succeeded, in increasing order |
| `Orchestrator.SuccessfulNamesAt` | download_datasets.py:110-130 | the success list holds, position by position, the names of the entries at the recorded positions |
| `Orchestrator.SuccessfulNamesSubsequence` | download_datasets.py:110-130 | the success list names exactly the entries that were not skipped and whose download returned `True`, at strictly increasing positions of the processing order |
| `Orchestrator.NothingDownloadedIff` | download_datasets.py:137-145 | the success list is empty exactly when every selected entry was skipped or failed |
| `Orchestrator.DownloadAll` | download_datasets.py:110-130 | the loop's list equals the specification `SuccessfulNames` of the whole selection: skipped entries never appear, and a name is appended only after a successful retrying download with the default `retries=3` (`Retry.DefaultRetries`, lines 27 and 127) |
| `Orchestrator.Summarize` | download_datasets.py:137-145 | the summary branch; `RunSession` states that "No files were downloaded." is chosen exactly when every selected entry was skipped or failed |
| `Orchestrator.RunSession` | download_datasets.py:87-145 | exits, crashes with the selection's exception, or finishes with the success list of the resolved selection; the "No files were downloaded." branch is taken exactly when every selected entry was skipped or failed |

## Left out

- `install_gdown` (lines 17-25) is not modelled. It runs pip in a subprocess and imports a module at run time, which is environment I/O.
- The Drive URL built from `file_id` and the `gdown.download` transfer (lines 34-38) are not modelled. Each attempt is an observed outcome instead.
- Reading `dataset_metadata.json`, the missing-file exit, and `os.makedirs('data')` (lines 63-73) are not modelled. The manifest is a given sequence of records. Missing or mistyped JSON keys (`KeyError`, `TypeError`) are not modelled either.
- `os.path.exists` and `os.path.getsize` are observations supplied per processing step. The model therefore does not link a duplicate entry's second pass to the file written on its first pass.
- The size in GB computed and printed on line 42 is display-only floating point and is not modelled.
- `time.sleep(5)` is modelled as a pause count only, without any time.
- Printed text is not modelled, apart from which summary branch is taken. This includes the banner, the listings, the progress messages and the fallback instructions (lines 147-149).
- `input()` is not modelled: the lines typed at the prompts are inputs.
- Exceptions that are not subclasses of `Exception` (such as `KeyboardInterrupt`) are not modelled. Those pass through the retry loop's handler.
- `PyStr.Lower` covers ASCII capitals only. The one use compares the result with `"y"`, and no other character lowercases to `"y"`, so that comparison is exact.
- `PyStr.ParseInt` accepts ASCII digits only. Python's `int()` also accepts other Unicode decimal digits and enforces a digit-count limit in recent versions. Neither is modelled.
