# Twitch stream monitor — a Dafny model of its data logic

`check.py` is a terminal dashboard that polls the Twitch Helix API and shows
which of a configured list of streamers are live. This project models the
parts of the script that decide *what* is shown:

- the streamer list, cleaned from the comma-separated `TWITCH_STREAMER_NAMES`
  value;
- `validate_config`;
- the status snapshot built by `check_multiple_streamers`;
- the data decisions in `display_status`: the live/offline split, the
  summary counts, title and game truncation, `format_viewer_count`, and the
  three-column layout of offline names;
- the seconds the countdown in `main` goes through.

The snapshot works like this. Live records are indexed by their lower-cased
login, and a later record overwrites an earlier one. Every configured name
then gets its status in a dict keyed by the name *as configured*.

Modules, in dependency order:

| module | file | what it holds |
|---|---|---|
| `Results` | `results.dfy` | `Option`, `Result` and `Outcome`, for values that may be missing and operations that may raise |
| `Text` | `text.dfy` | the Python string operations the script uses: `lower()`/`upper()` on ASCII, `isspace()`, `strip()`, `split(",")` with its inverse `join`, and `str()` of an integer |
| `Config` | `config.dfy` | name cleanup, the settings record, `validate_config` |
| `OrderedDict` | `ordered_dict.dfy` | a Python `dict` as its entries in insertion order, and `d[k] = v` |
| `Streams` | `streams.dfy` | stream records, the live index, the status snapshot, the 200 / non-200 branch |
| `Dashboard` | `dashboard.dfy` | partition and counts, truncation, viewer counts, live cards, offline rows, countdown |
| `Examples` | `examples.dfy` | concrete cases pinned down as lemmas |

Each operation has a partner lemma or contract that ties it to an
independent description:

- `split` is tied to `join`, in both directions;
- `str()` of a number is tied to its decimal value;
- the cleanup is tied to membership and emptiness facts about the raw value;
- the snapshot is tied to the records that match each name;
- the row layout is tied to the `range(0, n, 3)` slices.

## Model

| member | source | states |
|---|---|---|
| Text.Strip | check.py:16 | `name.strip()` is `name` with a run of whitespace removed from each end. The result neither starts nor ends with whitespace, and it is empty exactly when `name` is all whitespace. |
| Text.StripKeepsOut | check.py:16 | stripping never introduces a character that was not in the input |
| Text.Split | check.py:13 | `split(",")` always yields at least one piece, and no piece contains a comma |
| Text.JoinSplit | check.py:13 | joining the pieces of `split(sep)` with `sep` gives back the original string, so nothing is lost |
| Text.SplitJoin | check.py:13 | splitting the join of separator-free pieces gives back exactly those pieces |
| Text.DecimalOfNatToDecimal | check.py:113 | the decimal text of a natural number reads back as that number |
| Text.NatToDecimalOfDecimal | check.py:113 | every canonical numeral (no leading zero) is the decimal text of its own value |
| Text.IntToString | check.py:113 | `str(count)` is an integer literal whose value is `count`, negative counts included |
| Text.Lower | check.py:88 | `lower()` keeps the length and leaves no capital letter: each capital becomes its lower-case partner and every other character is kept |
| Text.Upper | check.py:145 | `upper()` keeps the length and leaves no lower-case letter: each becomes its capital and every other character is kept |
| Text.LowerOfUpper | check.py:145 | the upper-cased heading of a card compares case-insensitively equal to the configured name |
| Config.CleanEntries | check.py:16 | every kept name is non-empty and has no surrounding whitespace, and there are no more names than pieces |
| Config.CleanEntriesAppend | check.py:16 | cleanup keeps the pieces' order: cleaning a concatenation is the concatenation of the cleaned parts |
| Config.CleanEntriesMembers | check.py:16 | a string is among the names exactly when it is the non-empty strip of some piece |
| Config.CleanEntriesKeepOut | check.py:13-16 | a character no piece contains appears in no cleaned name |
| Config.CleanEntriesEmpty | check.py:16 | the cleaned list is empty exactly when every piece is blank |
| Config.SplitAllBlank | check.py:13-16 | every comma-separated piece is blank exactly when the raw value holds only commas and whitespace |
| Config.CleanNames | check.py:13-16 | every configured name is non-empty, trimmed and free of commas |
| Config.CleanNamesEmpty | check.py:13-16 | the streamer list is empty exactly when the raw value holds only commas and whitespace, including when it is empty |
| Config.LoadSettings | check.py:11-19 | The credentials pass through unchanged. A set streamer variable gives exactly `CleanNames` of its value, and an unset one gives no names. An unset interval becomes 60; a set one is kept. |
| Config.ValidateConfig | check.py:45-52 | Passes exactly when both credentials are non-empty and at least one name remains. Otherwise it reports the first missing item in the order id, secret, names; each error is characterised by an if-and-only-if. |
| Config.ValidateLoadedSettings | check.py:45-52 | validation of freshly loaded settings passes exactly when both credentials are non-empty and the raw streamer value holds some character that is neither a comma nor whitespace |
| OrderedDict.Insert | check.py:101-103 | `d[k] = v`: an existing key keeps its position and takes the new value, a new key is appended, every other entry is untouched, and keys stay distinct |
| Streams.LiveIndex | check.py:86-94 | the index's keys are exactly the lower-cased logins of the records, and each key holds the details of the *last* record with that login |
| Streams.StatusOfUpper | check.py:99-103 | the lookup ignores case: the upper-cased name has the same status as the name |
| Streams.StatusOfflineIff | check.py:97-103 | a configured name is offline exactly when no record's login equals it ignoring case |
| Streams.StatusLiveDetails | check.py:86-103 | a matched name carries the title, game, viewer count and start time of the last matching record |
| Streams.StatusMap | check.py:97-105 | each configured name appears exactly once as a key, and each entry holds that name's status |
| Streams.StatusMapOrder | check.py:97-105 | the keys come in the order of each name's first occurrence in the configured list |
| Streams.StatusMapDistinctNames | check.py:97-105 | with no repeated name, the snapshot's keys are the configured list itself, in order |
| Streams.CheckMultipleStreamers | check.py:80-107 | A 200 answer yields a snapshot and any other code yields the error carrying that code. In the snapshot every name appears once under its configured casing, in the order of its first occurrence in the list. It is offline exactly when no login matches it ignoring case, and otherwise holds the last matching record's details. |
| Dashboard.EntriesWhere | check.py:126-127 | the filtered list holds only entries with the requested live flag, holds every such entry of the snapshot, and holds nothing else |
| Dashboard.EntriesWhereAppend | check.py:126-127 | filtering keeps snapshot order: it distributes over concatenation |
| Dashboard.PartitionPermutes | check.py:126-127 | the live and offline lists together are a permutation of the snapshot's entries |
| Dashboard.Summarize | check.py:129-132 | the live figure is the size of the live list and the total is the snapshot size; the offline figure, computed as total minus live, equals the size of the offline list |
| Dashboard.Truncate | check.py:142-143 | A text within the limit is shown unchanged. A longer one is its first `limit` characters plus "...". The shown text starts with the first `limit` characters and has at most max(len(text), limit + 3) characters, so a 56- or 57-character title grows to 58. |
| Dashboard.TruncateFixedPoints | check.py:142-143 | truncation leaves a text alone exactly when it is within the limit or is `limit` characters followed by "..." |
| Dashboard.FormatViewerCount | check.py:109-113 | Below 1000 the count is shown as its integer literal. The result ends in "K" exactly when the count is at least 1000, and then has the form digits "." digit "K" and stands for a value within 50 of the count. |
| Dashboard.LiveCardOf | check.py:140-148 | The heading equals the name ignoring case and has no lower-case letters. The title and game are `Truncate` at 55 and 20 characters: unchanged when within the limit, otherwise the first 55 (or 20) characters plus "...". The viewer figure is the formatted count. |
| Dashboard.Chunks | check.py:158-160 | the rows concatenate back to the list, each row has 1 to `n` elements, and only the last may be short |
| Dashboard.ChunksCount | check.py:159 | the number of rows is the list length divided by `n`, rounded up |
| Dashboard.ChunkSlice | check.py:159-160 | row `i` is exactly the slice `xs[i*n : i*n+n]`, clamped at the end |
| Dashboard.LeftJustify | check.py:161 | `{name:<22}` pads the name on the right with spaces to 22 characters and never cuts it |
| Dashboard.OfflineCell | check.py:161 | a cell is the bullet, then the whole name, then spaces, `4 + max(22, len(name))` characters long in total |
| Dashboard.RowText | check.py:162 | a printed row is as wide as the sum of its cells' widths, `4 + max(22, len(name))` per name |
| Dashboard.RowTextCell | check.py:162 | cell `i` of a row sits in the printed line right after the cells before it |
| Dashboard.RowTextWidth | check.py:161-162 | when every name fits the 22-character field, a row of `k` names is exactly `26 * k` characters wide, so the columns line up |
| Dashboard.OfflineRows | check.py:153-162 | the offline names, in snapshot order, laid out in rows of 1 to 3 names with only the last row short |
| Dashboard.OfflineRowLayout | check.py:159-160 | offline row `i` holds the offline names at positions `3*i` to `3*i + 2` |
| Dashboard.Countdown | check.py:189 | `range(interval, 0, -1)` has `max(interval, 0)` elements, and element `i` is `interval - i` |
| Dashboard.CountdownMembers | check.py:189 | the countdown shows a value exactly when it lies between 1 and the interval |
| Examples.SplitExample | check.py:13 | `" foo ,,bar".split(",")` is `[" foo ", "", "bar"]` |
| Examples.StripPadded | check.py:16 | `" foo ".strip()` is `"foo"` |
| Examples.StripBare | check.py:16 | `"bar".strip()` is `"bar"` |
| Examples.CaseInsensitiveMatch | check.py:86-103 | a record with login "Foo" makes the configured name "foo" live, and the key keeps the configured casing |
| Examples.NobodyLive | check.py:97-105 | with no live records, three distinct configured names are all offline, in configured order |
| Examples.DuplicateNameCollapses | check.py:97-105 | a name configured twice yields one entry, at its first position |
| Examples.LaterRecordWins | check.py:86-103 | of two records whose logins both match the configured name ignoring case, the later one is reported under the configured name |
| Examples.CaseVariantsKept | check.py:97-105 | names that differ only in case keep separate entries |
| Examples.LongTitleCut | check.py:142 | a 56-character title becomes its first 55 characters plus "..." |
| Examples.FullTitleKept | check.py:142 | a 55-character title is shown whole |
| Examples.RequestFails | check.py:106-107 | a 401 answer is reported as the error carrying 401 |
| Examples.ViewerCountExamples | check.py:109-113 | 999 is shown as "999", 1000 as "1.0K" and 12345 as "12.3K" |
| Examples.SevenOfflineNames | check.py:158-160 | seven offline names take three rows |

## Left out

- HTTP: `get_oauth_token` and the request itself are not modelled. The fetch result arrives as a status code and a list of already-decoded records.
- JSON decoding is not modelled.
- Environment lookup: `load_dotenv` and `os.getenv` are outside the model. The values arrive as `Option`s.
- Parsing `CHECK_INTERVAL` with `int()`, and the `ValueError` it raises on bad input, are outside the model. The interval arrives as an optional integer.
- Terminal output is not modelled: `clear_screen`, the ANSI colour codes, the banner and box-drawing lines, and the printing itself.
- The control flow of `main` is not modelled: sleeping, the retry after an exception, and the handlers for `KeyboardInterrupt` and `ValueError`. Only the sequence of seconds the countdown shows is modelled.
- A non-positive interval is not modelled beyond the countdown: that countdown is empty, the next poll follows at once, and after a failed fetch `time.sleep` raises on a negative value.
- The timestamp from `datetime.now()` is a clock reading and is not modelled.
- Text.Lower: `str.lower()` and `str.upper()` are modelled on ASCII letters only. Python's full Unicode case mapping is a table outside the model, so names that match only under non-ASCII case folding are not covered.
- Dashboard.FormatViewerCount: does not model the binary floating-point rounding of `f"{count/1000:.1f}"`. The model rounds halves up; Python rounds the nearest double half-to-even, so 1250 shows as "1.2K" in Python and as "1.3K" here. The contract therefore promises only the `K` suffix, the digits "." digit shape, and a value within 50 viewers of the count. For counts below 2^44 thousand these hold for Python as well. Above 2^44 thousand (about 1.76 × 10^16), `count/1000` as a double is too coarse, and Python's figure can be further off: 10^17 + 51 shows as "100000000000000.0K".
- The API's limit of 100 `user_login` parameters per request is not enforced by the script and not modelled.

Behaviour of the script worth knowing:

- Names are not deduplicated ignoring case: "Foo" and "foo" both become keys (`Examples.CaseVariantsKept`). An exact repeat collapses into one entry at its first position (`Streams.StatusMapOrder`).
- `{name:<22}` pads but never truncates, so a name longer than 22 characters widens its cell (`Dashboard.OfflineCell`).
- The interval's sign is never checked: `Config.LoadSettings` keeps any value.
