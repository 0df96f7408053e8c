# AstroBin header summary, modelled in Dafny

`astrobin_headers_multithread.py` reads a PixInsight WBPP processing log and
finds every frame the log accepted (`[true, "<path>"`). For each frame it reads
the first 50000 bytes of the image header. Frames whose type contains `LIGHT`
are kept. The script then pulls out their date, filter, exposure, gain and
binning, with either the XISF tag patterns or the FITS keyword-record patterns,
and counts the frames per (date, filter, exposure, binning, gain) key. It writes
one CSV row per key in sorted order for AstroBin's acquisition import. Each row
carries the Bortle value the user supplied.

The model follows the script's structure, one module per stage:

- `Text`: Python's `\s`, greedy runs, ASCII case folding, `in`, `str.strip(c)`
  and `str.split(c)[0]`.
- `Patterns`: the `PATTERNS` table as scanners. A pattern is a lead, a key
  alternation and a rest. `Search` is the leftmost match, as `re.search` gives,
  and `ExtractVal` is `extract_val`.
- `Cards`: header records in the layouts the two dialects write. An XISF
  element ends at the quote that closes its value, so `/>` or a `comment`
  attribute may follow; its value is bare or keeps the FITS quotes. A FITS
  record has any run of blanks on each side of its `=`. `Cards` proves that
  the search finds the value of such a record whose key is any synonym of a
  field. This holds for a record at the start of the header, and for a record
  after any header text in which the search finds no earlier match. The patterns only look
  forward, so text in front of a record moves the match and changes nothing
  else.
- `Filters`: `FILTER_MAP` and the `FILTER_MAP.get(raw, FILTER_MAP.get(raw[0], raw))` lookup.
- `Classifier`: `process_single_file`. Its inputs are what reading the file
  gives and the two numeric conversions.
- `Discovery`: `re.findall(r'\[true,\s*\"(.*?)\"', content)` and the `set` that
  removes duplicates.
- `Ordering`: Python's `<` on key tuples, which is `None` where Python raises
  `TypeError`. It also holds a strict total order that agrees with `<`
  wherever `<` is defined, and `sorted`.
- `Aggregation`: the consumer loop over `as_completed`. It is an imperative
  method whose `defaultdict` counter is a `map` and whose `count_processed` is
  a counter. The method is proved against fold functions over the result list.
- `Run`: `process_log`. It is an imperative method that returns one of the
  five ways a run can end: file not found, log unreadable, no candidates, CSV
  write failed, or saved rows. Whether opening the CSV and writing its header
  and rows succeed is one flag, `canWrite`. It is proved equal to a one-expression summary.
  Lemmas about that summary cover the saved rows, the independence from
  completion order and the failure cases.

In two places a looser reading of the script is possible, and the model
follows the code:

- `extract_val` takes the first group that took part in the match. If that
  group is empty, the result is `None`. It does not fall back to a later
  group. The two readings agree for these patterns, because only one group of
  the FITS alternation ever takes part.
- Latin-1 decoding maps every byte to the character with the same code, so no
  byte of the header is ever dropped.

## Model

| member | source | states |
|---|---|---|
| Filters.FilterMap | astrobin_headers_multithread.py:13-21 | the constant `FILTER_MAP`; it has no contract of its own, and `KeysAreLetters` and `KnownNames` state its content |
| Filters.NormalizeFilter | astrobin_headers_multithread.py:198 | a mapped filter is one of the table's AstroBin ids; an unmapped name comes back unchanged |
| Filters.KeysAreLetters | astrobin_headers_multithread.py:13-21 | every key of `FILTER_MAP` is a single upper-case letter |
| Filters.FirstLetterDecides | astrobin_headers_multithread.py:198 | the id is the first letter's id when the table has it, else the raw name, so the exact-name lookup never decides anything the first letter does not |
| Filters.SameLetterSameId | astrobin_headers_multithread.py:198 | for a name whose first letter is mapped, two names get the same id exactly when their first letters are equal |
| Filters.KnownNames | astrobin_headers_multithread.py:13-21 | R gives 28943, Ha 4410, OIII 4415, SII 4420 and Lum 25576; `Unknown` and lower-case `r` stay raw |
| Patterns.Synonyms | astrobin_headers_multithread.py:27-40 | the key alternation of each field, in the order the patterns try them; no contract of its own, `SynonymsWellFormed` states that the keys are distinct upper-case words |
| Patterns.SynonymsWellFormed | astrobin_headers_multithread.py:27-40 | every synonym list is made of distinct non-empty words of upper-case letters and `-` |
| Patterns.FieldPattern | astrobin_headers_multithread.py:25-42 | `PATTERNS[dialect][field]`; no contract of its own, the `Cards` lemmas state what each pattern finds |
| Patterns.MatchAt | astrobin_headers_multithread.py:25-42 | the pattern tried at one position: a match starts there and ends inside the text |
| Patterns.Search | astrobin_headers_multithread.py:167 | `pattern.search`: the match found is the pattern's match at its start, no earlier position matches, and no match means no position matches |
| Patterns.ExtractVal | astrobin_headers_multithread.py:136-145 | no match, or an empty first participating group, gives `None`; otherwise the result is that group with `'` and then `"` stripped from both ends, so it neither starts nor ends with `"` |
| Patterns.Lookup | astrobin_headers_multithread.py:167-194 | `extract_val(patterns[field].search(header_text))`; no contract of its own, stated by `LookupPast` and the `Cards` lemmas |
| Patterns.MatchShift | astrobin_headers_multithread.py:25-42 | text in front moves a match by its length and changes nothing else: no pattern looks behind |
| Patterns.SearchPast | astrobin_headers_multithread.py:167 | when no match starts inside the text in front, the search finds what it finds without it, moved |
| Patterns.LookupPast | astrobin_headers_multithread.py:167-194 | the value found past text where no match starts is the value found without that text |
| Patterns.XisfNoOpen | astrobin_headers_multithread.py:27-32 | no XISF element match starts in text without a `<` |
| Patterns.ExtractFirstGroup | astrobin_headers_multithread.py:142-144 | a value in the first group without quotes at either end is returned unchanged |
| Patterns.ExtractQuotedGroup | astrobin_headers_multithread.py:142-144 | a first group that keeps the FITS quotes, `'v'`, gives `v` once `'` is stripped |
| Patterns.ExtractSecondGroup | astrobin_headers_multithread.py:142-144 | when the first group did not take part, a value in the second group without quotes at either end is returned unchanged |
| Patterns.VerbatimMatch | astrobin_headers_multithread.py:25-42 | a key of the synonym list, written where the record's lead ends and followed by the rest of the shape, is what the search finds first |
| Cards.XisfCardFound | astrobin_headers_multithread.py:27-32 | the XISF search finds `v` in `<FITSKeyword name="KEY" value="v"` for every synonym KEY of the field, whatever follows the value's closing quote (`/>`, a `comment` attribute) |
| Cards.XisfQuotedCardFound | astrobin_headers_multithread.py:27-32 | the XISF search finds `v` in `<FITSKeyword name="KEY" value="'v'"`, the quotes kept from FITS being stripped, whatever follows the closing quote |
| Cards.FitsStringCardFound | astrobin_headers_multithread.py:35-40 | the FITS search finds `v` in `KEY` + blanks + `=` + blanks + `'v'`, for every synonym KEY and any runs of blanks (none included) on each side of `=`, whatever follows |
| Cards.FitsNumberCardFound | astrobin_headers_multithread.py:35-40 | the FITS search finds the number `v` in `KEY` + blanks + `=` + blanks + `v`, for every synonym KEY and any runs of blanks on each side of `=`, so right-aligned fixed-format numbers too, when no further number character follows |
| Cards.XisfCardAfter | astrobin_headers_multithread.py:27-32 | the XISF element is found after any header text in which the search finds nothing earlier |
| Cards.XisfQuotedCardAfter | astrobin_headers_multithread.py:27-32 | the XISF element with a quoted value is found, unquoted, after any header text in which the search finds nothing earlier |
| Cards.XisfCardAfterText | astrobin_headers_multithread.py:27-32 | the XISF element is found after any header text without a `<` |
| Cards.FitsStringCardAfter | astrobin_headers_multithread.py:35-40 | the FITS string record, with any blanks around `=`, is found after any header text in which the search finds nothing earlier |
| Cards.FitsNumberCardAfter | astrobin_headers_multithread.py:35-40 | the FITS number record, with any blanks around `=`, is found after any header text in which the search finds nothing earlier |
| Cards.DialectsAgree | astrobin_headers_multithread.py:25-42 | a string written as an XISF element that keeps the FITS quotes, `value="'v'"`, and as a FITS record `KEY = 'v'` with any blanks around `=`, each after header text in which its search finds nothing earlier, is found as the same `v` by both dialects |
| Cards.NumbersAgree | astrobin_headers_multithread.py:25-42 | a number written bare in an XISF element and as a FITS number record with any blanks around `=`, each after header text in which its search finds nothing earlier, is found alike by both dialects |
| Classifier.DialectOf | astrobin_headers_multithread.py:159-160 | `file_path.lower().endswith('.xisf')`; no contract of its own, stated by `XisfSuffix` and `SuffixExamples` |
| Classifier.ReadFields | astrobin_headers_multithread.py:167-194 | the six searches of `process_single_file`; no contract of its own, stated by `FormatTransparent` |
| Classifier.Normalize | astrobin_headers_multithread.py:166-200 | the body of `process_single_file` after the read; no contract of its own, stated by `Accepts`, `GateAlone`, `KeyFields`, `DateHasNoTime` and `LightOnly` |
| Classifier.HeaderText | astrobin_headers_multithread.py:163-164 | the header is at most the first 50000 bytes, each decoded to the character with the same code |
| Classifier.HeaderPrefixOnly | astrobin_headers_multithread.py:155-164 | bytes after the first 50000 never change the header text |
| Classifier.XisfSuffix | astrobin_headers_multithread.py:159-160 | the tag patterns are used exactly when the last five characters, upper-cased, are `.XISF` |
| Classifier.SuffixExamples | astrobin_headers_multithread.py:159-160 | `.xisf` and `.XISF` names are read as XISF; `.fits` and `.fit` names are read as FITS |
| Classifier.Classify | astrobin_headers_multithread.py:152-164 | a missing or unreadable file gives no frame |
| Classifier.FormatTransparent | astrobin_headers_multithread.py:159-200 | two files whose searches find the same six values are classified alike, whatever their dialects |
| Classifier.Accepts | astrobin_headers_multithread.py:166-203 | a frame is accepted exactly when its type passes the LIGHT gate and each present exposure and gain converts; a failed conversion rejects the file rather than defaulting |
| Classifier.GateAlone | astrobin_headers_multithread.py:166-170 | when the type fails the gate, no other field and no conversion can change the outcome from `None` |
| Classifier.KeyFields | astrobin_headers_multithread.py:173-198 | each field of an accepted key is the found value, normalised or converted, or its default: filter `Unknown`, exposure `0`, date `Unknown`, gain `0`, binning `1` |
| Classifier.DateHasNoTime | astrobin_headers_multithread.py:182-185 | the date never holds a `T`: it is the found value cut at its first `T`, or the whole value when there is none |
| Classifier.LightOnly | astrobin_headers_multithread.py:166-200 | a light frame with no other field gets every default |
| Discovery.FindAll | astrobin_headers_multithread.py:217 | `re.findall`; no contract of its own, stated by `Sound`, `FindEntry`, `RejectedNothing` and `LogRoundTrip` |
| Discovery.Discover | astrobin_headers_multithread.py:217-218 | the candidates are the paths `findall` returns, each once, and there are no more of them than matches |
| Discovery.Sound | astrobin_headers_multithread.py:217 | every candidate holds no `"` and no line break, and stands in the log as `[true,` + whitespace + `"` + path + `"` |
| Discovery.FindEntry | astrobin_headers_multithread.py:217 | an accepted entry at the front of the log contributes its path and the scan goes on after it |
| Discovery.RejectedNothing | astrobin_headers_multithread.py:217 | a `[false, "..."]` entry contributes nothing whenever its path does not contain `[true,` (and its spacing holds no `[`); the marker holds no `"`, so no match can start inside the path and run past its closing quote |
| Discovery.NoOpenText | astrobin_headers_multithread.py:217 | text without a `[` adds no match to the scan of the text after it |
| Discovery.LogRoundTrip | astrobin_headers_multithread.py:217 | writing plain paths as accepted entries, one per line and each closed by `]`, and scanning the log gives the same paths back, in order and with their repeats |
| Discovery.Dedup | astrobin_headers_multithread.py:218 | the candidates of such a log are the set of the listed paths |
| Discovery.Twice | astrobin_headers_multithread.py:218 | a path accepted twice is one candidate |
| Discovery.NoEntries | astrobin_headers_multithread.py:217-218 | a log without `[true,` has no candidates |
| Ordering.StrLessTotal | astrobin_headers_multithread.py:260 | Python's string `<` orders any two different strings |
| Ordering.CompareAgrees | astrobin_headers_multithread.py:260 | tuple `<` raises exactly on keys of one date with an id and a raw filter name, and elsewhere agrees with the total key order |
| Ordering.KeyOrder | astrobin_headers_multithread.py:260 | the key order is irreflexive, transitive and total |
| Ordering.Sort | astrobin_headers_multithread.py:260 | `sorted` gives the same keys, ascending |
| Ordering.AscendingUnique | astrobin_headers_multithread.py:260 | two ascending lists of the same elements are equal |
| Ordering.SortSameElements | astrobin_headers_multithread.py:260 | the order the keys were given in cannot show in the sorted result |
| Aggregation.FirstSeenKeys | astrobin_headers_multithread.py:241-242 | the counter's keys are distinct and are exactly the keys some result had |
| Aggregation.TallyCount | astrobin_headers_multithread.py:241-242 | the count of a key is the number of results that are that key |
| Aggregation.ProcessedIsSize | astrobin_headers_multithread.py:241-243 | each frame result adds exactly one to exactly one key and one to `count_processed`, so the total is the size of the counter |
| Aggregation.CountedKeys | astrobin_headers_multithread.py:241-242 | a key is in the counter exactly when its count is positive |
| Aggregation.TallyOrderFree | astrobin_headers_multithread.py:238-243 | the counter and the total depend only on the multiset of results |
| Aggregation.OrderFree | astrobin_headers_multithread.py:236-243 | any two completion orders of the same files give the same counter and total |
| Aggregation.SumIsProcessed | astrobin_headers_multithread.py:241-243 | summed over all counted keys, the counts equal `count_processed` |
| Aggregation.HoldsAdd | astrobin_headers_multithread.py:242 | `grouped_data[key] += 1` on a `defaultdict` adds one occurrence of the key and nothing else |
| Aggregation.Consume | astrobin_headers_multithread.py:229-243 | after the loop the dictionary reads every key's count, its keys come in first-seen order, and the counter is the number of frames |
| Run.Summary | astrobin_headers_multithread.py:205-276 | `process_log` as one expression; no contract of its own, stated by `ProcessLog` and the `Saved*`, `OrderIndependent`, `WriteFailsOnMixedFilters` and `EarlyStops` lemmas |
| Run.Emit | astrobin_headers_multithread.py:260-270 | one row per sorted key, in that order, numbered by the key's count |
| Run.ProcessLog | astrobin_headers_multithread.py:205-276 | the run ends as the summary of its inputs says: the error, the warning or the saved rows and total |
| Run.SavedShape | astrobin_headers_multithread.py:229-270 | a saved run needed a readable log and a CSV that could be opened and written; its rows are those of the distinct counted keys, sorted and pairwise comparable, and its total is `count_processed` |
| Run.SavedBortle | astrobin_headers_multithread.py:269 | every row carries the supplied Bortle value |
| Run.SavedSorted | astrobin_headers_multithread.py:260 | rows come in strictly ascending key order, and comparing any two never raises |
| Run.SavedCounts | astrobin_headers_multithread.py:260-265 | there is a row for a key exactly when some file gave that key, and its number, at least 1, is how many files did |
| Run.SavedTotal | astrobin_headers_multithread.py:241-265 | the row numbers add up to `count_processed`, which is the number of files that were light frames |
| Run.ProcessedCountsFrames | astrobin_headers_multithread.py:241-243 | `count_processed` is the number of results that are not `None` |
| Run.ListingsPermute | astrobin_headers_multithread.py:236-238 | two completion orders of the same candidates are permutations of each other |
| Run.OrderIndependent | astrobin_headers_multithread.py:236-270 | whatever order the workers finish in, the run ends the same way and writes the same rows |
| Run.MixedIff | astrobin_headers_multithread.py:260 | the counter holds an incomparable pair of keys exactly when two files gave such keys |
| Run.WriteFailsOnMixedFilters | astrobin_headers_multithread.py:254-276 | with candidates, and a CSV that can be opened and written, the write fails exactly when one date mixes a mapped filter id with a raw filter name |
| Run.EarlyStops | astrobin_headers_multithread.py:205-225 | a missing log or empty path, an unreadable log and a log with no candidates each end the run with their own message; a CSV that cannot be opened or written gives the write error |
| Run.NoAcceptedEntry | astrobin_headers_multithread.py:217-225 | a log with no accepted entry ends with the warning and no CSV |

## Left out

- The GUI: file and value dialogs, `osascript`, tkinter and `show_message`
  (astrobin_headers_multithread.py lines 47-131). The messages become the constructors of `Outcome`.
- Threads: `ThreadPoolExecutor(max_workers=20)` and `as_completed`. The
  completion order is the parameter `order`, which lists each candidate
  exactly once. Which order actually occurs is not modelled, and
  `Run.OrderIndependent` shows that it does not matter.
- The file system: `os.path.exists`, `open` and `read` become the values
  `FileRead` and `LogRead`. The output path built with `os.path.dirname` and
  `os.path.join` (lines 251-252) is not modelled. Neither are the CSV text
  formatting and the header line.
- Writing the CSV: `canWrite` stands for opening the file and writing the
  header and every row, all in the `try` of lines 254-276. It is an input,
  not a function of the rows. So a row that fails to write depends on that
  row in Python but is only the flag here. One example is a Latin-1 character
  from 0x80 to 0x9F that a cp1252 locale cannot encode; another is a full
  disk. The file that `open` has already truncated or created, holding the
  header and the rows written before the failure, is not modelled either.
  `WriteFailed` only says that the error message is shown.
- UTF-8 decoding of the log with `errors='ignore'`: the log is given as text.
- Float parsing and formatting: `f"{float(v):.2f}"` and `str(int(float(v)))`
  are the abstract functions in `Numerics`. They give `None` where Python
  raises. What they compute, for example that `30` becomes `30.00`, is not
  modelled.
- Progress printing (lines 210, 227, 246-249).
- Case folding covers ASCII only. Headers are decoded as Latin-1. Under
  `re.IGNORECASE` no character up to U+00FF matches an ASCII letter, so
  nothing is lost for the patterns. Python's `upper()` maps `ß` (U+00DF) to
  `SS`, and it is the only such character in that range; `Text.Upper` leaves
  `ß` unchanged, so it differs from `upper()` on text that holds `ß`. The
  LIGHT gate is still exact: `LIGHT` has no `S`, and each letter of a match
  comes from a single ASCII character, which both map the same way. For
  paths, no character's lower-case form produces `.xisf` unless the path
  already ends that way.
- Cards.XisfCardFound: the element is written with one blank between
  `<FITSKeyword` and `name`, and one between the name's closing quote and
  `value`; the pattern's `\s+` also accepts longer runs and line breaks there,
  and those layouts are not covered by a lemma. The same holds for
  `Cards.XisfQuotedCardFound`, `Cards.XisfCardAfter`,
  `Cards.XisfQuotedCardAfter` and `Cards.XisfCardAfterText`.
- Cards.DialectsAgree: proved for one record after header text in which the
  search finds nothing earlier. For XISF, text without `<` is proved to
  qualify (`XisfCardAfterText`). No such condition is proved for FITS
  headers made of other keyword records. A whole header carrying all six
  fields in both dialects is not built; `FormatTransparent` carries equal
  search results up to equal keys.
- Classifier.Classify: its own contract states only that an unreadable file
  gives no frame. What an accepted frame holds is stated by `Accepts`,
  `KeyFields` and `DateHasNoTime` about `Normalize`.
- Run.WriteFailsOnMixedFilters: the model says the write fails as soon as the
  keys hold an incomparable pair. Python raises only when `sorted` actually
  compares such a pair. Any comparison sort must compare the neighbours of its
  result, and keys of one date sit together there, so some comparison of an
  id with a name happens. That argument is not proved in Dafny.
- Ordering.Sort: this is an insertion sort, not Timsort. A strict total order
  has only one ascending arrangement (`AscendingUnique`), so the output is the
  same.
