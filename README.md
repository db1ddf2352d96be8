# Hansel catalog text rules in Dafny

Hansel is a small web library of Sanskrit e-texts. This project models the
pure text rules at the heart of its catalog, and proves what they do:

- **Record normalisation** (`catalog.dfy`, module `Catalog`). A raw metadata
  record maps field names to strings or lists of strings; it becomes one
  display entry. The model covers:
  - the filename check;
  - author resolution with its fallbacks (`Author`, `Authors`,
    `Attributed Author`; `Pandit Author IDs`,
    `Pandit Attributed Author ID`);
  - the Panditya link;
  - the `[text](url)` parser for edition PDFs;
  - `process_metadata`, which skips the `version` key, builds one entry per
    record, and sorts the entries stably by the collation key of their
    titles.

  The loops of `get_pdf_links` and `process_metadata` are methods proved
  against specification functions (`PdfLinksOf`, `Processed`). The lemmas
  are stated about those functions.
- **The Sanskrit collation key** (`collation.dfy`, module `Collation`). It
  covers the 49-symbol phonemic alphabet, the table from symbol to
  position, and `custom_sort_key`. The key prefers a two-character digraph
  at each position but does not skip the character after it.
- **Stable sorting and list order** (`stable_sort.dfy`, `lex.dfy`). Python's
  `sorted(..., key=...)` over list-valued keys is modelled as a stable
  insertion sort. Python list comparison is modelled as lexicographic order.
- **Version readers** (`versions.dfy`, module `Versions`). They parse
  `name = 'value'` lines taken from a sequence of lines: the first line for
  the app version, and the first line with a given prefix for the data and
  bundle versions.
- **The browser key** (`browser_key.dfy`, module `BrowserKey`). This is the
  page's 1-based `saWeight` table, built by a loop, and `saKey`, which turns
  every UTF-16 code unit other than a line terminator into a three-digit
  code; line terminators are kept as they are.

The model proves several facts:
- The two tables agree: a symbol's browser weight is its catalog position
  plus 2.
- Comparing keys as strings is the same as comparing weights position by
  position.
- The two orders nevertheless differ on digraphs. The catalog puts "e"
  before "ai", while the page puts "ai" before "e" (`OrdersDisagree`).

`results.dfy` holds the `Option` and `Result` types. `text.dfy` holds
the Python string operations the code uses: the substring test `in`
(modelled by `Find`, the first occurrence), `split`, `join`, `strip`,
`replace` of one character, `startswith`, slicing off the first or last
character, and iteration over a string.

Some operations are foreign to this code: `str.lower`, the browser's
`toLowerCase().normalize('NFC')`, and `urllib.parse.urlencode`. They are passed in as function parameters (`lower`, `fold`,
`urlencode`). The version readers take the file's lines (with their line
terminators, as Python's file iteration yields them) instead of opening a
file.

## Model

| member | source | states |
|---|---|---|
| Catalog.Elements | utils.py:103 | what iteration over a value yields: a list's strings, or a string's characters one by one; its use is stated by `GetAuthorInfo` (a string under `Authors` is joined character by character) and by `Text.Chars` |
| Catalog.Truthy | utils.py:122-128 | Python truthiness of a value: a non-empty string or list; its use is stated by `PanditParams` and `GetPandityaUrl` |
| Catalog.GetFilenameInfo | utils.py:91-96 | succeeds exactly when both `Filename` and `Original Submission Filetype` are present, returning those two values; a missing `Filename` fails with `MissingFilename` |
| Catalog.GetAuthorInfo | utils.py:99-106 | the first present field wins: `Author`, else `Authors` joined with ", ", else `Attributed Author`, else "" |
| Catalog.AuthorsRecoverable | utils.py:102-103 | when no author name contains a comma, splitting the resolved author string at ", " gives back the `Authors` list |
| Catalog.GetPanditAuthorInfo | utils.py:109-117 | `Pandit Author IDs` joined with "," when it is a list, or as it is when it is a string; else `Pandit Attributed Author ID`; else "" |
| Catalog.PanditIdsRecoverable | utils.py:112-113 | when no id contains a comma, splitting the joined ids at "," gives back the list |
| Catalog.PanditWork | utils.py:121 | the `Pandit Work ID` field, or "" when absent; `GetPandityaUrl` states how it decides the URL |
| Catalog.PanditParams | utils.py:125-129 | the parameters are `hops=1` first, then `authors` if the author is truthy, then `works` if the work is truthy, and nothing else |
| Catalog.GetPandityaUrl | utils.py:119-130 | the URL is "" exactly when neither the pandit author nor the work id is truthy; otherwise it starts with `https://panditya.info/view?` and the rest is the encoding of the parameters |
| Catalog.ParsePdfLink | utils.py:137-140 | no link exactly when the string does not start with "[" or has no "]("; otherwise the text lies between the leading "[" and the first "](", and the url is the second "](" segment without its last character |
| Catalog.PdfLinkRoundTrip | utils.py:137-140 | a string written as "[" + text + "](" + url + ")" is read back as exactly that text and url when neither contains "](" |
| Catalog.PdfStrings | utils.py:135-136 | the strings the loop iterates over, none when `Edition PDFs` is absent; `GetPdfLinks` states that the loop computes `PdfLinksOf` of them |
| Catalog.PdfLinksOf | utils.py:133-142 | never more links than input strings |
| Catalog.PdfLinksOfConcat | utils.py:136-141 | input order is kept: the links of a concatenation are the links of each part, concatenated |
| Catalog.PdfLinksOfOne | utils.py:137-141 | a malformed string contributes nothing; a well-formed one contributes its parsed link |
| Catalog.PdfLinksOfWellFormed | utils.py:136-141 | when every string is well formed, the i-th link is the parse of the i-th string |
| Catalog.GetPdfLinks | utils.py:133-142 | the append loop computes `PdfLinksOf` of the record's `Edition PDFs` (no links when the field is absent) |
| Catalog.BuildEntry | utils.py:154-167 | the entry is built exactly when all six fields it reads are present; a missing `Filename` fails with `MissingFilename`; a built entry holds the filename, extension, title, edition and size fields as they are, the author from `GetAuthorInfo`, the URL from `GetPandityaUrl`, the links `PdfLinksOf` gives for the `Edition PDFs` strings, and the genres joined with ", " |
| Catalog.NonVersion | utils.py:151-153 | the records other than the `version` key, in iteration order, never more than there are keys; `NonVersionHas` states that every such record is among them |
| Catalog.Collect | utils.py:151-167 | the loop as a function; `CollectFailsFrom`, `CollectOk` and `CollectEntries` state its failure, success and entries |
| Catalog.NonVersionHas | utils.py:151-153 | every record whose key is not "version" is passed on to the loop |
| Catalog.CollectFailsFrom | utils.py:151-167 | once a record fails, the whole loop fails with that record's failure |
| Catalog.CollectOk | utils.py:151-167 | the loop succeeds exactly when every non-version record has the required fields |
| Catalog.CollectEntries | utils.py:151-167 | a successful loop yields one entry per non-version record, in iteration order, each built from its record |
| Catalog.TitleKey | utils.py:168 | the collation key of an entry's title; `KeyEntriesSpec` states that each entry is keyed by it |
| Catalog.KeyEntries | utils.py:168 | the keys the sort computes, or a failure on a non-string title; stated by `KeyEntriesSpec` |
| Catalog.KeyEntriesSpec | utils.py:168 | sort keys exist exactly when every title is a string; the keyed list holds the entries in order, each keyed by the collation key of its title |
| Catalog.Processed | utils.py:145-169 | `process_metadata` as a function; `ProcessMetadata` computes it, and `ProcessedOk` and `ProcessedSorted` state when it succeeds and what it returns |
| Catalog.ProcessMetadata | utils.py:145-169 | the loop with its `continue` and its failing lookups computes `Processed` |
| Catalog.ProcessedOk | utils.py:145-169 | `process_metadata` succeeds exactly when every non-version record has the required fields and a string title |
| Catalog.ProcessedSorted | utils.py:150-169 | a result holds one entry per non-version record and is a permutation of the built entries; it is ordered by the title keys, and entries with equal keys keep their iteration order |
| Catalog.MissingFilenameFails | utils.py:92-93 | a non-version record without `Filename` makes the whole call fail |
| Collation.Enumerate | utils.py:191 | the dict comprehension behind `custom_order` (and behind `saWeight` with start 1); `EnumerateHolds`, `EnumerateKeys`, `EnumerateValues` and `EnumerateInverts` state its keys and values |
| Collation.EnumerateHolds | utils.py:191 | the dict comprehension holds exactly the listed symbols, each mapped to the position of its last occurrence |
| Collation.EnumerateKeys | utils.py:191 | the table's keys are exactly the listed symbols |
| Collation.EnumerateValues | utils.py:191 | each symbol is mapped to its position, and no later position holds it |
| Collation.EnumerateInverts | utils.py:191 | over distinct symbols, the table maps the i-th symbol to i |
| Collation.AlphabetDistinct | utils.py:176-187 | the alphabet (the constant `SanskritAlphabet`) has 49 symbols and none is listed twice |
| Collation.CustomOrderInverts | utils.py:176-191 | `custom_order` (the constant `CustomOrder`) is the inverse of `sanskrit_alphabet`: `custom_order[sanskrit_alphabet[i]] == i`, and every value indexes back to its key |
| Collation.PositionOf | utils.py:191 | the i-th symbol has position i |
| Collation.SortKey | utils.py:195-198 | `custom_sort_key` after lower-casing; its properties are stated by `SortKeyEntries`, `KhaExample`, `FirstPositions` and `TitleOrderExamples` |
| Collation.PositionAt | utils.py:197 | the entry at one position; stated by `SortKeyEntries`, `NotADigraph` and `KhaPositions` |
| Collation.Digraph | utils.py:197 | the slice of two characters, or one at the last position; `SortKeyEntries` states the lookup of it |
| Collation.SortKeyEntries | utils.py:195-198 | one entry per character, each in 0..49; a listed digraph at i gives its position; otherwise a listed character gives its position; 49 appears exactly where neither is listed |
| Collation.SymbolLengths | utils.py:176-187 | every symbol is one character or one of the twelve digraphs |
| Collation.NotADigraph | utils.py:197 | a two-character string that is not a digraph is not looked up successfully |
| Collation.KhaExample | utils.py:197 | "kha" gives [15, 46, 0]: the digraph wins at its position and the next position is still counted |
| Collation.KhaPositions | utils.py:197 | the positions of k-h-a one at a time |
| Collation.FirstPositions | utils.py:197 | the first entries of "aditya", "ānanda", "kanda", "khanda" are 0, 1, 14, 15 |
| Collation.TitleOrderExamples | utils.py:195-198 | "aditya" sorts before "ānanda", which sorts before "khanda"; bare "k" sorts before "kh" |
| Collation.EBeforeAi | utils.py:177 | "e" is [10] and "ai" is [11, 2], so titles starting with "e" come before titles starting with "ai" |
| StableSort.SortByKey | utils.py:168 | the stable sort by key; `SortByKeyIsStableSort` states that it is a permutation, ordered by key and stable |
| StableSort.SortByKeyIsStableSort | utils.py:168 | the sort is a permutation, ordered by key, and for each key it keeps the input order of the items with that key |
| StableSort.SortByKeyPermutes | utils.py:168 | the sorted list is a permutation of the input |
| StableSort.SortByKeySorted | utils.py:168 | the sorted list is ordered by key |
| StableSort.SortByKeyStable | utils.py:168 | items with equal keys keep their input order |
| StableSort.InsertPermutes | utils.py:168 | inserting adds exactly the one item |
| StableSort.InsertSorted | utils.py:168 | inserting into a sorted list keeps it sorted |
| StableSort.InsertWithKey | utils.py:168 | the inserted item goes in front of the items with its key |
| StableSort.ItemsPermutes | utils.py:168 | dropping the keys of two permutations leaves two permutations |
| StableSort.KeyedByPermutes | utils.py:168 | a permutation of a list keyed by f is still keyed by f |
| StableSort.WithKeyItems | utils.py:168 | selecting by key commutes with dropping the keys when the keys come from f |
| Lex.LexLe | utils.py:168 | Python's `<=` on lists of ints; `LexLeIsFirstDifference` states that it is the first-difference order, and `LexLeReflexive`, `LexLeTotal`, `LexLeAntisymmetric` and `LexLeTransitive` that it is a total order |
| Lex.LexLeIsFirstDifference | utils.py:168 | list order is the textbook order: a prefix comes first, otherwise the first difference decides |
| Lex.LexLeReflexive | utils.py:168 | every key is ordered with itself |
| Lex.LexLeTotal | utils.py:168 | any two keys are ordered one way or the other |
| Lex.LexLeAntisymmetric | utils.py:168 | keys ordered both ways are equal |
| Lex.LexLeTransitive | utils.py:168 | the order of keys is transitive |
| Lex.LexLessCons | utils.py:168 | comparison looks at the heads first, then at the tails |
| Lex.LexLessBlocks | static/web/js/sort.js:25 | two concatenations with equal-length first blocks compare block by block |
| Text.Find | utils.py:137 | the first occurrence, on which the `'](' in s` test and `split` rest: the position found is an occurrence and no earlier one exists; none is found only when there is no occurrence |
| Text.Split | utils.py:138 | at least one part; a single part when the separator does not occur; otherwise the first part ends at the first occurrence, and no part contains the separator |
| Text.Join | utils.py:103 | `str.join`; `SplitJoin` and `JoinSplit` state that it inverts `split`, and `Catalog.AuthorsRecoverable` that the joined authors can be read back |
| Text.JoinSplit | utils.py:138 | joining the parts of a split at the same separator gives the string back |
| Text.SplitJoin | utils.py:103 | splitting a join gives the items back, when no item contains the separator's first character |
| Text.Strip | utils.py:20 | the result neither starts nor ends with whitespace |
| Text.StripPadded | utils.py:28 | stripping removes exactly the whitespace padding around a string that has none at its ends |
| Text.Remove | utils.py:28 | `replace(c, '')` leaves no c, never lengthens, and changes nothing when c is absent |
| Text.RemoveKeepsAbsent | utils.py:28 | removing one character never introduces another |
| Text.RemoveConcat | utils.py:28 | removal works character by character |
| Text.StartsWith | utils.py:137 | `str.startswith`; its uses are stated by `Catalog.ParsePdfLink`, `Versions.PrefixedVersionFirst` and `Versions.VersionLineStarts` |
| Text.DropFirst | utils.py:139 | the slice `[1:]`; `Catalog.ParsePdfLink` states the text it gives and `Catalog.PdfLinkRoundTrip` that it reads the text back |
| Text.DropLast | utils.py:140 | the slice `[:-1]`; `Catalog.ParsePdfLink` states the url it gives and `Catalog.PdfLinkRoundTrip` that it reads the url back |
| Text.Chars | utils.py:103 | iterating a string yields its characters as one-character strings |
| Versions.ParseVersionValue | utils.py:28 | fails exactly when the line has no "="; the value never holds a quote character |
| Versions.ParseVersionValueIs | utils.py:28 | for any line whose first "=" is at k, the value is the text from k up to the next "=" (or the end of the line), stripped, with every single and double quote removed |
| Versions.SecondPart | utils.py:28 | the second part of a split at "=" runs from the first "=" to the next one, or to the end of the line |
| Versions.FindAppVersion | utils.py:16-20 | an empty file fails; otherwise the stripped first line is parsed |
| Versions.PrefixedVersion | utils.py:26-28 | the loop of the data and bundle readers as a function; `PrefixedVersionNone` and `PrefixedVersionFirst` state its result, and `FindPrefixedVersion` computes it |
| Versions.PrefixedVersionNone | utils.py:26-28 | nothing is found exactly when no line starts with the prefix |
| Versions.PrefixedVersionFirst | utils.py:26-28 | the first line that starts with the prefix decides the result |
| Versions.FindPrefixedVersion | utils.py:26-28 | the loop with its early return computes `PrefixedVersion` |
| Versions.FindDataVersion | utils.py:23-28 | the data version is the first `__data_version__` line's value |
| Versions.FindBundleVersion | utils.py:31-36 | the bundle version is the first `__bundle_version__` line's value |
| Versions.FirstEquals | utils.py:28 | in `name = 'value'` the first "=" follows the name and its space |
| Versions.NoEqualsAfter | utils.py:28 | nothing after that "=" splits again when the value holds no "=" |
| Versions.Unquote | utils.py:28 | removing both quote characters from `'value'` gives the value |
| Versions.ParseVersionLine | utils.py:28 | the value of a `name = 'value'` line is read back, with any trailing whitespace, when it holds no quote and no "=" |
| Versions.FirstLineVersion | utils.py:18-20 | a file whose first line is `name = 'value'` gives that value as the app version |
| Versions.AppVersionLine | utils.py:16-20 | a VERSION file starting with `__version__ = 'value'` gives that value |
| Versions.TwoLineFile | utils.py:26-36 | in a two-line file each prefix finds the value of its own line |
| Versions.DataFileVersions | utils.py:23-36 | the data VERSION file with a data line and a bundle line yields both versions |
| Versions.VersionLineStarts | utils.py:27 | a version line starts with its name |
| Versions.DataLineIsNotBundle | utils.py:35 | the data line does not start with the bundle prefix |
| BrowserKey.SaOrderIsPaddedAlphabet | static/web/js/sort.js:3-14 | the page's order (the constant `SaOrder`) is "" followed by the catalog's alphabet |
| BrowserKey.BuildWeightTable | static/web/js/sort.js:15-17 | the `forEach` writes i + 1 for the i-th entry, the later entry winning on a repeat |
| BrowserKey.NoEmptySymbol | static/web/js/sort.js:4-13 | no listed symbol is the empty string |
| BrowserKey.PaddedAlphabetDistinct | static/web/js/sort.js:3-14 | the 50 entries are distinct |
| BrowserKey.SaOrderDistinct | static/web/js/sort.js:3-14 | the page's order repeats no entry |
| BrowserKey.SaWeightTable | static/web/js/sort.js:2-18 | the table (the constant `SaWeight`) holds exactly the listed entries, gives the i-th entry weight i + 1, and every weight lies in 1..50 |
| BrowserKey.NonEmptyKeyWeights | static/web/js/sort.js:16 | only the leading "" has weight 1; every other key weighs 2 or more |
| BrowserKey.SaWeightCharWeights | static/web/js/sort.js:16 | every one-character key weighs between 2 and 50 |
| BrowserKey.TablesAgree | static/web/js/sort.js:3-16 | for every symbol of the catalog alphabet, its page weight is its catalog position plus 2 |
| BrowserKey.PaddedShift | static/web/js/sort.js:16 | numbering "" + alpha from 1 gives each symbol its position in alpha plus 2 |
| BrowserKey.DecimalString | static/web/js/sort.js:25 | `String(n)`: at least one digit; `Pad3Digits` states its digits for every weight used |
| BrowserKey.Pad3 | static/web/js/sort.js:25 | `String(n).padStart(3, '0')`; `Pad3Digits`, `Pad3RoundTrip` and `Pad3Order` state its digits, their value and their order |
| BrowserKey.WeightOr999 | static/web/js/sort.js:25 | the logical-or fallback: the weight when present and not 0, else 999 |
| BrowserKey.FallbackOnlyWhenMissing | static/web/js/sort.js:25 | since no weight is 0, the fallback applies only to characters missing from the table |
| BrowserKey.PadStart | static/web/js/sort.js:25 | `padStart` reaches the width, or keeps a longer string |
| BrowserKey.Pad3Digits | static/web/js/sort.js:25 | below 1000 the padded string is the three decimal digits |
| BrowserKey.Pad3RoundTrip | static/web/js/sort.js:25 | reading the three digits back gives the weight |
| BrowserKey.ThreeDigitsValue | static/web/js/sort.js:25 | three digits denote 100a + 10b + c |
| BrowserKey.Pad3Codes | static/web/js/sort.js:25 | the character codes of a padded weight |
| BrowserKey.DigitCodesOrder | static/web/js/sort.js:25 | three digit codes compare as the numbers they spell |
| BrowserKey.Pad3Order | static/web/js/sort.js:25 | two padded weights compare as strings as the weights compare |
| BrowserKey.BlocksLength | static/web/js/sort.js:25 | three characters per weight |
| BrowserKey.BlocksConcat | static/web/js/sort.js:25 | the codes of a concatenation are the concatenated codes |
| BrowserKey.BlocksOrder | static/web/js/sort.js:25 | fixed width makes string order of the codes equal to position-by-position order of the weights |
| BrowserKey.SaKey | static/web/js/sort.js:21-25 | without line terminators the key is three characters per UTF-16 code unit |
| BrowserKey.UnitWeightsRange | static/web/js/sort.js:25 | one weight per code unit, each in 2..50 or the fallback 999 |
| BrowserKey.Below1000Weights | static/web/js/sort.js:25 | every unit weight is below 1000 |
| BrowserKey.Piece | static/web/js/sort.js:25 | what one character becomes; stated by `TerminatorPiece` and `TwoCharKey` |
| BrowserKey.SaReplace | static/web/js/sort.js:25 | the global replacement; `SaReplaceBlocks`, `SaReplaceConcat`, `TerminatorKept` and `SaKeyLength` state its result |
| BrowserKey.UnitWeights | static/web/js/sort.js:25 | the weight of every code unit; `UnitWeightsRange` and `UnitWeightsCons` state its length, range and head |
| BrowserKey.SaReplaceBlocks | static/web/js/sort.js:25 | away from line terminators the key is the three-digit codes of the unit weights |
| BrowserKey.SaKeyLength | static/web/js/sort.js:25 | three characters per UTF-16 code unit |
| BrowserKey.SaReplaceConcat | static/web/js/sort.js:25 | replacement distributes over concatenation |
| BrowserKey.TerminatorKept | static/web/js/sort.js:25 | a line terminator, which `.` does not match, stays where it is |
| BrowserKey.TerminatorPiece | static/web/js/sort.js:25 | a line terminator on its own is unchanged |
| BrowserKey.SaKeyOrder | static/web/js/sort.js:25 | comparing two keys as strings compares the unit weights of the two strings position by position |
| BrowserKey.WeightsOrder | static/web/js/sort.js:25 | the same, for any table of one-character weights in 2..50 |
| BrowserKey.ListedBeforeUnlisted | static/web/js/sort.js:25 | a string starting with a listed letter sorts before one starting with an unlisted character |
| BrowserKey.ListedFirst | static/web/js/sort.js:25 | a listed first character (at most 50) wins over an unlisted one (999) |
| BrowserKey.UnitWeightsCons | static/web/js/sort.js:25 | an astral character gives two fallback weights, any other character its table weight |
| BrowserKey.WeightAt | static/web/js/sort.js:16 | the i-th entry looks up to i + 1 |
| BrowserKey.TwoCharKey | static/web/js/sort.js:25 | a two-character string is keyed one character at a time |
| BrowserKey.KhExample | static/web/js/sort.js:25 | "kh" is never looked up as a digraph: it becomes "016048", k then h |
| BrowserKey.LongAIExample | static/web/js/sort.js:25 | "āi" becomes "003004" |
| BrowserKey.BrowserPutsAiBeforeE | static/web/js/sort.js:25 | "ai" weighs [2, 4] and "e" weighs [12], so "ai" sorts first on the page |
| BrowserKey.OrdersDisagree | static/web/js/sort.js:25 | the catalog puts "e" before "ai" while the page puts "ai" before "e" |

## Left out

- File I/O is not modelled: the `open` calls of the version readers and of `load_metadata` (which also sorts the raw keys before the catalog sees them), the download log and its creation on import, `get_geolocation` (a network call), and the size calculations (filesystem walks and float rounding). The version readers take the lines of the file as a parameter.
- `flask_app.py` and the page scripts other than `sort.js` (panels, storage, fetches, transliteration) are not part of this model; no page script outside `sort.js` calls `saKey` or reads `saWeight`, so no caller of `saKey` is modelled. The model states how two keys compare as strings.
- `str.lower`, `toLowerCase().normalize('NFC')` and `urlencode` are given functions. Nothing is proved about their results beyond what the code does with them.
- Catalog.BuildEntry: the exception type is not modelled. Every failure is a `Failure` value naming the missing field; Python raises a `TypeError` on the missing `Filename` (a string is raised) and a `KeyError` otherwise.
- Catalog.GetPanditAuthorInfo: only strings and lists of strings are modelled as values. `str()` of a non-list is modelled for strings, where it changes nothing. Numbers and other JSON values are not modelled, nor are lists that hold non-strings (where `join` would raise).
- BrowserKey.SaKey: JavaScript strings are modelled as sequences of code points. The regular expression `.` has no `u` flag, so it matches one UTF-16 code unit. An astral character is therefore two lone surrogates, each missing from the table, and becomes "999999". Strings holding lone surrogates themselves are not modelled.
- BrowserKey.SaKey: the length property is stated only for strings without line terminators; a string with terminators keeps them as they are (`TerminatorKept`).
- The example in the comment at `static/web/js/sort.js:26` is not a property of the code: the table gives "āi" the key "003004" (`LongAIExample`).
- Catalog.PdfLinksOf: a record whose `Edition PDFs` value is a single string iterates over its characters, as Python does. A one-character string holds no "](", so such a value gives no links.
