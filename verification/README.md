# Locale consistency scripts, modelled in Dafny

Two maintenance scripts of the add-on check its English locale file
`locales/enUS.lua` against the Lua sources:

- `scripts/validate_locales.py` collects the keys defined in the locale file
  (lines `L["Key"] = ...`). It also collects the keys referenced in
  `Bindings.lua` and in every `*.lua` file under `src` (`L.Key`), recording
  where each reference was seen. It then reports the entries nobody
  references and the references nobody defines, and exits with status 1 if
  either list is non-empty.
- `scripts/find_unused_locales.py` collects the same entries. For each
  entry it counts the lines that contain the key as a plain substring,
  summed over the same files. It reports the entries whose total is zero
  and exits with status 1 if there are any.

The model is split into five modules:

- `Text` (text.dfy): Python's `str.strip`, `startswith` and `in`, the
  decimal text of an `int`, list comprehensions with a condition (`Filter`),
  and dict key order (`Distinct`).
- `LocalePatterns` (patterns.dfy): the two regular expressions, written out
  as searches. `EntryKey` is `re.match(r'L\["(.+)"\] ', line)`, which is
  anchored at column 0 and greedy. `FirstReference` is
  `re.search(r"\bL\.(\w+)\b", line)`, the leftmost match. Each search comes
  with a declarative predicate for "the pattern matches here".
- `LocaleEntries` (entries.dfy): `getEntries`, identical in both scripts.
- `ValidateLocales` (validate_locales.dfy): `getReferences` and the two
  reports.
- `FindUnusedLocales` (find_unused_locales.dfy): `findUses`, `findUnused`
  and the report.

The file system is an input:

- the locale file is its list of lines, each with the terminator that
  `readlines` keeps;
- the scanned sources are a list of (path, lines) pairs, `Bindings.lua`
  first and then the files under `src` in directory-walk order.

The loops of the scripts are methods with loop invariants. Each is proved
equal to a recursive function that defines its result, and lemmas then state what
that function means. Nested loops are split so that each loop is one
method: in `getReferences` the per-file body is `ScanFile`, its per-line
body `ScanLine` and the dict update `Record`; the per-line body of
`findUses` is `CountLine`; and the per-file accumulation of `findUnused` is
`AddUses` inside `TotalUses`. In
`getReferences`, the dict is modelled by two values:

- a `map` from key to locations, built by `Group`;
- its key order, built by `Distinct`.

Two behaviours of the code are worth stating plainly:

- An indented `L["` line passes the strip test but yields no key, because
  `re.match` is applied to the unstripped line and is anchored at column 0
  (`IndentedDefinitionDropped`). The `.+` is greedy, so the key runs to the
  last `"] ` before the end of the line (`EntryKeyGreedy`,
  `GreedyCaptureExample`).
- A key gets one location per line whose first reference it is. So one file
  can add several locations for a key, and a key that appears only after
  another reference on the same line adds none (`ReferencesSpec`,
  `AtMostOnePerLine`).

## Model

| member | source | states |
|---|---|---|
| Text.Strip | scripts/validate_locales.py:15 | `line.strip()` neither starts nor ends with whitespace, and is empty exactly when the line is all whitespace |
| Text.StripKeepsPrefix | scripts/validate_locales.py:15 | `line.strip().startswith(p)`, for a prefix that ends in a non-space, is the same test as on the left-stripped line; trailing whitespace never decides it |
| Text.Contains | scripts/find_unused_locales.py:22 | `entry in line`, defined by trying each offset in turn; `ContainsSpec` proves it equals the existence of an occurrence |
| Text.ContainsSpec | scripts/find_unused_locales.py:22 | `entry in line` holds exactly when `entry` occurs in `line` at some offset |
| Text.DigitsInjective | scripts/validate_locales.py:39 | different line numbers have different decimal texts |
| Text.Filter | scripts/validate_locales.py:56 | a comprehension with a condition keeps exactly the elements of the list that satisfy it |
| Text.FilterOrder | scripts/validate_locales.py:56 | each kept element is kept as often as it occurs in the list, and the kept elements stay in their original order (a subsequence) |
| Text.FilterNoDuplicates | scripts/find_unused_locales.py:35 | a comprehension over a list without repeats has no repeats |
| Text.FilterCongruent | scripts/find_unused_locales.py:35 | a comprehension depends only on its condition's values on the visited elements |
| Text.CollectAppend | scripts/validate_locales.py:14-18 | a loop that appends a value only for the elements where a search succeeds gives, over two stretches, the values of each stretch concatenated |
| Text.CollectMembership | scripts/validate_locales.py:14-18 | such a loop collects a value exactly when the search finds it in some element |
| Text.Distinct | scripts/find_unused_locales.py:28 | the keys of `dict.fromkeys(s)` are exactly the elements of `s`, each once |
| Text.DistinctOrder | scripts/find_unused_locales.py:28 | those keys come in order of first occurrence in `s` |
| LocalePatterns.EntryKey | scripts/validate_locales.py:6 | a captured key is non-empty, holds no newline, and the line starts with `L["` + key + `"] ` |
| LocalePatterns.EntryKeyGreedy | scripts/validate_locales.py:16 | whenever the definition pattern can match at column 0, the match is found, and its key is at least as long as any other possible capture (greedy `.+`) |
| LocalePatterns.FirstReference | scripts/validate_locales.py:34 | a key `re.search` returns is a non-empty run of word characters, as `\w+` requires |
| LocalePatterns.FirstReferenceSpec | scripts/validate_locales.py:34 | `re.search` finds nothing exactly when the reference pattern matches nowhere in the line; otherwise its key is the group of a match with no match further left |
| LocalePatterns.WordFromRun | scripts/validate_locales.py:7 | the run `\w+` takes before `\b` is the whole maximal run of word characters at that position: each of its characters is the line's character there and a word character, and the run stops at the end of the line or at a non-word character |
| LocalePatterns.FindRefLeftmost | scripts/validate_locales.py:34 | the search returns the leftmost position at or after the start where `\bL\.` followed by a word character begins, and finds none exactly when there is no such position |
| LocalePatterns.RefFromFindRef | scripts/validate_locales.py:34 | the group `re.search` returns is the word run after the leftmost reference start, and nothing when there is none |
| LocalePatterns.MatchStartsReference | scripts/validate_locales.py:7 | every match of the reference pattern begins with `\bL\.` followed by a word character |
| LocalePatterns.ReferenceAtMatches | scripts/validate_locales.py:7 | wherever `\bL\.` followed by a word character begins, the pattern matches with the whole word run as its group |
| LocalePatterns.RefMatchUnique | scripts/validate_locales.py:7 | at one position the reference pattern has only one possible group: `\w+` before `\b` takes the whole word run |
| LocalePatterns.ReferenceOccursInLine | scripts/validate_locales.py:34 | a recorded reference key occurs in its line as a substring |
| LocaleEntries.LineKey | scripts/validate_locales.py:15-18 | a key a line yields is non-empty and is group 1 of a match of the definition pattern at column 0 of that line |
| LocaleEntries.Entries | scripts/validate_locales.py:10-20 | the list of keys the lines yield, in file order; `EntriesMembership` and `EntriesAppend` state its membership and how it splits |
| LocaleEntries.GetEntries | scripts/validate_locales.py:10-20 | the loop returns `Entries(lines)`: the non-empty group 1 of each line that passes the strip test and the anchored match, in file order |
| LocaleEntries.StripTestIsRedundant | scripts/validate_locales.py:15-17 | a line yields a key exactly when the anchored match succeeds, and the key is never empty: the strip test and the non-empty test never reject a match |
| LocaleEntries.IndentedDefinitionDropped | scripts/validate_locales.py:15-16 | an indented `L["` line passes the strip test but yields no key |
| LocaleEntries.EntriesAppend | scripts/validate_locales.py:14-18 | the entries of two stretches of the file are the entries of each, concatenated, with repeated definitions kept |
| LocaleEntries.EntriesMembership | scripts/find_unused_locales.py:6-14 | a key is an entry exactly when some line of the locale file yields it |
| LocaleEntries.GreedyCaptureExample | scripts/find_unused_locales.py:11 | on `L["A"] = L["B"] = 1` the captured key is `A"] = L["B` |
| LocaleEntries.IndentedDefinitionExample | scripts/find_unused_locales.py:10-11 | `  L["A"] = 1` passes the strip test and yields no entry |
| ValidateLocales.Render | scripts/validate_locales.py:39 | the location text `f"{path} (line: {lineNum})"`; `RenderInjective` proves that distinct locations give distinct texts |
| ValidateLocales.RenderInjective | scripts/validate_locales.py:39 | two locations whose `f"{path} (line: {lineNum})"` texts are equal are the same (path, line) pair |
| ValidateLocales.Group | scripts/validate_locales.py:36-39 | the dict built from the references has no more keys than there are references; `GroupIsLocs` states its keys and lists |
| ValidateLocales.LineHits | scripts/validate_locales.py:33-39 | the references one line contributes: its first match only, at that line's number; `LineHitsAt` proves there is at most one |
| ValidateLocales.FileHits | scripts/validate_locales.py:30-39 | the references of a file's first n lines, line by line; `FileHitsSound`, `FileHitsComplete` and `FileHitsInLineOrder` state what they are |
| ValidateLocales.Hits | scripts/validate_locales.py:29-39 | the references of all files in scan order; `HitsSound` and `HitsComplete` state what they are |
| ValidateLocales.GroupIsLocs | scripts/validate_locales.py:36-39 | the dict has exactly the keys of the recorded references; each key's list is that key's locations in scan order and is never empty |
| ValidateLocales.GroupStep | scripts/validate_locales.py:37-39 | one reference creates its key with an empty list if absent, appends its location, and adds the key at the end of the key order only when it is new |
| ValidateLocales.Record | scripts/validate_locales.py:36-39 | recording one reference keeps the dict equal to `Group` of the references so far and its key order equal to their order of first occurrence |
| ValidateLocales.ScanLine | scripts/validate_locales.py:33-39 | one line, with its number, extends the dict and its key order by that line's first reference, or leaves them unchanged when the line has none |
| ValidateLocales.ScanFile | scripts/validate_locales.py:30-39 | scanning one file with a 1-based `lineNum` extends the dict and its key order by exactly that file's references |
| ValidateLocales.GetReferences | scripts/validate_locales.py:23-41 | the dict equals `Group` of all references in file and line order, and its key order is their order of first occurrence |
| ValidateLocales.LineHitsAt | scripts/validate_locales.py:34-39 | a line contributes at most one reference, and it carries that line's number |
| ValidateLocales.AtMostOnePerLine | scripts/validate_locales.py:34-39 | the references recorded from a file's first n lines number at most n, and no two of them share a line number |
| ValidateLocales.FileHitsCount | scripts/validate_locales.py:31-39 | a file's first n lines contribute at most n references |
| ValidateLocales.FileHitsSound | scripts/validate_locales.py:31-39 | every reference recorded from the first n lines of a file carries that file's path and a line number in 1..n, and its key is the first match on that line |
| ValidateLocales.FileHitsComplete | scripts/validate_locales.py:31-39 | every line with a match contributes its key at that line's 1-based number |
| ValidateLocales.HitsSound | scripts/validate_locales.py:29-39 | every recorded reference was seen: some file has that path, and the line at that number has that key as its first match |
| ValidateLocales.HitsComplete | scripts/validate_locales.py:29-39 | every line of every file with a match is recorded |
| ValidateLocales.ReferencesSpec | scripts/validate_locales.py:29-39 | a key's list is non-empty; each of its locations is a line whose first match is that key; each such line of each file is in the list |
| ValidateLocales.LocsSound | scripts/validate_locales.py:37-39 | a location in a key's list comes from a reference to that key |
| ValidateLocales.LocsComplete | scripts/validate_locales.py:37-39 | every reference's location is in its key's list, and the key is in the dict |
| ValidateLocales.FileHitsInLineOrder | scripts/validate_locales.py:31-39 | the references of a file's first n lines are recorded with strictly increasing line numbers, the last at most n |
| ValidateLocales.InLineOrderPairwise | scripts/validate_locales.py:31-39 | references recorded in line order have, for any two, the earlier one on a strictly smaller line |
| ValidateLocales.LocsIncrease | scripts/validate_locales.py:37-39 | when references come in line order, each key's list of locations does too |
| ValidateLocales.FileLocsIncrease | scripts/validate_locales.py:31-39 | within one file, a key's locations have strictly increasing line numbers |
| ValidateLocales.LocsAppend | scripts/validate_locales.py:29-39 | scanning more files only appends to each key's list |
| ValidateLocales.UnusedEntries | scripts/validate_locales.py:56 | the unused entries are exactly the entries with no reference, in entry order, with their multiplicity in the locale file |
| ValidateLocales.UndefinedReferences | scripts/validate_locales.py:66 | the undefined references are exactly the referenced keys that are not entries, in dict key order |
| ValidateLocales.UndefinedReferencesDistinct | scripts/validate_locales.py:66 | the undefined references list each key once |
| ValidateLocales.Validate | scripts/validate_locales.py:44-78 | the two reports are the functions above; the exit status is 0 exactly when the defined keys and the referenced keys are the same set, and 1 otherwise |
| ValidateLocales.ReportsDisjoint | scripts/validate_locales.py:56-66 | no key is both an unused entry and an undefined reference |
| FindUnusedLocales.LinesWith | scripts/find_unused_locales.py:20-23 | a file's count for an entry is at most its number of lines: each line adds at most one |
| FindUnusedLocales.TotalLinesWith | scripts/find_unused_locales.py:31-34 | the count summed over files; `TotalLinesPositive` states when it is positive |
| FindUnusedLocales.FindUses | scripts/find_unused_locales.py:17-24 | the counts have one key per entry; each count is the number of lines containing the entry, times the number of times the entry is listed |
| FindUnusedLocales.CountLine | scripts/find_unused_locales.py:21-23 | one line bumps each entry's counter once per listing of that entry when the line contains it, and leaves every other counter and the key set unchanged |
| FindUnusedLocales.AddUses | scripts/find_unused_locales.py:33-34 | adding one file's counts changes no key set and adds each listed key's count |
| FindUnusedLocales.TotalUses | scripts/find_unused_locales.py:28-34 | the totals have one key per entry; each total is the number of lines, over all files, that contain the entry, times its multiplicity |
| FindUnusedLocales.FindUnused | scripts/find_unused_locales.py:27-35 | the result is the entries in first-occurrence order, filtered to those with no line containing them |
| FindUnusedLocales.ZeroTotals | scripts/find_unused_locales.py:35 | a total is zero exactly when no line contains the entry, whatever its multiplicity |
| FindUnusedLocales.LinesWithPositive | scripts/find_unused_locales.py:20-23 | a file's count for an entry is positive exactly when some line of it contains the entry |
| FindUnusedLocales.TotalLinesPositive | scripts/find_unused_locales.py:31-34 | the summed count is positive exactly when some line of some file contains the entry |
| FindUnusedLocales.FindUnusedSpec | scripts/find_unused_locales.py:35 | an entry is reported exactly when it is defined and no line of any file contains it; each is reported once, in first-occurrence order |
| FindUnusedLocales.ReportUnused | scripts/find_unused_locales.py:38-52 | the report is `findUnused` of the entries; the exit status is 0 exactly when every entry occurs in some line |
| FindUnusedLocales.ReferencedIsUsed | scripts/find_unused_locales.py:22 | a key that `getReferences` records occurs as a substring of some scanned line |
| FindUnusedLocales.SeenAtIsUsed | scripts/find_unused_locales.py:22 | a key recorded at a line of a file is contained in some scanned line |
| FindUnusedLocales.SubstringCheckReportsFewer | scripts/find_unused_locales.py:35 | every entry `find_unused_locales.py` reports is also reported as unused by `validate_locales.py` |
| FindUnusedLocales.ExampleLine | scripts/validate_locales.py:34 | on `f(L.FooBar, L.Baz)` the first reference is `FooBar` and the line contains `Foo` |
| FindUnusedLocales.SubstringMatchExample | scripts/find_unused_locales.py:22 | with entry `Foo` and the single line `f(L.FooBar, L.Baz)`, `validate_locales.py` reports `Foo` unused and `find_unused_locales.py` does not: the converse of `SubstringCheckReportsFewer` fails |

## Left out

- Reading files (`open`, `readlines`) is not modelled. The locale file and
  each scanned file are given as lists of lines.
- The directory walk `Path("src").rglob("*.lua")` is not modelled. The
  scanned files are given as a list with `Bindings.lua` first, in the order
  the walk yields them. An unreadable or missing file, which makes the
  script raise, is not modelled.
- Console output (`print`) is not modelled. The reports are returned as
  lists, in the order the scripts print them.
- `sys.exit(1)` is not modelled as an exit. `Validate` and `ReportUnused`
  return the exit status as an integer, with 0 for a normal end.
- `\w` in the reference pattern is modelled as ASCII letters, digits and
  `_`. Python's Unicode word characters outside ASCII are not modelled.
- `getReferences` stores each location as the text
  `f"{path} (line: {lineNum})"`. The model keeps the (path, line) pair
  instead, and `RenderInjective` shows that no information is lost.
- scripts/bindings_xml.py, locales/_upload.py and .scripts/upload_locales.py
  are not part of this model. They generate Bindings.xml and talk to the
  translation service over the network.
