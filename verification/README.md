# yegonesh launcher core in Dafny

yegonesh is a program launcher. It scans the directories on `$PATH` for
executables and reads a usage history of `<calls>\t<name>` lines, ranked by
calls with the highest first. It shows the ranked names ahead of every newly
discovered program in `dmenu`, launches the chosen line, and rewrites the
history with one more call for the launched program.

This project models the core of `main.go`:

- the `Command` record and its in-place score sort;
- directory scanning (`fetchExecutables`, `scanPath`);
- the history store (`readHistory`, `writeHistory`);
- the menu streams (`historyNameStream`, `multiplexMenuStreams`);
- `dmenuArgs`;
- the first-space split in `launchCommand`.

Files:

- `wrappers.dfy`: `Option` and `Result`.
- `text.dfy` (module `Text`): the Go library behaviour the core relies on. This covers `strings.TrimSpace`, `strings.Split` and `strings.SplitN(.., 2)` with a one-character separator, byte-wise string order, `strconv.ParseInt(s, 10, 64)`, `uint64(...)`, `+= 1` on `uint64`, and `%d`.
- `commands.dfy` (module `Commands`): `Command` as a class whose `calls` field is updated in place, and `Record` as its value. `Commands` becomes an array of pointers, with `Swap` and the `ByScore` sort (plain or reversed) done in place.
- `scan.dfy` (module `Scan`): `fetchExecutables` over a file system given as a value, and `scanPath` with its split, its collector loop and its in-place `sort.Strings`.
- `history.dfy` (module `History`):
  - `readHistory` is split into line scanning, per-line parsing, a read loop that creates fresh commands, and the ranking sort.
  - `writeHistory` is a loop that increments the first match in place and writes each line; when nothing matched, it appends a new command with one call.
  - Round-trip and bookkeeping lemmas, examples matching the repository's tests, and the finding below.
- `menu.dfy` (module `Menu`): `historyNameStream`, `multiplexMenuStreams`, `dmenuArgs` and the `launchCommand` split.

Modelling choices worth knowing before the table:

- **Ranking fixes no order among equal counts.** `readHistory` ranks with `sort.Sort(sort.Reverse(...))`, and `sort.Sort` is not stable. The model therefore promises only that counts never increase along the result.
- **`writeHistory` is modelled with the launch used up for good.** After its first match, the source clears `lastCommand` to `""` and keeps comparing names against it, so a later command named `""` gains a call too. `History.WriteHistory`, `History.WriteCommand`, `History.Increment` and `History.Written` model the evidently intended update: only the first command with the launched name gains a call. The loop exactly as written is `History.IncrementAsWritten` / `History.WrittenAsWritten`, and the two are compared under Findings.
- **`scanPath` gathers through a single collector.** In the source, the per-directory goroutines append to one shared slice without a lock. The model gathers the directories one after another into one collector. The result is sorted afterwards, so it does not depend on the gathering order (`Scan.ScanPathDeterministic`).
- **A malformed history line ends the read with an error.** A count that is not an integer makes the source panic through `check` (main.go:105-106). A line without a second tab field makes it panic on the out-of-range index `s[1]` (main.go:107). The model returns the first such line and its cause instead.

## Model

| member | source | states |
|---|---|---|
| Commands.Command.constructor | main.go:17-20 | a command holds the given name and count |
| Commands.Swap | main.go:28-30 | exchanges two positions, leaves every other position, permutes the contents |
| Commands.ByScoreLess | main.go:34-36 | `ByScore.Less`: fewer calls come first (definition; its order is what `SortByScore` establishes) |
| Commands.Less | main.go:111 | the `Less` in use: `ByScore`'s, or with `sort.Reverse` the same with its arguments exchanged (definition) |
| Commands.SortByScore | main.go:32-36 | `sort.Sort` over `ByScore` (or its `Reverse`) leaves no command whose calls are `Less` than an earlier one's, and permutes the pointers |
| Commands.InsertInto | main.go:34-35 | one insertion step extends the prefix ordered by `Less`, permutes, and leaves the positions after the step alone |
| Commands.AdjacentSortedBySorted | main.go:34-35 | neighbours ordered by `Less` give the whole sequence ordered |
| Commands.SnapshotPermutation | main.go:111 | rearranging pointers rearranges their values the same way |
| Commands.SnapshotSplice | main.go:111 | taking one pointer out of a sequence takes its value out of the values |
| Commands.DistinctFromMultiset | main.go:111 | a pointer sequence with no repeated object has distinct entries |
| Commands.SnapshotFields | main.go:124-130 | commands whose fields equal given records have those records as values |
| Commands.ByScoreSortExample | main.go:32-36 | sorting vim 2, nano 0, emacs 1 by score gives nano, emacs, vim |
| Text.TrimLeft | main.go:103 | drops a prefix of white space only, and leaves no leading white space |
| Text.IsSpace | main.go:103 | the characters `unicode.IsSpace` accepts: tab through carriage return, space, U+0085, U+00A0, U+1680, U+2000-U+200A, U+2028, U+2029, U+202F, U+205F, U+3000 (definition) |
| Text.TrimRight | main.go:103 | drops a suffix of white space only, and leaves no trailing white space |
| Text.Lead | main.go:103 | the length of the leading white-space run |
| Text.TrimLeftLead | main.go:103 | trimming the left drops exactly the leading white-space run |
| Text.TrimSpace | main.go:103 | the result is the slice of the input after its leading white-space run, with only white space dropped after it, and neither starts nor ends with white space |
| Text.TrimSpaceKeeps | main.go:103 | a trimmed string is left unchanged |
| Text.IndexOf | main.go:104 | the first position of the character |
| Text.Split | main.go:67 | at least one part, no part holds the separator, joining the parts gives the input |
| Text.SplitJoin | main.go:104 | splitting undoes joining separator-free parts |
| Text.SplitCons | main.go:104 | a leading separator-free field splits off as the first part |
| Text.SplitFirst | main.go:206 | `SplitN(s, " ", 2)`: one part exactly when there is no separator, the first part is separator-free, joining gives the input |
| Text.LessEqTotal | main.go:82 | string order is total |
| Text.LessEq | main.go:82 | byte-wise string order, the order `sort.Strings` uses (definition; total, transitive and antisymmetric by the lemmas beside it) |
| Text.LessEqTransitive | main.go:82 | string order is transitive |
| Text.LessEqAntisymmetric | main.go:82 | string order is antisymmetric |
| Text.AdjacentSortedIsSorted | main.go:82 | ordered neighbours make a sorted sequence |
| Text.SortedUnique | main.go:82 | two sorted arrangements of one multiset are equal |
| Text.Decimal | main.go:121 | `%d` writes at least one digit and no leading zero |
| Text.DigitsValueDecimal | main.go:121 | the digits `%d` writes denote the number |
| Text.ParseInt | main.go:105 | anything but an optional sign and at least one digit is a syntax error; a numeral is accepted, with its signed value, exactly when that value is in the `int64` range, and is a range error otherwise |
| Text.ParseIntDecimal | main.go:105 | `ParseInt` reads back what `%d` writes for every `int64`-sized count |
| Text.ToU64 | main.go:107 | `uint64(calls)` keeps non-negative values and adds 2^64 to negative ones |
| Text.ToU64Modular | main.go:107 | the conversion is reduction modulo 2^64 |
| Text.Inc | main.go:126 | `Calls += 1` adds one and wraps to zero at the `uint64` ceiling |
| Text.IncModular | main.go:126 | the increment is addition modulo 2^64 |
| Scan.ExecutableNames | main.go:49-53 | keeps exactly the names of entries with an execute bit (mode & 0111) |
| Scan.IsExecutable | main.go:50 | an entry is a program when its mode has any of the bits 0111 (definition) |
| Scan.Listing | main.go:48 | a directory that cannot be read lists nothing, as the ignored `ReadDir` error does (definition) |
| Scan.Gathered | main.go:69-78 | every path directory's executables, one directory after another (definition; `GatheredAppend` and `GatheredHas` give its properties) |
| Scan.ExecutableNamesAppend | main.go:49-53 | the filter keeps listing order |
| Scan.FetchExecutables | main.go:44-58 | an unreadable directory gives nothing; a readable one gives exactly its executable entries |
| Scan.GatheredAppend | main.go:69-78 | gathering distributes over concatenated directory lists |
| Scan.GatheredHas | main.go:69-78 | every directory's executables are among those gathered |
| Scan.ScanKeepsDuplicates | main.go:72-75 | a name executable in two path directories is gathered at least twice |
| Scan.SortStrings | main.go:82 | `sort.Strings` sorts in place and permutes |
| Scan.InsertInto | main.go:82 | one insertion step extends the sorted prefix, permutes, and leaves the positions after the step alone |
| Scan.Exchange | main.go:82 | exchanges two array positions and leaves the rest |
| Scan.GatherAll | main.go:69-78 | the collector holds every directory's executables, in path order |
| Scan.ScanPath | main.go:61-90 | the output is sorted and is a permutation of every path directory's executables |
| Scan.ScanPathDeterministic | main.go:61-90 | the output depends only on the path and the directory contents, not on which scan finishes first |
| Scan.FetchExecutablesExample | main.go:50 | entries with modes 0755 and 0700 are programs, 0644 is not, a missing directory lists nothing |
| Scan.ExamplePathSplit | main.go:67 | "/usr/bin:/bin:/missing" names three directories |
| Scan.ExampleGathered | main.go:69-75 | gathering those directories gives emacs, vim, vim |
| Scan.ScanPathExample | main.go:61-90 | scanning that path emits emacs, vim, vim |
| Scan.ExampleSorted | main.go:82 | emacs, vim, vim is sorted |
| History.DropCR | main.go:102 | drops the final character exactly when it is a carriage return, and nothing else |
| History.ScanLines | main.go:101-102 | no line holds a newline; empty content has no lines; content without carriage returns is its lines joined by newlines, with or without a final newline |
| History.LinesStep | main.go:101-102 | the join property of the scanned lines carries over one more line |
| History.ParseRecord | main.go:103-107 | a line is accepted exactly as the record of its trimmed tab fields: the count parsed from the first field and converted to `uint64`, the name the second; a count that is not an integer fails (checked before the name); a trimmed line without a tab fails for want of a name field, and only such a line does |
| History.ParseHistory | main.go:101-108 | a successful read has one record per line; a failure names a line of the file |
| History.Parsed | main.go:102-107 | one outcome per line |
| History.Collect | main.go:102-108 | a successful read has one record per line |
| History.CollectAt | main.go:102-108 | record `i` of a successful read is line `i`'s record |
| History.CollectOk | main.go:102-108 | a successful read holds every line's record, in line order |
| History.CollectStop | main.go:105-107 | a failed read names a bad line whose predecessors read |
| History.CollectFirstError | main.go:105-107 | a failed read names the first bad line and its cause |
| History.CollectAllOk | main.go:102-108 | when every line parses, the read succeeds |
| History.CollectErr | main.go:106 | a bad line fails the whole read, whatever follows |
| History.ReadHistory | main.go:92-114 | a missing file gives no commands; otherwise it fails exactly when the content has a bad line, naming it; a success holds distinct fresh commands that are a permutation of the file's records, ranked by calls with the highest first |
| History.ReadCommands | main.go:101-108 | the read loop creates one fresh command per record, in file order, and stops at the first bad line |
| History.Rank | main.go:111 | `sort.Sort(sort.Reverse(ByScore))` permutes the same distinct commands so that calls never increase |
| History.FirstMatch | main.go:124-125 | the first position holding the name, or none |
| History.Format | main.go:120-122 | `"%d\t%s\n"` of calls and name (definition; `ParseRecordLine` and `ScanLinesFormat` read it back) |
| History.Render | main.go:120-130 | the file text: each record's line, in order (definition; `WriteThenRead` reads it back) |
| History.Increment | main.go:124-128 | keeps length and names; an empty launch changes nothing |
| History.IncrementFirstOnly | main.go:124-128 | only the first command with the launched name gains a call |
| History.Written | main.go:124-134 | the incremented commands in their given order (not re-ranked), then `{last, 1}` exactly when no command had that name |
| History.WriteHistory | main.go:116-136 | increments the first match in place, and writes exactly the rendered written records |
| History.WriteLines | main.go:124-130 | each command takes its turn's value; the loop writes every turn's line and returns what is left of `lastCommand` |
| History.WriteCommand | main.go:125-129 | one turn: a match gains a call and uses up the launch; the command's line is written |
| History.PendingFirstMatch | main.go:125-127 | the launch stays pending until its first match has been passed |
| History.TurnIsIncrement | main.go:124-128 | each turn gives the incremented record |
| History.EmittedLines | main.go:129 | the loop's text is the rendering of its turns' records |
| History.SweepIsIncrement | main.go:124-130 | the loop increments exactly the first match, writes the incremented lines, and leaves the launch pending exactly when nothing matched |
| History.IncrementAt | main.go:124-128 | record `i` after the update, while no earlier record matched |
| History.RenderWritten | main.go:129-134 | the file is the incremented lines, then the new command's line when there is one |
| History.ParseRecordLine | main.go:103-107 | a line written by `%d\t%s` parses back to its record |
| History.RenderAppend | main.go:121 | rendering distributes over concatenation |
| History.ScanLinesFormat | main.go:101-102 | scanning a written line yields it whole |
| History.RenderCons | main.go:121 | rendering a leading record prepends its line |
| History.LinesCons | main.go:121 | the lines of a leading record come first |
| History.ScanLinesRender | main.go:101-102 | scanning a rendered file gives its lines |
| History.WriteThenRead | main.go:92-136 | reading a rendered history gives exactly the records written, in order, when names are non-empty, free of tabs and newlines, not ending in white space, and counts fit `int64` |
| History.WrittenReadsBack | main.go:92-136 | what `writeHistory` writes is what the next `readHistory` parses |
| History.TotalCallsUpdate | main.go:126 | replacing one count changes the total by the difference |
| History.WrittenRecordsOneLaunch | main.go:124-134 | one write adds exactly one call in total (below the `uint64` ceiling) |
| History.WrittenKeepsNamesUnique | main.go:124-134 | one record per name is preserved by a write |
| History.WriteHistoryExample | main.go:116-136 | launching vim then nano over emacs 3, vim 2 writes "3\temacs\n3\tvim\n1\tnano\n" |
| History.RenderThree | main.go:121 | three records render as their three lines |
| History.FormatDigit | main.go:121 | a one-digit count's line |
| History.FormatExamples | main.go:121 | the three lines of the write example |
| History.ReadHistoryExample | main.go:92-108 | "2\tvim\n3\temacs\n1\tnano\n" reads as vim 2, emacs 3, nano 1 |
| History.ExampleRender | main.go:121 | those records render as that file |
| History.ExampleLines | main.go:121 | the three lines of the read example |
| History.ExampleStorable | main.go:103-107 | those records survive a write and read |
| History.RankExample | main.go:111 | ranking them gives emacs 3, vim 2, nano 1 |
| History.RankThree | main.go:111 | three strictly decreasing counts have one ranking |
| History.IncrementAsWritten | main.go:124-128 | the source's update loop, with the target cleared to "" after a match, keeps the length |
| History.PendingAsWritten | main.go:124-132 | as written, `lastCommand` after the loop is the launch or ""; it is still the launch when no command has that name |
| History.WrittenAsWritten | main.go:124-134 | as written, the records written are the loop's records, then at most one more |
| History.SplitEmptyField | main.go:104 | "4\t\tx" splits into "4", "", "x" |
| History.EmptyNameReadable | main.go:103-107 | the line "4\t\tx" reads as a command named "" with 4 calls |
| History.EmptyNameLine | main.go:103-107 | the same line, given as a parameter, reads as "" with 4 calls |
| History.EmptyNameFields | main.go:103-104 | that line trims to itself and splits into "4", "", "x" |
| History.CountFour | main.go:105-107 | "4" parses as 4 and converts to 4 |
| History.ParseRecordFields | main.go:103-107 | a line whose trimmed tab fields are a parsable count and a name reads as that record |
| History.AsWrittenIncrementsTwice | main.go:124-128 | as written, launching vim over vim 5 and "" 4 increments both; the corrected update increments vim only |
| History.AsWrittenUntouched | main.go:124-128 | with no "" names, a cleared target changes nothing |
| History.IncrementSkips | main.go:124-125 | past a non-matching command the update works on the rest |
| History.AsWrittenAgrees | main.go:124-134 | the source's loop and the corrected one write the same records whenever no command is named "" |
| History.AsWrittenHit | main.go:124-134 | both loops agree when the first command is the launched one |
| History.AsWrittenHead | main.go:124-134 | as written, a first-command match touches nothing after it |
| History.WrittenHead | main.go:124-134 | corrected, a first-command match touches nothing after it |
| History.WrittenSkips | main.go:124-134 | past a non-matching command, the written records are that command then the rest's |
| History.AsWrittenSkips | main.go:124-134 | the same for the source's loop |
| Menu.NameStream | main.go:162-171 | `historyNameStream` emits each command's name, in order, no more and no fewer |
| Menu.Unseen | main.go:151-155 | keeps exactly the discovered names not seen, in order |
| Menu.Multiplex | main.go:138-160 | every history name first, in order, then the discovered names not among them |
| Menu.UnseenStep | main.go:151-155 | one more discovered name is kept exactly when unseen |
| Menu.UnseenNoRepeats | main.go:151-155 | the filter introduces no repeats |
| Menu.MergedMenu | main.go:138-160 | the menu lists every name from either source, ranked names precede all new ones, and there are no repeats when neither source repeats |
| Menu.MultiplexExample | main.go:138-160 | history vim, emacs, neovim merged with emacs, nano, vim gives vim, emacs, neovim, nano |
| Menu.DmenuArgs | main.go:194-203 | the arguments after the first "--" past the program name, or none when there is none |
| Menu.LaunchSplit | main.go:206-208 | the program is everything up to the first space; the raw remainder, untokenised, is the single argument, or there is no argument without a space |
| Menu.LaunchSplitUnique | main.go:206-208 | a space-free name, a space and a rest split back into that name and rest |
| Menu.LaunchSplitExample | main.go:206-208 | "st -e top" runs st with the single argument "-e top" |

## Left out

- Goroutines, channels and `sync.WaitGroup` are left out. Each channel is the finite sequence it carries. `scanPath` gathers the directories one after another, and its unsynchronised shared `append` is not modelled.
- File I/O is left out:
  - `readHistory` takes the file content, or `None` for a file that cannot be opened.
  - `writeHistory` returns the text it writes.
  - `os.Create` failure (a panic via `check`) and `f.Close` are not modelled.
- `check`, and the out-of-range panic of `s[1]`, are modelled as the error results of the read path. `panic` itself, and process termination, are left out.
- `runDmenu`, `getConfigDir`, `main`, `exec.LookPath` and the process start in `launchCommand` are external collaborators. Only the `SplitN` step of `launchCommand` is modelled.
- `ioutil.ReadDir`'s sorting of a directory by name is left out: a listing is given in whatever order the file system value holds. `scanPath` sorts afterwards, so its result does not depend on listing order.
- `bufio.Scanner`'s 64 KiB line limit is left out.
- Strings are sequences of code points. No UTF-8 validity check is modelled; comparing code points orders strings as Go's byte-wise comparison does.
- `Commands.Len` is the sequence length.
- History.WriteHistory: requires the command objects to be distinct, as `readHistory` produces them. The effect of one object listed twice (aliasing) is not modelled.
- History.WriteHistory: models the corrected update, not the loop as written. A command named "" after the first match is left alone, where the source increments it. With `lastCommand == ""`, the model changes nothing, where the source increments every command named "". `main` calls `writeHistory` only with a non-empty command (main.go:244-249). The source's loop is `History.IncrementAsWritten`, and `History.AsWrittenAgrees` proves both write the same records when no command is named "".
- History.ReadCommands: each line's parse outcome is computed before the read loop rather than inside it. Parsing is pure, so the outcome is the same.
- Menu.DmenuArgs: requires the argument list to hold the program name, as `os.Args` always does.
- History.WriteThenRead: a count of 2^63 or more is written by `%d` but rejected by `ParseInt` on the next read. The round trip is stated only for counts that fit `int64`.

## Findings

| source | as written | input that shows it | evidently intended | confidence | as-written member | corrected member |
|---|---|---|---|---|---|---|
| main.go:124-128 | after the first match, `lastCommand` is cleared to `""`, and the loop keeps comparing names against it, so a later command named `""` also gains a call | `writeHistory` over the commands vim 5 then "" 4 with vim launched, which is how `readHistory` ranks the file "5\tvim\n4\t\tx\n" (its second line reads as a command named ""): both vim and "" are incremented, and one launch adds two calls | only the first command with the launched name gains a call; the launch is then used up | not executed | History.AsWrittenIncrementsTwice | History.IncrementFirstOnly |
