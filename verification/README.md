# WSL Manager core, modelled in Dafny

WSL Manager is a Windows desktop application that drives `wsl.exe`. It lists the
installed Linux distributions and starts, stops, restarts, converts, exports,
deletes and updates them. This project models the parts of it that compute
something:

- **Byte filter** (`sanitizer.dfy`, module `Sanitizer`). `ExecuteWslCommandAsync` reads
  standard output in 4096-byte chunks and drops every 0x00 byte. `wsl.exe` writes
  UTF-16, so these NUL bytes are the high halves of its characters. The filtered
  bytes are then decoded as UTF-8.
- **Listing parser** (`listing.dfy`, module `Listing`). `ParseDistributionLine` turns one
  row of `wsl --list --verbose` into a `WslDistribution`, and `GetDistributionsAsync`
  runs it over every line. The online-catalogue parser of `GetAvailableDistributionsAsync`
  is modelled too.
- **Supporting text operations** (`text.dfy`, `int32_parse.dfy`, `seqs.dfy`). These are
  .NET's `Char.IsWhiteSpace`, `Trim`, `TrimStart`, `Split(…, RemoveEmptyEntries)` and
  `Contains`, plus `int.TryParse` for the VERSION column. Writing integers back out is
  modelled so that round trips can be stated.
- **Record** (`distribution.dfy`, module `Distributions`). This is `WslDistribution` and
  its `IsRunning` property.
- **Package-manager dispatch** (`package_manager.dfy`, module `PackageManagers`).
  `UpdateDistributionPackagesAsync` chooses the update command from `/etc/os-release`
  with a first-match, case-insensitive test.
- **Command façade** (`command_line.dfy` and `commands.dfy`, modules `CommandLine` and
  `WslCommands`). For each service method the model gives:
  - the argument string it hands to `wsl.exe`;
  - how Windows splits that string back into arguments;
  - the boolean or text the method returns for each outcome of the process.
- **Main view model** (`view_model.dfy`, module `MainViewModel`). It covers:
  - the two panels `IsEmptyState` and `HasDistributions`;
  - the `_isRefreshing` guard of the refresh;
  - replacement of the displayed list by the fetched one;
  - for each window command: the null-argument return, the set-default short cut, the
    service call made, the reload after success, the notice kinds, and `IsLoading`
    being lowered in `finally`.

Processes, the clock, the Documents folder and the service's replies are inputs to the
model:
- A process outcome is `Threw` or `Exited(reads, exitCode)`. `reads` is the sequence
  of chunks successive reads returned.
- The view model receives a `World`. It holds the reply of the command's service call,
  the list a reload fetched, the Documents folder and the timestamp.

The model follows the code on points that are easy to miss. The row parser blanks NUL
and tab before trimming. Start, stop and set-default report success without looking at
the exit code. Restart always reports success. Standard error never becomes an error
result.

## Model

| member | source | states |
|---|---|---|
| Sanitizer.ReadFiltered | Services/WslService.cs:606-620 | the collected bytes are all reads up to the first empty one, concatenated, with every 0x00 byte removed and every other byte kept in order |
| Sanitizer.AppendFiltered | Services/WslService.cs:612-619 | one pass over a buffer appends exactly its non-zero bytes, in order, to what was collected |
| Sanitizer.Received | Services/WslService.cs:610 | the loop consumes the reads before the first empty read, and no more |
| Sanitizer.StripNulChunks | Services/WslService.cs:610-620 | filtering read by read equals filtering the whole stream, however the stream is cut into reads |
| Sanitizer.StripNulAppend | Services/WslService.cs:610-620 | the filter commutes with concatenation |
| Sanitizer.StripNulContents | Services/WslService.cs:614-618 | the filter keeps every non-zero byte as often as it occurs and drops every 0x00 (multiset equality) |
| Sanitizer.StripNulNoNul | Services/WslService.cs:614-618 | a stream without 0x00 passes through unchanged |
| Sanitizer.StripNulIdempotent | Services/WslService.cs:614-618 | filtering twice is filtering once |
| Sanitizer.DecodeStripNul | Services/WslService.cs:614-625 | for ASCII bytes, dropping NUL bytes before decoding is the same as dropping NUL characters after it |
| Sanitizer.Decode | Services/WslService.cs:625 | one character per byte, and an ASCII byte decodes to the same code point |
| WslCommands.OutputOfUtf16 | Services/WslService.cs:606-625 | ASCII text written as UTF-16LE, cut into reads in any way, comes out of the filter and the decoder as the text itself |
| Int32Parse.TryParseInt32 | Services/WslService.cs:670 | a parsed VERSION value lies in the Int32 range; which tokens parse, and to what, is stated by the two lemmas below |
| Int32Parse.TryParseText | Services/WslService.cs:670 | white space, an optional `+` or `-`, digits (leading zeros allowed), white space and NULs parse to the signed value of the digits when it fits in Int32, and fail otherwise |
| Int32Parse.TryParseOnlyText | Services/WslService.cs:670 | conversely, every parsed token has that shape and the parsed value is the signed value of its digits |
| Int32Parse.ParseShowInt | Services/WslService.cs:670 | a decimal rendering parses back to its value exactly when the value fits in Int32; otherwise the parse fails |
| Int32Parse.NoDigitNoParse | Services/WslService.cs:670 | a token without digits never parses, so the version falls back |
| Int32Parse.VersionTokens | Services/WslService.cs:670 | "1" and "2" parse to 1 and 2, and "N/A" does not parse |
| Text.Trim | Services/WslService.cs:641 | String.Trim: the result is the slice of the input left after the white space at both ends is cut; it is empty exactly for all-white-space input, and otherwise neither starts nor ends with white space |
| Text.TrimPadded | Services/WslService.cs:222 | conversely, trimming a text padded with white space on both sides gives the text back, when it neither starts nor ends with white space |
| Text.Split | Services/WslService.cs:653 | Split with RemoveEmptyEntries: each piece is non-empty and holds no separator |
| Text.SplitConcat | Services/WslService.cs:653 | the pieces, concatenated, are the input with the separators removed |
| Text.ContainsTrim | Services/WslService.cs:641-644 | trimming neither creates nor loses an occurrence of a word that starts and ends with non-white-space |
| Distributions.IsRunningIff | Models/WslDistribution.cs:31 | IsRunning holds exactly when the state has seven characters that match R-u-n-n-i-n-g letter by letter, ignoring case |
| Distributions.RunningSpellings | Models/WslDistribution.cs:31 | "Running", "RUNNING", "running" and "rUnNiNg" all count as running |
| Distributions.OtherStatesNotRunning | Models/WslDistribution.cs:31 | "Stopped", "Installing", "Running " and "Run" do not count |
| Distributions.FreshNotRunning | Models/WslDistribution.cs:11-31 | a freshly constructed record has an empty name and state, and is not running |
| Distributions.IsRunningDependsOnStateOnly | Models/WslDistribution.cs:31 | changing name, version or default flag never changes IsRunning |
| Listing.WhiteSpaceLineDropped | Services/WslService.cs:635-636 | an all-white-space line yields no record |
| Listing.HeaderLineDropped | Services/WslService.cs:639-645 | a line holding NAME, STATE or VERSION yields no record, even with three columns or a default marker |
| Listing.HeaderWordCleaned | Services/WslService.cs:639-644 | the header test on the cleaned line agrees with the header test on the raw line |
| Listing.ContainsBlankControls | Services/WslService.cs:639-640 | replacing NUL and tab by spaces neither creates nor destroys an occurrence of a word free of space, tab and NUL |
| Listing.SplitBlankControls | Services/WslService.cs:639-653 | splitting the blanked line on space and tab is splitting the raw line on space, tab and NUL |
| Listing.FewColumnsDropped | Services/WslService.cs:653-656 | a line with fewer than three pieces (split on space, tab or NUL) yields no record |
| Listing.MarkerIffMarkedDefault | Services/WslService.cs:647-650 | the default flag is set exactly when the first character that is neither white space nor NUL is '*' |
| Listing.ColumnsFacts | Services/WslService.cs:650-664 | every column is free of space, tab and NUL, and the first one starts with a non-white-space character, so the empty-name return is never taken |
| Listing.ParseSomeIff | Services/WslService.cs:633-673 | a record comes out exactly when the line is not blank, holds no column title and has at least three columns |
| Listing.ParseDistributionLineSpec | Services/WslService.cs:633-673 | the record's name and state are the trimmed first two columns; the name is non-empty and both fields are clean; the version is the parsed third column, or 2 when it does not parse; the default flag is the leading '*'; records come out exactly in the ParseSomeIff case |
| Listing.RowRoundTrip | Services/WslService.cs:633-673 | a row laid out as wsl.exe prints it, marked or not, with any padding, parses to its name, state, version text as int.TryParse reads it, and marker |
| Listing.RecordRoundTrip | Services/WslService.cs:666-672 | printing a record with an Int32 version as a row and parsing that row gives the record back |
| Listing.ParseLines | Services/WslService.cs:37-50 | the loop keeps at most one record per line |
| Listing.ParseLinesSound | Services/WslService.cs:37-50 | each record returned is the parse of one of the lines |
| Listing.SplitJoinLines | Services/WslService.cs:32 | splitting on CR and LF with RemoveEmptyEntries gives back the lines, minus the empty ones |
| Listing.ParseListingJoin | Services/WslService.cs:32-50 | the records of a block of lines are the records of its lines, in order |
| Listing.HeaderLineHasNoRecord | Services/WslService.cs:644-645 | the column-title line of the listing yields no record |
| Listing.ListingRoundTrip | Services/WslService.cs:18-60 | a listing printed from printable records (title line, then one row each) is parsed back into exactly those records, in order |
| WslCommands.GetDistributions | Services/WslService.cs:18-60 | the list is empty when the command throws; otherwise there is at most one record per output line |
| WslCommands.GetDistributionsRoundTrip | Services/WslService.cs:18-60 | end to end, from UTF-16 output cut into any reads with any exit code, GetDistributionsAsync returns the records printed |
| Listing.OnlineName | Services/WslService.cs:567-574 | a name taken from a catalogue line is a non-empty word without space or tab |
| Listing.OnlineNamesWords | Services/WslService.cs:565-574 | every name the loop collects is such a word |
| Listing.ParseOnlineList | Services/WslService.cs:562-574 | the parser as written gives fewer names than there are lines, because the first non-empty line is always skipped |
| Listing.OnlineListHeaderFirst | Services/WslService.cs:562-574 | when the column titles are the first line, the parser as written lists exactly the catalogue's names, in order |
| Listing.OnlineListAsWrittenCatalog | Services/WslService.cs:565 | Skip(1) drops only the first non-empty line, so the first word of every later introduction line is reported as a name |
| Listing.CatalogNoteName | Services/WslService.cs:570-573 | the line "Install using 'wsl.exe --install <Distro>'." yields the name "Install" |
| Listing.OnlineListInstallLeak | Services/WslService.cs:565-574 | on the catalogue wsl.exe really prints, the parser as written reports "Install" ahead of the real names |
| Listing.HeaderIndex | Services/WslService.cs:571 | the index found is the first line mentioning NAME; when none is found, no line mentions it |
| Listing.ParseOnlineListCorrected | Services/WslService.cs:562-574 | the corrected parser also gives fewer names than lines, or none |
| Listing.OnlineListCorrectedCatalog | Services/WslService.cs:562-574 | whatever introduction precedes the column titles, the corrected parser lists exactly the catalogue's names, in order |
| Listing.OnlineListCorrectedReal | Services/WslService.cs:565-574 | on the real catalogue output the corrected parser reports only the real names |
| Listing.ParsedNamesWords | Services/WslService.cs:562-574 | every name either parser reports is a non-empty word |
| WslCommands.GetAvailableDistributions | Services/WslService.cs:550-583 | no names when the command throws; otherwise the names of the `Skip(1)` loop as written, each a non-empty word |
| WslCommands.GetAvailableDistributionsCorrected | Services/WslService.cs:550-583 | the same method with the column-title line located first: no names on a throw, otherwise non-empty words |
| WslCommands.AvailableOnRealCatalog | Services/WslService.cs:550-583 | on the catalogue the tool really prints, received in any cut of reads, the method reports "Install" ahead of the real names, and the corrected method exactly the real names |
| PackageManagers.Detect | Services/WslService.cs:472-506 | the family chosen is mentioned by the text, no family tested earlier is, and apt is chosen either for its own words or when nothing matches |
| PackageManagers.DetectIff | Services/WslService.cs:472-506 | a family is chosen exactly when the text mentions it (or, for apt, mentions nothing) and mentions no family tested earlier |
| PackageManagers.DetectIgnoresCase | Services/WslService.cs:473-497 | a text and its upper-case form select the same family |
| PackageManagers.DebianFamilyWins | Services/WslService.cs:473-478 | a text naming Ubuntu or Debian selects apt, whatever follows |
| PackageManagers.OpenSuseImpliesSuse | Services/WslService.cs:489-490 | every text that mentions "openSUSE" also mentions "SUSE" |
| PackageManagers.DetectEmpty | Services/WslService.cs:502-506 | an empty os-release text falls back to apt |
| PackageManagers.DetectDebian | Services/WslService.cs:473-477 | "ID=debian" selects apt |
| PackageManagers.ArchShadowsFedora | Services/WslService.cs:484-500 | a Fedora text that also holds "arch" (as in "search") selects pacman, because Arch is tested first |
| CommandLine.JoinRoundTrip | Services/WslService.cs:589-594 | an argument string built from intact words (bare or double-quoted) and single spaces is split by the Windows command-line rules into exactly those words |
| CommandLine.FeedJoin | Services/WslService.cs:589-594 | the same, after arguments already read |
| CommandLine.FeedArg | Services/WslService.cs:589-594 | one intact bare or quoted word is read as exactly its text |
| WslCommands.ArgumentsRoundTrip | Services/WslService.cs:69-513 | for each command, with names free of white space and quotes, and paths free of quotes that do not end in a backslash, `wsl.exe` receives exactly the words the method interpolated (the quoted ones without their quotes) |
| WslCommands.WordsIntact | Services/WslService.cs:69-513 | every word of every command's argument template survives the split |
| WslCommands.Succeeded | Services/WslService.cs:65-132 | success needs a completed process; start, stop and set-default succeed exactly when the process completes; the exit-code methods succeed exactly on exit code 0 |
| WslCommands.CompletionIgnoresExitCode | Services/WslService.cs:65-132 | start, stop and set-default report success for every exit code |
| WslCommands.NonZeroExitFails | Services/WslService.cs:234-543 | update, set-version, export, import, unregister, shutdown, install and the package update report failure for every non-zero exit code |
| WslCommands.CatchAll | Services/WslService.cs:65-132 | a `catch { return false; }` never lets an exception through, keeps a returned value, and turns an exception into false |
| WslCommands.CommandNeverRaises | Services/WslService.cs:65-132 | each command method, seen by its caller, never throws and returns the verdict `Succeeded` gives |
| WslCommands.RestartAttempt | Services/WslService.cs:97-116 | the restart's try block throws exactly when stop or start throws |
| WslCommands.RestartCatch | Services/WslService.cs:97-116 | the restart's catch gives false exactly when stop or start threw |
| WslCommands.Restart | Services/WslService.cs:65-116 | because stop and start catch everything, both always run, in that order, and restart returns true whatever either returned |
| WslCommands.GetDistributionInfo | Services/WslService.cs:215-228 | the fixed message when the command throws; otherwise the output with exactly its leading and trailing white space cut off (white space on both sides, none at either end of the result, empty exactly for all-white-space output), free of NUL |
| WslCommands.InfoIsPaddedText | Services/WslService.cs:215-228 | conversely, whenever the output is a text between white space with no white space at either end of the text, the method returns exactly that text |
| WslCommands.UpdatePlan | Services/WslService.cs:469-513 | no update command when reading os-release threw; otherwise an update of the same distribution |
| WslCommands.UpdatePlanFamily | Services/WslService.cs:472-506 | the update command belongs to the first family the os-release text mentions, or is apt |
| WslCommands.UpdatePackagesResult | Services/WslService.cs:462-543 | true exactly when os-release was read and the update command then exited with 0 |
| MainViewModel.PanelsExclusive | ViewModels/MainViewModel.cs:47-52 | the empty-state panel and the list panel are never both shown; while not loading exactly one is shown, and while loading neither is |
| MainViewModel.RefreshGuard | ViewModels/MainViewModel.cs:167-171 | while a refresh is in flight, a refresh changes nothing and calls nothing, whatever the service would answer |
| MainViewModel.OverlappingRefresh | ViewModels/MainViewModel.cs:164-174 | a second refresh started while the first one waits is dropped, and the waiting screen shows neither panel |
| MainViewModel.LoadEffect | ViewModels/MainViewModel.cs:173-226 | a refresh asks the service once. A fetched list replaces the displayed one entirely, and a failed fetch keeps it. Both flags end lowered and notices are only added |
| MainViewModel.LoadNotices | ViewModels/MainViewModel.cs:193-221 | a refresh adds an error exactly when the fetch threw, nothing more when silent, and otherwise information for an empty list and success for a non-empty one |
| MainViewModel.NullArgumentIgnored | ViewModels/MainViewModel.cs:232-235 | every command with a distribution parameter, invoked with null, changes nothing and calls nothing |
| MainViewModel.SetDefaultShortCircuit | ViewModels/MainViewModel.cs:416-428 | setting the current default as default calls nothing, leaves the list and IsLoading as they were, and only informs |
| MainViewModel.ConvertTarget | ViewModels/MainViewModel.cs:553-569 | the conversion asks for version 2 exactly when the distribution is at version 1 and for 1 otherwise, never for the version it already has |
| MainViewModel.InstallTargetsUbuntu | ViewModels/MainViewModel.cs:758-774 | the install command always installs "Ubuntu" |
| MainViewModel.ExportPathShape | ViewModels/MainViewModel.cs:614-616 | the export file ends in "{name}_backup_{timestamp}.tar" and sits in the Documents folder unless that file name is itself rooted |
| MainViewModel.RunCalls | ViewModels/MainViewModel.cs:237-270 | a command calls its own service method first; the reload follows exactly when the call returned true, the command is one that reloads, and no refresh is in flight |
| MainViewModel.LoadingEndsLowered | ViewModels/MainViewModel.cs:266-269 | every command that raises IsLoading ends with it lowered, whether the call returned true, false or threw |
| MainViewModel.DeleteLeavesLoading | ViewModels/MainViewModel.cs:656-712 | deletion never touches IsLoading itself; only its reload lowers it |
| MainViewModel.ShownList | ViewModels/MainViewModel.cs:179-187 | after any command, the displayed list is the list its reload fetched when a reload reached the service and got one, and otherwise the previous list |
| MainViewModel.ActKeepsIdle | ViewModels/MainViewModel.cs:222-226 | every command leaves an idle view model idle, with IsLoading and the guard lowered |
| MainViewModel.ActAddsNotices | ViewModels/MainViewModel.cs:164-861 | a command only ever adds notifications |
| MainViewModel.SessionEndsIdle | ViewModels/MainViewModel.cs:47-52 | from an idle start, after any sequence of commands the view model is idle and shows exactly one of its two panels |

## Left out

- Processes. Starting `wsl.exe`, reading its streams and waiting for it are replaced by an
  outcome value. Standard error is read by some methods and ignored by all, so it is left
  out.
- UTF-8 decoding is modelled byte for byte. ASCII bytes decode to themselves and every
  other byte to one replacement character. Multi-byte sequences are not modelled; the
  round trips are stated for ASCII text.
- Sanitizer.Decode: gives one character per byte, so a multi-byte sequence such as
  C3 A9 (one "é" in UTF-8) is not decoded as `Encoding.UTF8.GetString` would.
- Sanitizer.DecodeStripNul: holds only for ASCII bytes. With multi-byte UTF-8 it fails:
  C3 00 A9 filtered first decodes to "é", but decoded first it gives two replacement
  characters around the NUL.
- Int32Parse.TryParseInt32: `int.TryParse` uses the current culture. The model takes the
  signs to be `+` and `-`; a culture with another negative sign (U+2212 under sv-SE) is
  not modelled.
- `Char.IsWhiteSpace` is modelled as its fixed character set. Case-insensitive comparison
  is modelled as ASCII upper-casing, which covers all the words tested. `StartsWith("*")`
  is modelled as an ordinal test; culture-sensitive ignorable characters are left out.
- `Task.Delay` in restart and delete, `Debug.WriteLine`, the `Logger` calls and the
  texts of the notifications. Only the kind of each notification is kept.
- `OpenTerminal` and `OpenFileExplorer`. Their launch of Windows Terminal, with a `cmd.exe`
  or Explorer fallback, is outside the model. The view model only records the call and
  whether it threw.
- ImportDistributionAsync has no caller in the view model. Its argument string is covered
  by WslCommands.ArgumentsRoundTrip, and its exit-code result by WslCommands.Succeeded.
- WslCommands.ArgumentsRoundTrip covers names without white space or quotes, and paths
  without quotes that do not end in a backslash. The methods interpolate a name unquoted
  (except for unregister and package update), so a name with a space really does reach
  `wsl.exe` as two arguments. A quoted path that ends in a backslash escapes its closing
  quote: the import of `n` into `D:\WSL\` from `f.tar` is written
  `--import n "D:\WSL\" "f.tar"`, and `wsl.exe` receives three arguments, the last being
  `D:\WSL" f.tar`, instead of four.
- CommandLine models the Windows argument rules for spaces, tabs, double quotes and
  backslashes. The `""` inside a quoted argument (an escaped quote in newer runtimes) is
  not modelled, because no argument string of the application contains one.
- The view model runs one command at a time. Overlap between commands awaiting the
  service is left out, except for the case the source guards against: a second refresh
  while one is fetching.
- The export timestamp comes from `DateTime.Now` and the folder from
  `Environment.GetFolderPath`. Both are inputs.

## Findings

| source | as written | input that shows it | evidently intended | confidence | as-written member | corrected member |
|---|---|---|---|---|---|---|
| Services/WslService.cs:565 | `lines.Skip(1)` skips the first non-empty line, assuming it is the column-title line | `wsl --list --online` prints two lines of introduction before the titles, and the second reads "Install using 'wsl.exe --install <Distro>'." | skip everything up to and including the column-title line, so only catalogue rows give names | medium, not executed | Listing.OnlineListInstallLeak | Listing.OnlineListCorrectedReal |

The corrected parser, `Listing.ParseOnlineListCorrected`, locates the first line that
mentions NAME and takes names only from the lines after it. When no line mentions NAME, it
skips the first line as `GetAvailableDistributionsAsync` does. `WslCommands.GetAvailableDistributions`
keeps the parser as written; `WslCommands.GetAvailableDistributionsCorrected` uses the
corrected one, and `WslCommands.AvailableOnRealCatalog` compares the two end to end.
