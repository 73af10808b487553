# yafc: proofs about an FTP client

Dafny models of the parts of yafc that compute: pattern matching, option scanning, path and
argument handling, the directory cache, the protocols on its connections, list sorting and file
modes. Each module follows one source file or one function family. Loops and structures that the
source changes in place are methods and classes here; each is proved against a function, and what
the source promises is proved about that function.

`dafny verify dfyconfig.toml` checks everything.

| module | what it is about |
|---|---|
| `Bracket`, `PatternScan`, `GlobLanguage`, `GlobMatch`, `GlobTheorems` | the recursive matcher of lib/fnmatch.c against the language of a pattern |
| `SpelledList`, `SpelledPattern` | what patterns denote as they are written, apart from all scanning |
| `Getopt`, `SpelledOptions` | the resumable, permuting option scanner of lib/getopt.c over whole runs, and command lines as they are written |
| `PathCollapse` | path normalisation by deletion in one buffer against resolution on a stack |
| `DirCache` | the directory cache, its marks and its flush, against the server, over whole sessions |
| `MkPath` | making a path with all its levels |
| `SecureChannel` | protected data in frames, from writes to reads |
| `ReplyReader` | control connection replies, telnet commands included |
| `LinkList` | the doubly linked list and its bubble sort |
| `ModeChange` | the chmod compiler against the meaning of its clauses |
| `CommandLine`, `SpelledLine` | quoting, joining, cutting and unquoting of command lines, and lines as they are written |
| `Url` | RFC 1738 encoding, printing and parsing of URLs |
| `AsciiMode` | line ends in ASCII transfers |
| `CString`, `Sequences` | C strings, and sequence facts shared by all |

## Where the code and its promises differ

Each point names the lemmas that show it: an input, a condition that is exact, or both.

- Inputs and exact condition. Range ends of a bracket list are compared as signed characters, the tested
  character as an unsigned one, so that bytes above 127 are never found and ranges with one such end
  hold the wrong ones (`Bracket.HighByteNotFound`, `Bracket.LowByteFound`; `Bracket.HitsExact`,
  `Bracket.ListExact`).
- Inputs and exact condition. A bracket list is left too early when the character hit is followed by
  backslashes and a `]`; a negated list is then taken for a literal `[` only if the skip runs off
  the end; lists without an end or with a dangling escape are judged by where the skip ends
  (`Bracket.EscapedBracketStopsEarly`, `Bracket.NegatedListTakenForLiteral`,
  `Bracket.UnclosedListTakenForClosed`; `Bracket.ListExact`, `Bracket.RegularListExact`).
- Inputs and exact condition. A star does not try what follows it at the end of the string, and takes
  a `?(` behind it for a `?` (`GlobTheorems.NegatedGroupBehindStar`,
  `GlobTheorems.OptionalGroupBehindStar`, `GlobTheorems.GroupsBehindStar`; `GlobTheorems.StarExact`,
  `GlobTheorems.OptionalGroupExact`).
- Input and exact condition. Collapsing a relative path cancels `..` against `..`, so that `../../b`
  becomes `b` (`PathCollapse.TwoLevelsCancel`; `PathCollapse.CollapsedRelative`).
- Input and exact condition. A reply is broken off at an inner line that reads as the number -1,
  because ftp_gets returns -1 for a failure (`ReplyReader.MinusOneBreaksOff`; `ReplyReader.ReplyExact`).
- Inputs and exact condition. In a chmod clause an x beside an X can be lost, and a letter beside a
  copied group is lost or disturbs the copying (`ModeChange.ExecLost`, `ModeChange.LetterBesideCopyLost`,
  `ModeChange.LetterBesideCopyKeeps`; `ModeChange.ClauseAlways`).
- Input and exact condition. mode_compile keeps the first and the last clause only
  (`ModeChange.MiddleClauseDropped`; `ModeChange.TextExact` for the letters r, w, x, s and t, with a
  sufficient condition for all clauses in `ModeChange.TextIdle`).
- Input and exact condition. Renaming a directory leaves what is cached at or below its old path
  (`DirCache.RenamedDirStaysCached`; `DirCache.RenameDirExact`).
- Input and exact condition. path_absolute takes a path of fewer than three characters for a relative
  one, which ftp_mkpath remembers (`MkPath.ShortPathMistaken`; the last clause of
  `MkPath.Client.MakePath`).
- Input and exact condition. ftp_mkpath promises 1 if a directory was created, and tells of the last
  level only (`MkPath.SecondLevelRefused`; the third clause of `MkPath.Client.MakePath`).
- Inputs and exact condition. A printed URL loses apostrophes, and an at sign in a directory
  is taken for the end of a user when none is printed (`Url.ApostropheLost`, `Url.AtSignMistaken`;
  `Url.PrintedParsesExactly`).
- Input and exact result. A file that ends in CR loses it in an ASCII transfer (`AsciiMode.LastCrLost`;
  `AsciiMode.SentReceived`; the other direction, with its condition, is `AsciiMode.ReceivedSent`).
- No promise is broken. list_sort never sets its bound `last`, since the loop ends first
  (src/libmhe/linklist.c:124-130); `last == null` is a loop invariant of `LinkList.List.Pass`.

## How things are modelled

- Strings are sequences of characters below 256; C strings end before their NUL. Where the source
  edits a buffer in place (path_collapse, strqsep, the reply buffer, argv) the model has an array.
- The reader and the writer of a notation share its scanners here. What a notation means is therefore
  also said without them: patterns, option lines, command lines, URLs, replies and chmod clauses are
  given as they are written (the modules named Spelled, and lemmas on pieces in the others), and the
  models are proved to take them so.
- mode_t is the set of its one bits: `&`, `|`, `& ~` and shifts are operations on such sets.
- The FTP server is its directory listings (`DirCache`) or its set of directories and the
  levels it refuses to make (`MkPath`). The security mechanism is a pair of functions that are inverse up to the buffer size. Sockets take
  and give any part of what they are asked for. The clock is a parameter that says whether an
  entry is too old. umask(2) is a parameter.

## Model

| member | source | states |
|---|---|---|
| `Bracket.BrackMatch` | lib/fnmatch.c:370-571 | the one-pass loop over a bracket list, run to its verdict: stop at the first item that holds the character and skip to the closing bracket, or read on to the end; SpelledList.SpelledVerdict says of any written list what that verdict is |
| `Bracket.SkipMatched` | lib/fnmatch.c:548-571 | after a hit: how the rest of the list is skipped, and the position behind `]` |
| `Bracket.TakeNext` | lib/fnmatch.c:395-543 | one item of a list, with its range and its escapes |
| `Bracket.ListExact` | lib/fnmatch.c:370-571 | every list, closed or not, negated or not, free of the POSIX forms, and every character: the one-pass verdict is that of "read the whole list, test whether the bytes of an item hold the character, negate" if and only if the list is not misjudged for it; Misjudged says when it is: a closed list holds the character and no item hits, or the list behind the hit is misread, which Misread decides on the backslashes and brackets of the text |
| `Bracket.RegularListExact` | lib/fnmatch.c:370-571 | a list is regular, misjudged for no character, if and only if the two verdicts agree on all characters |
| `Bracket.HitsExact` | lib/fnmatch.c:530-540 | an item: the comparison of signed range ends with an unsigned character is the one of bytes if and only if the character is below 128 and not just one end is above it on the wrong side, or it is above and not in the range |
| `Bracket.AsciiListExact` | lib/fnmatch.c:370-571 | a list of characters below 128 is misjudged, for any character, behind a hit only |
| `Bracket.TameIsRegular` | lib/fnmatch.c:370-571 | in a pattern of characters below 128 without backslashes, POSIX forms and a last `-`, every list is regular |
| `Bracket.HighByteNotFound` | lib/fnmatch.c:539 | a list that names the byte E9 does not match it |
| `Bracket.LowByteFound` | lib/fnmatch.c:539 | a range from the byte E9 to z matches a |
| `Bracket.SkipRunsOff` | lib/fnmatch.c:548-569 | skipping finds no `]` if and only if every one left is escaped, counted by the backslashes in front of it, and then runs off the end if and only if the end is not |
| `Bracket.AfterHitTail` | lib/fnmatch.c:545-571 | how the skip behind a hit ends against how the list ends, in all cases |
| `Bracket.SkipFollowsReading` | lib/fnmatch.c:548-569 | skipping from a place between items ends where reading the items ends |
| `Bracket.SlashParity` | lib/fnmatch.c:548-569 | starting the skip one backslash late exchanges the outcomes of an even and an odd run of backslashes |
| `Bracket.EscapedBracketStopsEarly` | lib/fnmatch.c:548-569 | `[a\]b]`: on a hit the code goes on at 4 where the list ends at 6 |
| `Bracket.NegatedListTakenForLiteral` | lib/fnmatch.c:545-571 | `[![\\]` (two backslashes) on `[`: a closed negated list that holds the character, and the code matches |
| `Bracket.UnclosedListTakenForClosed` | lib/fnmatch.c:548-569 | `[a\]` is not closed, and on `a` the code takes it for a closed list |
| `Bracket.NegatedListStaysRight` | lib/fnmatch.c:545-571 | `[!a\]b]` on `a`: the escaped `]` does no harm in a negated list |
| `Bracket.EscapedBracketFirst` | lib/fnmatch.c:395-571 | `[\]a]` holds an escaped `]` and is read rightly for every character |
| `Bracket.VerdictBounds` | lib/fnmatch.c:370-571 | a match goes on inside the pattern, never before the list |
| `PatternScan.PatScan` | lib/fnmatch.c:593-640 | the scan for the end of a group or of one alternative, with both nesting counters |
| `PatternScan.ScanFindsFirstCut` | lib/fnmatch.c:593-640 | without brackets the scan finds the first unnested `)` (or `\|`): the depth between is balanced and no earlier place is |
| `PatternScan.AltInsideList` | lib/fnmatch.c:708-727 | the scan for an alternative stops inside the group, and the group ends where it did when the scan goes on behind a `\|` |
| `GlobLanguage.GroupUnfolds` | lib/fnmatch.c:697-728 | `*(L)` and `+(L)`: a string of zero or more (one or more) members of L is no member, or a member and again the group |
| `GlobLanguage.GroupOnce` | lib/fnmatch.c:730-754 | `?(L)` and `@(L)`: at most one member, exactly one member |
| `GlobLanguage.FirstMember` | lib/fnmatch.c:711-724 | a repetition has a front that is a member, and its remainder is shorter: the guard `s != srest` loses nothing |
| `GlobMatch.GMatch` | lib/fnmatch.c:155-346 | gmatch decides the language of the pattern as the code reads stars, for every string; terminates by string length, then pattern length |
| `GlobMatch.StarMatch` | lib/fnmatch.c:224-310 | the star: collapsing `*` and `?` runs, pruning by the first character and stopping before the end of the string |
| `GlobMatch.FirstCharPrunes` | lib/fnmatch.c:286-303 | a start that the first-character test skips matches nothing |
| `GlobMatch.RepeatMatch` | lib/fnmatch.c:697-728 | the loops of `*(` and `+(` decide Kleene repetition |
| `GlobMatch.OnceMatch` | lib/fnmatch.c:730-754 | the loops of `?(` and `@(` decide one member or none |
| `GlobMatch.NotMatch` | lib/fnmatch.c:756-772 | the loops of `!(` decide the splits without a member |
| `GlobMatch.EmptyRest` | lib/fnmatch.c:744 | with nothing behind the group, starting at the end of the string leaves out no split that could match |
| `GlobMatch.ExtMatch` | lib/fnmatch.c:670-776 | extmatch decides the language of its group and what follows |
| `GlobMatch.FnMatch` | lib/fnmatch.c:136-151 | the entry point, on whole strings |
| `GlobMatch.PlainIsDefined` | lib/fnmatch.c:155-346 | without groups every pattern free of the POSIX list forms is in the scope of GMatch |
| `GlobMatch.ClosedIsDefined` | lib/fnmatch.c:593-640 | with groups every pattern without brackets whose groups are closed is |
| `GlobMatch.AltGroupsClosed` | lib/fnmatch.c:708-727 | the alternatives cut out of closed groups have closed groups again |
| `GlobTheorems.CodeIsLanguage` | lib/fnmatch.c:155-776 | when every run behind a star is safe, the code decides the declarative language |
| `GlobTheorems.StarIsLanguage` | lib/fnmatch.c:224-310 | a safe star run matches exactly the strings with a tail in the language |
| `GlobTheorems.StarExact` | lib/fnmatch.c:237-309 | the condition on star runs is exact: a star and any run of `*`, `?` and closed `*(...)`, in any order, decides its language on all strings if and only if the run ends the pattern, or what follows does not match the empty string, or behind the last plain star a `?` stands behind a group |
| `GlobTheorems.OptionalGroupExact` | lib/fnmatch.c:237-309 | the same for any such run in front of a closed `?(L)`, bracket-free patterns: without a group behind the last plain star it decides if and only if the rest matches nothing at all; with one, if and only if the rest does not match the empty string or a `?` stands behind the group |
| `GlobTheorems.RunMeans` | lib/fnmatch.c:237-276 | by the specification a run behind a star takes one character for each plain `?` and any others |
| `GlobTheorems.RunTakes` | lib/fnmatch.c:237-309 | what the code matches behind a star takes at least as many, one more where it reads `?(` as `?` |
| `GlobTheorems.RunFinds` | lib/fnmatch.c:237-309 | and it finds every such match but those that it cannot reach at the end of the string |
| `GlobTheorems.RunMisses` | lib/fnmatch.c:286-309 | without a `?` behind a group it misses the string with one character for each `?` |
| `GlobTheorems.PassesList` | lib/fnmatch.c:155-346 | whatever the matcher matches from inside a closed list on has a tail that matches from behind the list on |
| `GlobTheorems.SyntaxIsSafe` | lib/fnmatch.c:224-310 | a pattern without brackets whose groups are closed, and without `*` or `?` directly in front of a group, is safe |
| `GlobTheorems.FnMatchExtended` | lib/fnmatch.c:136-151 | fnmatch with FNM_EXTMATCH on such a pattern: true exactly for the strings of its language |
| `GlobTheorems.FnMatchPlain` | lib/fnmatch.c:136-151 | fnmatch with flags 0 on a regular pattern: true exactly for the strings that the tokens of the pattern denote, sets holding the bytes of their ranges; what the tokens of a written pattern are, marks and escapes included, SpelledPattern.FnMatchSpelled says on the pattern itself |
| `GlobTheorems.RegularIsDefined` | lib/fnmatch.c:155-346 | a pattern that has tokens is in the scope of the matcher |
| `GlobTheorems.TameHasTokens` | lib/fnmatch.c:155-346 | a pattern of characters below 128 without backslashes, POSIX forms and a last `-` is regular, so FnMatchPlain applies |
| `GlobTheorems.PlainIsSafe` | lib/fnmatch.c:224-310 | without groups every pattern is safe |
| `GlobTheorems.PlainDecidesLanguage` | lib/fnmatch.c:155-346 | flags 0, every pattern and string: the stars lose nothing, so the code agrees with the declarative language; a list stands for what brackmatch makes of it, and PlainDecidesTokens says what that is |
| `GlobTheorems.TokensAreLanguage` | lib/fnmatch.c:155-346 | the language is that of a list of tokens (characters, any, any string, sets), whenever every list of the pattern is one that the code reads rightly for every character |
| `GlobTheorems.PlainDecidesTokens` | lib/fnmatch.c:155-346 | flags 0: a match exactly when the token list denotes the string |
| `GlobTheorems.GroupAtEnd` | lib/fnmatch.c:670-776 | all five groups at the end of a pattern: one member, no member, at most one, and for `*` and `+` a member in front of the group again |
| `GlobTheorems.GroupIsLanguage` | lib/fnmatch.c:670-776 | groups over safe alternatives: code and language agree |
| `GlobTheorems.NegatedGroupBehindStar` | lib/fnmatch.c:290-309 | `*!(a)` on the empty string: in the language, not matched |
| `GlobTheorems.OptionalGroupBehindStar` | lib/fnmatch.c:237-276 | `*?(a)` on `b`: in the language, not matched |
| `GlobTheorems.GroupsBehindStar` | lib/fnmatch.c:237-309 | `**(a)?(b)` on the empty string: in the language, not matched |
| `SpelledList.EntryRead` | lib/fnmatch.c:395-543 | the first entry of a list as it is written, a character or a range, each end as it stands or escaped, a leading `]` or a last dash included, is read as the item of its characters, and reading goes on behind it |
| `SpelledList.SpelledVerdict` | lib/fnmatch.c:370-571 | a list as it is written, without a mark, with `!` or with `^`: the code goes on behind its `]` if and only if the character is in the union of the entries, reversed for both marks, and gives up otherwise; for all characters below 128 in the list, and no entry with backslashes and a `]` behind it |
| `SpelledList.SpelledList` | lib/fnmatch.c:370-571 | the same of the verdict that ListExact compares with, with such runs of backslashes, too |
| `SpelledList.AfterEntries` | lib/fnmatch.c:545-571 | behind a hit the rest of a written list is skipped to its own `]` unless a run of backslashes leads to an escaped or the closing bracket |
| `SpelledList.OutOfStep` | lib/fnmatch.c:548-569 | one backslash late, the skip is in step again at the first character that is no escaped backslash |
| `SpelledList.OpenList` | lib/fnmatch.c:378-571 | a list of ordinary characters that nothing closes is a literal `[`, and matches nothing if a backslash or an unfinished range ends it |
| `SpelledPattern.TextMeans` | lib/fnmatch.c:155-776 | the declarative language of the text of any written pattern (characters, escapes, wildcards, lists, groups of alternatives in groups) is the set of strings that the pattern denotes, said on the pattern and not on its text |
| `SpelledPattern.SourceDecides` | lib/fnmatch.c:136-776 | and the code decides it: with flags 0 for every such pattern, with FNM_EXTMATCH where no group stands in a run behind a star |
| `SpelledPattern.FnMatchSpelled` | lib/fnmatch.c:136-151 | fnmatch with either flag on the text of such a pattern: true exactly for the strings it denotes |
| `SpelledPattern.ListAlone` | lib/fnmatch.c:370-571 | `[`, a mark, entries and `]` match a single character if and only if it is in an entry and there is no mark, or in none and there is one |
| `SpelledPattern.GroupEnds` | lib/fnmatch.c:593-640 | the scan finds the parenthesis that closes a written group, over nested groups and lists |
| `SpelledPattern.AltsAre` | lib/fnmatch.c:708-727 | and cuts it into the alternatives as they were written |
| `SpelledPattern.RepeatsMean` | lib/fnmatch.c:697-772 | a list repeated as its operator allows is so many matches of the alternatives one behind the other, or for `!` none |
| `Getopt.Scanner.Run` | lib/getopt.c:373-665 | all calls to the end of the arguments: the codes and arguments of a left-to-right reading, argv reordered to program name, options with what they take (and `--`), the rest, optind at the rest, and argv a permutation; SpelledOptions.RunLine says what those codes and arguments are for a line as it is written |
| `Getopt.Scanner.Next` | lib/getopt.c:373-665 | one call: the next event of the plan, the state between calls kept; or the end, with argv in its final order |
| `Getopt.Scanner.Advance` | lib/getopt.c:390-444 | to the next option: exchange, pass non-options, `--`, the end |
| `Getopt.Scanner.PassNonOptions` | lib/getopt.c:392-410 | non-options are passed and remembered; the plan is unchanged |
| `Getopt.Scanner.DecodeLong` | lib/getopt.c:477-597 | a long option: exact, abbreviated, ambiguous, with and without an argument; what is reported is said apart from this in SpelledOptions.LongStepIs |
| `Getopt.Scanner.DecodeShort` | lib/getopt.c:599-665 | a short option of a cluster, with its argument |
| `Getopt.FindLong` | lib/getopt.c:488-510 | the loop over the table finds an exact name before any abbreviation, and tells an ambiguous one |
| `Getopt.Scanner.Exchange` | lib/getopt.c:224-278 | shorter-segment swaps turn A B C D into A C B D, terminate, and move the borders along |
| `Getopt.SwapBlocks` | lib/getopt.c:247-268 | two blocks of one length change places |
| `Getopt.BottomShort` | lib/getopt.c:240-255 | swapping the shorter bottom leaves an exchange of what is left |
| `Getopt.TopShort` | lib/getopt.c:256-270 | and so does swapping the shorter top |
| `Getopt.ExchangeParts` | lib/getopt.c:195-278 | what an exchange is on the parts of argv |
| `Getopt.PlanExchange` | lib/getopt.c:395-398 | an exchange does not change what the rest of the run will report |
| `Getopt.PlanDashes` | lib/getopt.c:416-428 | `--` ends the options and stays with them |
| `Getopt.PlanTake` | lib/getopt.c:522-573 | taking an option with its argument moves the plan by exactly that |
| `Getopt.ParseMerges` | lib/getopt.c:361-371 | options and non-options keep their order: the arguments are a merge of the two |
| `Getopt.MergedIsPermutation` | lib/getopt.c:361-371 | a merge loses and adds nothing |
| `Getopt.RunPermutes` | lib/getopt.c:361-371 | the final argv is a permutation of the first one |
| `Getopt.EventsAreNotEof` | lib/getopt.c:599-665 | no option reports the end |
| `SpelledOptions.LineParses` | lib/getopt.c:361-665 | any command line as it is written: `--name`, `--name=value`, `--name` with the next element, names in full or abbreviated; clusters of letters, the last with an attached or following argument; operands; refused options; and an end with `--` or with an argument missing: the codes, arguments, indices and offending letters that are reported, val or 0 as the option has a flag, and the order that argv gets |
| `SpelledOptions.Spell` | lib/getopt.c:361-371 | every argument list is such a line |
| `SpelledOptions.RunLine` | lib/getopt.c:373-665 | the loop of a command over such a line: the codes and arguments of its items in order, argv with options in front of operands, optind behind the options |
| `SpelledOptions.FindNames` | lib/getopt.c:488-520 | the lookup finds an option if and only if the name is its own and no earlier one has it, or it is the only one whose name starts so; tells none and more than one exactly |
| `SpelledOptions.LongStepIs` | lib/getopt.c:525-573 | what a named option reports and takes, by its arity and what is given |
| `SpelledOptions.LettersFirst` | lib/getopt.c:599-617 | letters without arguments are reported one by one, the unknown ones as such, and the cluster goes on behind them |
| `SpelledOptions.ArgumentStep` | lib/getopt.c:617-663 | a letter with one colon takes the rest of its element, or the next element, or reports that there is none; with two colons the rest or nothing |
| `PathCollapse.PathBuffer.Collapse` | src/libmhe/strq.c:359-398 | path_collapse in its buffer: terminates on every non-DOS path, leaves an absolute one as its names resolved on a stack, and a relative one as `..` where it climbs an odd number of levels, and its names |
| `PathCollapse.PathBuffer.CollapseOne` | src/libmhe/strq.c:293-356 | one pass, absolute or relative: the next `.` or `..` deleted, with the piece before it, or nothing to delete |
| `PathCollapse.PathBuffer.RemoveDoubles` | src/libmhe/strq.c:372-380 | the first loop leaves single slashes |
| `PathCollapse.PathBuffer.StrPull` | src/libmhe/strq.c:109-115 | strpull: n characters out of the middle of the buffer |
| `PathCollapse.PathBuffer.TrySlash` | src/libmhe/strq.c:316-352 | one slash of the pass |
| `PathCollapse.CollapsedPath` | src/libmhe/strq.c:358-398 | the result is absolute, has no `//`, `.` or `..`, and collapsing it again changes nothing |
| `PathCollapse.DeletedKeepsCanon` | src/libmhe/strq.c:316-352 | deleting the first dot piece, with the name before it, keeps what an absolute path resolves to |
| `PathCollapse.CollapsedRelative` | src/libmhe/strq.c:358-398 | a collapsed relative path leads where the path leads, from every base directory, if and only if the path climbs at most one level above its start; it is a fixed point |
| `PathCollapse.RelativeExact` | src/libmhe/strq.c:333-345 | the same on the pieces of the path |
| `PathCollapse.StepKeepsRelative` | src/libmhe/strq.c:304-348 | each deletion in a relative path keeps the names and the parity of the levels climbed |
| `PathCollapse.NoStepIsCanon` | src/libmhe/strq.c:298-356 | where the pass deletes nothing the path is the one that was meant |
| `PathCollapse.ResolveReaches` | src/libmhe/strq.c:358-398 | resolving below a base directory: so many levels up, then down the names, the root absorbing `..` |
| `PathCollapse.TwoLevelsCancel` | src/libmhe/strq.c:333-345 | `../../b` collapses to `b` |
| `PathCollapse.AtSlash` | src/libmhe/strq.c:316-352 | what stands behind a slash, and the text that the deletion there leaves |
| `PathCollapse.AtSlashRelative` | src/libmhe/strq.c:316-352 | the same for a relative path, whose first piece has no slash in front of it |
| `PathCollapse.DropEmptyResolves` | src/libmhe/strq.c:372-380 | removing empty pieces keeps what the path resolves to |
| `PathCollapse.SqueezeText` | src/libmhe/strq.c:372-380 | the text without double slashes is that of the pieces without the empty ones |
| `DirCache.ExecuteKeepsCoherent` | src/ftp/ftp.c:1225-1306 | a successful MKD, RMD, DELE, CHMOD, store or file rename leaves every cached directory equal to the server, or marked |
| `DirCache.ChangesAreMarked` | src/ftp/ftp.c:1225-1306 | a listing that a command changes is one that it marks |
| `DirCache.GetDirectoryKeepsCoherent` | src/ftp/ftp.c:1480-1493 | reading a directory keeps coherence and cached paths unique |
| `DirCache.FlushExact` | src/ftp/cache.c:69-85 | a flush, which deletes one entry for a mark, leaves no marked entry if and only if no marked path is cached twice |
| `DirCache.FlushIsFresh` | src/ftp/cache.c:69-85 | from a coherent state, all that is cached after a flush equals the server |
| `DirCache.RunKeepsInvariant` | src/cmd.c:151-204 | any sequence of operations keeps the invariant |
| `DirCache.SessionIsFresh` | src/cmd.c:196-203 | after each command of any session the cache equals the server |
| `DirCache.MarksAre` | src/ftp/ftp.c:1225-1306 | the marks that a command leaves are the old ones, the directory that contains its argument (both, for a rename), and for RMD the directory itself; no others |
| `DirCache.ReadingStays` | src/ftp/ftp.c:1480-1493 | a directory that was read is still cached when the command is over if and only if it is not marked and was cached and has not timed out, or was not cached and the server sent it |
| `DirCache.AppliedIs` | src/ftp/ftp.c:1225-1306 | what an accepted command leaves at its path on the server |
| `DirCache.GetFileIsRight` | src/ftp/ftp.c:1499-1520 | a file whose directory is not marked is found as the server has it |
| `DirCache.ApplyKeepsTree` | src/ftp/ftp.c:1225-1306 | accepted commands leave the server a tree |
| `DirCache.RenameDirExact` | src/ftp/ftp.c:1654-1684 | renaming a directory keeps coherence if and only if every cached directory at or below it was marked before |
| `DirCache.RenamedDirStaysCached` | src/ftp/ftp.c:1681-1682 | with /a cached, renaming a to b leaves the listing of /a in the cache unmarked |
| `DirCache.FlushPaths` | src/ftp/cache.c:69-85 | the paths left by a flush are the cached ones less the marks, counted |
| `DirCache.Client.FlushMark` | src/ftp/cache.c:34-48 | a path is marked once |
| `DirCache.Client.FlushMarkFor` | src/ftp/cache.c:53-60 | the directory of a path is marked, the current one for a bare name |
| `DirCache.Client.CacheFlush` | src/ftp/cache.c:69-85 | the loop over the marks |
| `DirCache.Client.CacheClear` | src/ftp/cache.c:87-92 | no entries and no marks |
| `DirCache.Client.CacheGetDirectory` | src/ftp/cache.c:97-123 | the first entry of the path; a stale one is marked |
| `DirCache.Client.GetDirectory` | src/ftp/ftp.c:1480-1493 | from the cache, or read and added |
| `DirCache.Client.ReadDirectory` | src/ftp/ftp.c:1388-1478 | a listing that is read is appended to the cache |
| `DirCache.Client.GetFile` | src/ftp/ftp.c:1499-1520 | the entry of a file by its directory |
| `DirCache.Client.ChangeEntry` | src/ftp/ftp.c:1225-1306 | MKD, DELE, CHMOD and store with their marks |
| `DirCache.Client.RmDir` | src/ftp/ftp.c:1250-1269 | RMD marks the directory and its parent |
| `DirCache.Client.Rename` | src/ftp/ftp.c:1654-1684 | RNFR and RNTO, of a file or of a directory with all below it, mark both containing directories |
| `MkPath.Client.MakePath` | src/ftp/ftp.c:1552-1619 | for a server that may refuse levels: every level up to the first refused one exists afterwards and nothing else is new; the result is true exactly when the path was missing and is there now, which is "a directory was made" if and only if none was or the whole path is there; what is remembered names an existing directory exactly when the path does, a path shorter than three characters being taken for a relative one |
| `MkPath.Client.MakeLevels` | src/ftp/ftp.c:1577-1611 | the loop over the levels: the flag, overwritten each round, tells of the last level only |
| `MkPath.Client.MakeLevel` | src/ftp/ftp.c:1599-1610 | a level known to exist is skipped, the others are asked for, and those behind a refused one fail |
| `MkPath.MadeIs` | src/ftp/ftp.c:1577-1611 | the whole path exists afterwards if and only if no missing level was refused |
| `MkPath.SecondLevelRefused` | src/ftp/ftp.c:1607-1610 | with /a made and /a/b refused a directory is new and the path is missing, so the result is false |
| `MkPath.LevelPartOf` | src/ftp/ftp.c:1524-1546 | the text test "part of" decides the prefix order of names |
| `MkPath.PartOfSpelled` | src/ftp/ftp.c:1524-1546 | a text that is part of an existing path names an existing directory |
| `MkPath.TokensOfPath` | src/ftp/ftp.c:1568-1580 | cutting the collapsed path at its slashes gives its names |
| `MkPath.ShortPath` | src/libmhe/strq.c:266-291 | a path of fewer than three characters is remembered below the current directory |
| `MkPath.ShortPathMistaken` | src/ftp/ftp.c:1613-1614 | after making /a from /h, /h/a is taken for an existing directory |
| `SecureChannel.Session` | lib/security.c:179-259 | any messages, cut into any writes, each ended by a flush, and read with any positive lengths: every message arrives as its bytes in order, and its end is seen exactly once |
| `SecureChannel.SendMessage` | lib/security.c:228-259 | the writes of a message and the flush become frames that hold its bytes, none empty but the last, none longer than the buffer allows |
| `SecureChannel.Sender.SecWrite` | lib/security.c:241-259 | the data in frames of at most buffer size less overhead |
| `SecureChannel.Sender.SecSend` | lib/security.c:213-226 | one frame on the wire, length first |
| `SecureChannel.Sender.SecPutc` | lib/security.c:288-301 | bytes are kept until a newline or 1024 of them |
| `SecureChannel.Sender.SecFflush` | lib/security.c:228-239 | what is kept, then the empty frame |
| `SecureChannel.Sender.BlockWrite` | lib/security.c:114-127 | all of the data, however much each write takes |
| `SecureChannel.Receiver.BlockRead` | lib/security.c:97-112 | all of the bytes, or the end of the connection |
| `SecureChannel.Receiver.SecGetData` | lib/security.c:129-150 | the next frame, decoded, replaces the buffer |
| `SecureChannel.Receiver.BufferRead` | lib/security.c:152-158 | the next part of the buffer |
| `SecureChannel.Receiver.SecRead` | lib/security.c:179-211 | a full read takes the next bytes of the message; a short one takes the rest, and the end is reported at once when there was none, by the next read otherwise |
| `SecureChannel.Receiver.ReceiveMessage` | lib/security.c:179-211 | reads of any lengths until one gives nothing give the message, and stop at the next one |
| `SecureChannel.MessageOfSent` | lib/security.c:179-211 | sent frames read as their message and leave what comes later |
| `SecureChannel.HeaderBytes` | lib/security.c:213-226 | the length field: its first byte weighs 2 to the 24, its last 1 |
| `SecureChannel.HeaderRoundTrip` | lib/security.c:213-226 | the length field survives the network byte order |
| `SecureChannel.WireAppend` | lib/security.c:213-226 | the bytes of frames one after the other |
| `SecureChannel.OneMore` | lib/security.c:250-257 | one round of the sending loop |
| `ReplyReader.LineArrives` | src/ftp/ftp.c:433-535 | a line of characters, CR NUL, lone CRs and telnet commands is read as its characters and one CR, its commands answered, to the end of its CR LF |
| `ReplyReader.Control.Gets` | src/ftp/ftp.c:433-535 | ftp_gets: the line into the reply buffer, cut at MAXREPLY and stripped; its number, and the hundreds of its number with its sign; false at the end of the connection |
| `ReplyReader.FirstDigit` | src/ftp/ftp.c:533 | behind a well-formed reply ftp->code is the first digit of its code |
| `ReplyReader.LineShows` | src/ftp/ftp.c:499-532 | a line shows in the buffer as its first 512 characters, without its line break |
| `ReplyReader.Refuses` | src/ftp/ftp.c:462-483 | 251 and 252 are answered by 254, 253 and 254 by 252, for the same option |
| `ReplyReader.BareLineArrives` | src/ftp/ftp.c:496-497 | a line that a bare line feed ends is read without a CR |
| `ReplyReader.LineLost` | src/ftp/ftp.c:456-461 | a connection that ends inside a line, behind a CR or inside a telnet command gives no line, and the commands before are answered |
| `ReplyReader.Control.Collect` | src/ftp/ftp.c:433-506 | the loop, with its pending character |
| `ReplyReader.Control.Pull` | src/ftp/ftp.c:448-498 | one turn of the loop as an event of the line |
| `ReplyReader.Control.Telnet` | src/ftp/ftp.c:462-483 | every option that is asked for is turned down |
| `ReplyReader.Control.StripTrailing` | src/libmhe/strq.c:545-558 | line breaks at the end become NULs, the rest of the buffer stays |
| `ReplyReader.Control.Read` | src/ftp/ftp.c:589-628 | ftp_read_reply, for every input |
| `ReplyReader.Control.ReadOn` | src/ftp/ftp.c:616-622 | the loop of a multi-line reply |
| `ReplyReader.ReplyExact` | src/ftp/ftp.c:589-628 | a well-formed reply gives its code, and is consumed whole and alone if and only if none of its inner lines reads as the number -1 |
| `ReplyReader.RestArrives` | src/ftp/ftp.c:616-623 | the same from any line of a multi-line reply on |
| `ReplyReader.MinusOneBreaksOff` | src/ftp/ftp.c:619-620 | a well-formed reply with the line -1: the reader stops there |
| `ReplyReader.Control.ReadReplies` | src/ftp/ftp.c:589-628 | any stream of such replies is read reply by reply, each with its own code, ftp->code being the first digit behind each |
| `ReplyReader.StoredFront` | src/ftp/ftp.c:499-532 | the front of a line, up to four characters, shows in the buffer exactly as it was sent, whatever was there before |
| `ReplyReader.NumberIs` | src/ftp/ftp.c:509 | the number of a line is the value of its three digits, hundreds first |
| `LinkList.List.Sort` | src/libmhe/linklist.c:116-139 | bubble sort terminates, and leaves the data sorted (or reverse sorted), stable and with the same elements, the nodes untouched |
| `LinkList.List.Pass` | src/libmhe/linklist.c:121-137 | one pass: fewer inversions, or nothing swapped and all sorted |
| `LinkList.SwapRemovesInversion` | src/libmhe/linklist.c:126-133 | swapping neighbours that are in the wrong order takes away exactly one inversion |
| `LinkList.SwapKeepsElements` | src/libmhe/linklist.c:105-113 | and keeps elements and the order of equal ones |
| `LinkList.StableSortIsUnique` | src/libmhe/linklist.c:116-139 | there is one stably sorted order only |
| `LinkList.List.SwapNext` | src/libmhe/linklist.c:105-113 | the data of two neighbours change places, the chain stays |
| `LinkList.List.AddItem` | src/libmhe/linklist.c:75-95 | a new node at the end of the doubly linked chain |
| `LinkList.List.RemoveItem` | src/libmhe/linklist.c:141-155 | the node leaves the chain in both directions |
| `LinkList.List.Bypass` | src/libmhe/linklist.c:144-151 | the links around a node |
| `LinkList.List.Clear` | src/libmhe/linklist.c:39-46 | the empty list |
| `LinkList.List.Search` | src/libmhe/linklist.c:48-61 | the first node that is accepted |
| `ModeChange.TextMeans` | src/utils/modechange.c:188-286 | the mode made by any accepted text of clauses, of which the first and the last are faithful, is the meaning of those two in order |
| `ModeChange.TextExact` | src/utils/modechange.c:188-286 | texts of any length of the letters r, w, x, s and t: accepted, and the meaning of all clauses on every mode if and only if for each bit the last clause that decides it decides as the first and the last clause alone |
| `ModeChange.TextIdle` | src/utils/modechange.c:188-286 | any accepted text, X and copied groups included, means all of its clauses on every mode if its first and last are faithful and the others change only bits that the last settles and does not look at |
| `ModeChange.LastMeans` | src/utils/modechange.c:245-286 | the meaning of such clauses in order, bit by bit: the last decision counts |
| `ModeChange.IdleMeans` | src/utils/modechange.c:228-231 | idle clauses in the middle do not change the meaning |
| `ModeChange.TextAccepted` | src/utils/modechange.c:216-242 | a text of clauses is accepted if and only if each of its clauses is |
| `ModeChange.AcceptedExact` | src/utils/modechange.c:128-184 | a clause is accepted if and only if in front of a copied group stands no other copy and no letter that gives an affected bit |
| `ModeChange.ClauseAlways` | src/utils/modechange.c:59-286 | an accepted clause, letters and a copied group counted together, means what it says on every mode and for files and directories if and only if it is Faithful: no x beside X among affected bits unless taken away; beside a copied group, no letter with an affected bit for + and =, and for - every affected bit outside the value reached from the copied group only |
| `ModeChange.TakesAlways` | src/utils/modechange.c:253-280 | taking away with letters beside a copied group: the condition on the shifts is exact |
| `ModeChange.ExtraLost` | src/utils/modechange.c:253-280 | giving with letters beside a copied group: each affected bit of a letter is lost on the empty mode |
| `ModeChange.CompiledIs` | src/utils/modechange.c:59-186 | what any accepted clause compiles to: the copied group and the affected bits of its letters |
| `ModeChange.ClauseExact` | src/utils/modechange.c:59-286 | mode by mode: a clause without letters that give something beside a copied group does what it means if and only if it does not put x beside an X that does not apply |
| `ModeChange.ClauseStays` | src/utils/modechange.c:59-186 | every accepted clause stays within 07777 and leaves the bits it does not affect |
| `ModeChange.TextStays` | src/utils/modechange.c:188-286 | any accepted text gives permission bits only, and changes none that its clauses do not affect |
| `ModeChange.BitsMean` | src/utils/modechange.c:245-272 | bit by bit: the bits a clause sets or clears are those of its meaning, less an x lost beside X |
| `ModeChange.SpreadCopies` | src/utils/modechange.c:255-265 | the shifts put the permissions of one group in the places of all three |
| `ModeChange.OctalReplaces` | src/utils/modechange.c:194-211 | a number replaces all twelve bits, and is accepted up to 07777 |
| `ModeChange.MiddleClauseDropped` | src/utils/modechange.c:228-231 | u+r,g+r,o+r: the middle clause has no effect |
| `ModeChange.ExecLost` | src/utils/modechange.c:268-270 | a=xX on a file nobody may execute: the mode that is made is not the one that is meant |
| `ModeChange.LetterBesideCopyLost` | src/utils/modechange.c:251-265 | o=gr is accepted, gives nothing on the empty mode, and so does not mean what it says |
| `ModeChange.LetterBesideCopyKeeps` | src/utils/modechange.c:251-280 | u-ow is accepted and does not mean what it says: where all may read, r is not taken from the user |
| `ModeChange.LetterBesideCopyIdle` | src/utils/modechange.c:128-184 | u=to is accepted, compiles like u=o and means what it says |
| `ModeChange.JoinedCompiles` | src/utils/modechange.c:216-242 | a text of clauses compiles clause by clause, or is refused with one of them, and is not taken for a number |
| `ModeChange.ClauseAtText` | src/utils/modechange.c:66-77 | the longest spans cut a clause as it was written |
| `ModeChange.KeptCompiled` | src/utils/modechange.c:228-231 | the list holds the first and the last compiled clause |
| `ModeChange.AffectedMeans` | src/utils/modechange.c:81-126 | whom a clause affects: the named groups; without a name every bit but those of the umask, which are spared if and only if the flag of the operator (plus for `+`, minus for `-`, equals for `=`) is set |
| `ModeChange.UmaskKept` | src/utils/modechange.c:81-126 | with all three flags no text whose clauses name nobody changes a bit of the umask |
| `ModeChange.OctalDigits` | src/utils/modechange.c:194-211 | four octal digits: each permission, setuid, setgid and sticky is set if and only if its digit has the bit of weight 4, 2 or 1 |
| `ModeChange.LeadingZero` | src/utils/modechange.c:194-211 | zeros in front of a number change nothing |
| `ModeChange.TrailingComma` | src/utils/modechange.c:235-242 | a comma behind the last clause changes nothing |
| `ModeChange.DirectoryMode` | src/utils/modechange.c:268 | S_ISDIR on the number of a mode |
| `ModeChange.ModeParse` | src/utils/modechange.c:59-186 | mode_parse as a loop over the text |
| `ModeChange.ModeCompile` | src/utils/modechange.c:188-243 | mode_compile: the linked list of a text |
| `ModeChange.CompileClauses` | src/utils/modechange.c:216-242 | its loop: every later clause becomes the successor of the first |
| `ModeChange.ModeAdjust` | src/utils/modechange.c:245-286 | mode_adjust: the walk along the list |
| `ModeChange.ParseAffected` | src/utils/modechange.c:81-126 | who, the operation and the umask; AffectedMeans says which bits those are |
| `ModeChange.ParseValues` | src/utils/modechange.c:128-184 | the permission letters |
| `CommandLine.RoundTrip` | src/libmhe/strq.c:169-218 | any arguments survive quoting, joining, splitting and unquoting as far as they are not empty, all of them exactly when none is |
| `CommandLine.QuotedLine` | src/cmd.c:228-247 | arguments that were quoted and joined are one command again |
| `CommandLine.OneCommand` | src/cmd.c:235 | the line is not cut at any semicolon |
| `CommandLine.DequoteQuoted` | src/libmhe/strq.c:579-603 | every string comes back from its quoted form |
| `CommandLine.NoRedirection` | src/cmd.c:163-180 | no quoted argument is taken for a redirection or a pipe |
| `CommandLine.SplitQuoted` | src/libmhe/args.c:120-145 | splitting what was joined gives the quoted arguments |
| `CommandLine.QuotedPasses` | src/libmhe/strq.c:186-212 | no character of a quoted argument ends a token |
| `CommandLine.BackslashQuote` | src/libmhe/strq.c:773-808 | backslash_quote |
| `CommandLine.DequoteFilename` | src/libmhe/strq.c:579-603 | dequote_filename |
| `CommandLine.Splitter.StrQSep` | src/libmhe/strq.c:169-218 | strqsep in its buffer: the token, its NUL, the pointer behind it |
| `CommandLine.Splitter.Scan` | src/libmhe/strq.c:186-212 | its loop over escapes and quotes |
| `CommandLine.SplitArgs` | src/libmhe/args.c:120-145 | split_args |
| `CommandLine.ArgsCat` | src/libmhe/args.c:99-114 | args_cat |
| `CommandLine.Args.PushBack` | src/libmhe/args.c:196-201 | args_push_back |
| `CommandLine.Args.Unquote` | src/libmhe/args.c:239-245 | args_unquote |
| `CommandLine.Args.Del` | src/libmhe/args.c:80-97 | args_del, also beyond the end |
| `CommandLine.Args.RemoveEmpty` | src/libmhe/args.c:225-235 | args_remove_empty |
| `CommandLine.WriteLine` | src/libmhe/strq.c:804-808 | the line that is made of arguments |
| `CommandLine.ThereAndBack` | src/cmd.c:228-247 | any strings, quoted onto a line and executed from it, are the arguments of one command, but for the empty ones |
| `CommandLine.ExecuteLine` | src/cmd.c:228-320 | the commands of a line and their arguments, by way of both passes: the first splits and joins every command and hands it to the second |
| `CommandLine.SecondPass` | src/cmd.c:312-315 | the second pass over a command that was split and joined finds the same arguments and no second command |
| `CommandLine.SplitAgain` | src/libmhe/strq.c:169-218 | splitting, joining and splitting again changes nothing, quotes and escapes included, and makes no semicolon visible |
| `SpelledLine.LineMeans` | src/cmd.c:228-320 | any line as it is written: commands between semicolons, words between blanks, words of plain characters, escaped characters and stretches in either kind of quotes with escapes inside: it comes to the values of the words, command by command, without the empty ones |
| `SpelledLine.Execute` | src/cmd.c:228-320 | through both passes of the executor |
| `SpelledLine.WordPasses` | src/libmhe/strq.c:186-212 | no character of such a word ends a token, and unquoting gives its value, one quote inside the other standing for itself |
| `SpelledLine.SplitWords` | src/libmhe/args.c:120-145 | a command is split into its words |
| `Url.DecodeEncoded` | src/libmhe/strq.c:479-529 | decoding gives back every text, whatever else is encoded |
| `Url.PrintedParsesExactly` | src/commands.c:521-550 | for a plain host name, parsing what was printed gives back user, host, port and directory if and only if no apostrophe is in a printed part and no at sign in a directory printed without a user |
| `Url.PrintedParses` | src/ftp/url.c:84-152 | apart from the apostrophes all parts come back, a leading slash of the directory included, and the standard port as -1 |
| `Url.LoginArrives` | src/ftp/url.c:84-152 | a URL that names a user and a password, with any host, port and directory: both arrive but for their apostrophes, a password without any other character leaving the old one in place |
| `Url.LoginRoundTrip` | src/ftp/url.c:102-115 | for every user and non-empty password without apostrophes, the URL of both and a plain host gives user, password and host back |
| `Url.SchemeArrives` | src/ftp/url.c:94-98 | any scheme of letters is stored in lower case |
| `Url.HostOnly` | src/ftp/url.c:84-152 | a bare host name, or one behind two slashes, sets the host and nothing else |
| `Url.EncodedIsSafe` | src/libmhe/strq.c:479-506 | an encoded text holds only characters that section 2.2 of RFC 1738 lets stand, and none of those to be encoded besides |
| `Url.UnreservedKept` | src/libmhe/strq.c:479-506 | and unreserved characters stay as they are |
| `Url.HexPairs` | src/libmhe/strq.c:508-529 | a percent sign and two hexadecimal digits in either case are the character of that number |
| `Url.FindIs` | src/libmhe/strq.c:155-166 | the place found is the first with that character behind an even number of backslashes |
| `Url.ApostropheLost` | src/commands.c:521-550 | the user o'b comes back as ob |
| `Url.AtSignMistaken` | src/ftp/url.c:102-115 | of an anonymous user in /a@b, what was printed does not come back: a user is found |
| `Url.UnquoteEncoded` | src/libmhe/strq.c:579-603 | unquoting an encoded text takes out its apostrophes and nothing else |
| `Url.DirectoryArrives` | src/libmhe/strq.c:531-543 | the directory by way of %2F |
| `Url.PortRoundTrip` | src/ftp/url.c:123-130 | every int port survives being printed unsigned and read to base 0 |
| `Url.EncodeRfc1738` | src/libmhe/strq.c:479-506 | encode_rfc1738, at most three times as long |
| `Url.DecodeRfc1738` | src/libmhe/strq.c:508-529 | decode_rfc1738 |
| `Url.StrQChr` | src/libmhe/strq.c:155-166 | strqchr |
| `Url.StrQNChr` | src/libmhe/strq.c:118-153 | strqnchr |
| `Url.UrlRecord.UrlParse` | src/ftp/url.c:84-152 | url_parse, for every text with at most one colon in its host part and no base64 password; PrintedParses and LoginArrives say what that is for URLs as they are written |
| `Url.UrlRecord.TakeLogin` | src/ftp/url.c:102-115 | user and password; LoginArrives says which text is which |
| `Url.UrlRecord.TakePath` | src/ftp/url.c:116-149 | directory, port and host |
| `Url.CmdUrl` | src/commands.c:521-550 | the text that is printed |
| `Url.Reopen` | src/ftp/url.c:34-39 | printed and parsed again |
| `AsciiMode.SentReceived` | src/ftp/ftpsend.c:542-644 | a file that is sent comes back but for a CR at its very end, and shows no bare line feed |
| `AsciiMode.LastCrLost` | src/ftp/ftpsend.c:542-602 | a file of a and CR comes back as a |
| `AsciiMode.PiecesReceived` | src/ftp/ftpsend.c:542-602 | what comes in, piece by piece: a line break loses its CR, lone CRs, bare line feeds and all else stay, and the bare line feeds are counted |
| `AsciiMode.ReceivedSent` | src/ftp/ftpsend.c:542-644 | what was received is sent as it came if and only if no line feed was bare and no CR came last |
| `AsciiMode.SentLength` | src/ftp/ftpsend.c:618-641 | what is sent is longer than the file by its line feeds |
| `AsciiMode.Transfer.SendAscii` | src/ftp/ftpsend.c:604-644 | the sending loop; the size rises by the characters and once more for each line feed |
| `AsciiMode.Transfer.ReceiveAscii` | src/ftp/ftpsend.c:542-602 | the receiving loop with its pending character, its size and its bare line feeds |
| `AsciiMode.SendAndReceive` | src/ftp/ftpsend.c:542-644 | both together |

## Left out

- Sockets, libssh, GSSAPI, readline, signals, timeouts of replies, forking, and all terminal output.
- fnmatch: the flags CASEFOLD, PERIOD, PATHNAME, LEADING_DIR and NOESCAPE, collation, and the list forms `[:`, `[=`, `[.`; a plain `char` is taken as signed.
- Bracket.BrackMatch: a list with one of those forms gets no verdict (NotModelled); which characters a class holds is the locale's.
- Bracket.TakeNext: the same for the items themselves.
- Bracket.SkipMatched: the same behind a hit, so that the counter of open brackets never exceeds one.
- Bracket.ListExact: patterns without those forms; RegularListExact and the lemmas on tokens likewise.
- Bracket.HitsExact: a plain `char` is signed, as on most machines; where it is not there is no such difference.
- GlobMatch.GMatch: flags 0 and FNM_EXTMATCH, and patterns that are Defined (see FnMatch below).
- GlobMatch.StarMatch: without the returns for a slash or a leading period, which need the flags above.
- GlobMatch.ExtMatch: a group that is not closed is compared with the string itself; strcoll is plain equality.
- GlobMatch.FnMatch: patterns with the list forms above, and groups whose end or alternatives patscan does not find inside their limits, are outside what it requires; GlobMatch.PlainIsDefined and GlobMatch.ClosedIsDefined say which patterns are inside. Its result is tied to the language in GlobTheorems.FnMatchPlain and GlobTheorems.FnMatchExtended.
- GlobTheorems.FnMatchPlain: regular patterns, that is those whose every list the source reads rightly for all characters; TokensAreLanguage and PlainDecidesTokens likewise.
- GlobTheorems.PlainDecidesLanguage: takes a bracket list for what brackmatch makes of it; GlobTheorems.PlainDecidesTokens does not.
- SpelledList.SpelledVerdict: lists of characters below 128, behind no entry of which backslashes lead to a bracket; Bracket.ListExact says exactly what happens otherwise.
- SpelledPattern.SourceDecides: groups in a run behind a star are outside it; GlobTheorems.StarExact and GlobTheorems.OptionalGroupExact say when those are decided.
- SpelledPattern.TextMeans: inside groups no parenthesis, bar or bracket is written as a character, escaped or not, since patscan would count it.
- GlobTheorems.StarExact: groups of the run that are not closed are outside it; a `?(L)` behind the run is in OptionalGroupExact.
- GlobTheorems.OptionalGroupExact: patterns without brackets, since the code then scans the text of the list L as a pattern.
- getopt: the orders REQUIRE_ORDER and RETURN_IN_ORDER, `long_only`, calls without a table of long options, its messages, and the store through `flag`.
- Getopt.Scanner.Run: the option string does not hold the byte 255, whose code as a signed char is the end code -1.
- PathCollapse.PathBuffer.Collapse: DOS paths with a drive letter, and `~user`, are not modelled.
- DirCache.SessionIsFresh: needs that there are no symbolic links and no other writers, and that no directory is renamed; for renames DirCache.RenameDirExact says exactly when the cache stays coherent.
- DirCache.Client.ReadDirectory: a listing arrives whole and is understood; failures of the transfer and of the listing's parser are not modelled.
- DirCache: paths are taken as already canonical, so path_absolute is not part of that module; a directory at the root or with a one-letter name is addressed as any other.
- MkPath.Client.MakePath: absolute paths without quotes and backslashes only, which the source would unquote.
- SecureChannel.Session: no clear protection level, no connection that closes inside a frame, no error of read or write, and encodings that are never empty.
- SecureChannel.Receiver.SecGetData: a whole frame is there to be read; the returns for a closed stream are left out.
- ReplyReader.ReplyExact: replies protected by a security mechanism (codes 631 to 633) are not modelled; atoi is taken without overflow.
- ReplyReader.Control.Gets: without those protected replies.
- LinkList: list_clone and list_equal, which would add easy members only.
- ModeChange.TextMeans: speaks of the first and the last clause; TextExact of all, for the letters r, w, x, s and t.
- ModeChange.ClauseExact: mode by mode for clauses without a letter that gives something beside a copied group; ClauseAlways, over all modes, has no such limit.
- ModeChange.TextIdle: for three or more clauses with X or copied groups the condition is sufficient, not exact: what such clauses do depends on the mode.
- CommandLine.ExecuteLine: redirections, pipes, aliases and `!` are not acted on, and arguments are always unquoted, as for the commands that ask for it.
- CommandLine: the size of argv that split_args takes from strqnchr, args_add_args3 and the other rearrangers.
- Url.UrlRecord.UrlParse: no base64 passwords and no host part with more than one colon; the buffer and its NULs are slices of a string; strqchr and strqnchr stop at a lone backslash at the end, where the code reads past it; the mechanism list, the alias and the flags of an URL are not modelled.
- Url.UrlRecord.TakeLogin: no base64 passwords.
- Url.UrlRecord.TakePath: no host part with more than one colon, so no bracketed IPv6 address.
- Url.CmdUrl: the branch without encoding, which is not meant to be parsed again.
- AsciiMode: interrupts and errors inside a transfer, which cut it short.
- UNIX listing lines, bookmark and configuration files, and the bodies of the get, put, fxp and ls commands.
