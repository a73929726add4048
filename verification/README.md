# Sandboxed filesystem server: a verified model

This project models the algorithms of the filesystem MCP server whose correctness
is not visible from any one function body, and proves what the server relies on.
`dafny verify dfyconfig.toml` checks all of it.

| file | module | models |
|---|---|---|
| `Calendar.dfy`, `Timestamp.dfy`, `Decimals.dfy` | `Calendar`, `Timestamp`, `Decimals` | the day-to-date algorithm, the modification-time text, decimal text |
| `Paths.dfy`, `FileSystem.dfy`, `OutwardLink.dfy` | `Paths`, `FileSystem`, `OutwardLink` | component lists, lexical normalization, a file tree with links and the walk of the operating system, an example with a link |
| `PrefixTrie.dfy` | `PrefixTrie` | the mutable prefix trie |
| `Sandboxing.dfy`, `SandboxLaws.dfy`, `Requests.dfy` | `Sandboxing`, `SandboxLaws`, `Requests` | configuration, start, `resolve`, the plan of `rename`, their guarantees, and where the text of a request leads |
| `UriCodec.dfy`, `Resources.dfy`, `Paging.dfy` | `UriCodec`, `Resources`, `Paging` | percent-coding, the resource scan, cursor paging, CSV pages and ranges |
| `Stdio.dfy` | `Stdio` | the capped line reader over chunked input and the request loop |
| `Utf8.dfy`, `TextEdit.dfy` | `Utf8`, `TextEdit` | UTF-8 validity and the byte-offset editing of `edit_file` |
| `Mcpe.dfy` | `Mcpe` | the encrypted-file layout, its associated data, encryption as a whole |
| `Ring.dfy`, `Csv.dfy`, `LimitedWrite.dfy` | `Ring`, `Csv`, `LimitedWrite` | the ring buffer and tail reads, the CSV table, the byte-limited writer |
| `DirTree.dfy`, `TreePlaces.dfy` | `DirTree`, `TreePlaces` | `directory_tree` over any graph of directories, and where its listing leads on the file tree with links |

Conventions. Texts, names and files are byte strings; a `Text` is valid UTF-8. Paths
are the component lists of Unix paths. A file system is a map from the names that
lead to a node to its kind, links keep their target, and one walk may follow a
fixed but arbitrary number of links. Rust's truncating division is written out
(`Calendar.TruncDiv`), as are the 16-bit truncation of a key length, saturating and
wrapping 64-bit addition (release builds do not check for overflow) and the 64-bit
bound of parsed cursors; every other number is far from its bound. Loops and objects that the source updates in place are loops and
classes here, each proved against functions or predicates about which the laws are
then stated. What happens outside (JSON parsing, handling of one request, ciphers,
directory walks, glob matching, the answers of an inner writer) is a parameter.

Where code and its own comments differ, the code is followed: the comment at
src/structures.rs:57-59 says that inserting a path makes its parents valid
prefixes, but only the node at the end is marked (line 82).

Some properties hold only under a condition. Each is stated as an equivalence:
`GrantedIsReal` and `GrantedLandsBelowRoot` (a link that leads nowhere, when links are
followed), `RenameChecksOnlyDangling` (the link check of a rename),
`ListingStaysBelow` (a visible link that leads out of the root),
`FoundWhereItOccurs` (an old text that whitespace normalization changes),
`FileUriRoundTrip` (a backslash or a relative path is not recovered), `DecodeAccepts`
(a plus sign behind a percent sign is accepted), `LayoutRoundTrip` (key length,
empty body), `WhenColumnIsAdded` and `AddThenRemove` (ragged rows), `RenameColumn`
(a second column of the old name), `PagesCover` (limits above 10000),
`PathTrie.Contains` (paths with ".."), `LimitedWrite.Copy` (the limit 2^64-1),
`ShapeAndInverse`, `OrderPreserved` and `OrderOverSpan` (times before the epoch and
years above 9999). Concrete inputs for the failing side are in
`DanglingLinkIsGranted`, `RenameThroughLink`, `OutwardLinkIsListed`, `TabIsNotFound`, `PlusIsAccepted`,
`ShortRowIsShifted`, `RenameOneOfTwo`, `LargeLimitSkipsRows`, `BeforeEpoch` and
`OrderBreaksAtYear10000`.

## Model

| member | source | states |
|---|---|---|
| `Calendar.CivilIsGregorian` | src/resources/mod.rs:401-414 | day 0 is 1970-01-01 and the date of day n+1 is the wall-calendar successor (4/100/400 leap rule) of the date of day n, for every integer n |
| `Calendar.CivilIsDateAt` | src/resources/mod.rs:401-414 | the era algorithm agrees with leafing day by day through the calendar, forwards and backwards |
| `Calendar.DaysOfCivil` | src/resources/mod.rs:401-414 | every day number gives a valid date, and days-from-civil of it is that day number |
| `Calendar.CivilOfDays` | src/resources/mod.rs:401-414 | every valid date is the date of its day number |
| `Calendar.CivilIsBijection` | src/resources/mod.rs:401-414 | a day has a given valid date exactly when it is that date's day number |
| `Calendar.CivilIsMonotone` | src/resources/mod.rs:401-414 | an earlier day is an earlier date and the other way round |
| `Calendar.YearOfEraSpan` | src/resources/mod.rs:405-406 | the nested divisions pick the one of 400 March-based years that holds the day |
| `Calendar.DaysOfNextDate` | src/resources/mod.rs:408-412 | the month table agrees with the lengths of the months: the successor of a date counts one day more |
| `Timestamp.ShapeAndInverse` | src/resources/mod.rs:387-399 | for every time the text is a date-time of section 5.6 of RFC 3339 exactly up to the year 9999; it then reads back as the same second exactly for times since the epoch, and as the epoch for earlier ones |
| `Timestamp.OrderPreserved` | src/resources/mod.rs:387-399 | for any two times up to the year 9999 one text is smaller exactly when its time is earlier and the other lies behind the epoch, and the texts are equal exactly when the times are or neither lies behind the epoch |
| `Timestamp.OrderOverSpan` | src/resources/mod.rs:387-399 | over a span of times that starts before the year 10000, text order is time order (section 5.1 of RFC 3339) exactly when the span starts no earlier than the epoch and ends before the year 10000 |
| `Timestamp.OrderBreaksAtYear10000` | src/resources/mod.rs:398 | one second later the text sorts before it |
| `Timestamp.BeforeEpoch` | src/resources/mod.rs:388-391 | exactly the times up to the epoch are shown as 1970-01-01T00:00:00Z |
| `Paths.NormalizePath` | src/validation.rs:12-26 | the push and pop loop computes the left fold `Normalize` |
| `Paths.NormalizeLaws` | src/validation.rs:12-26 | no dot component is left, normalizing twice is normalizing once, absolute stays absolute, and normalizing the first part before a join makes no difference |
| `FileSystem.NormalizePreservesMeaning` | src/validation.rs:12-26 | on a tree without links a path that walks to a node normalizes to the canonical path of the same node |
| `FileSystem.CanonicalizeIdempotent` | src/validation.rs:28-31 | canonicalizing a canonical path changes nothing |
| `Sandboxing.CheckSymlinksInPath` | src/validation.rs:492-512 | accepts exactly the absolute paths without dot components none of whose prefixes is a link |
| `Sandboxing.CanonicalIsNormal` | src/validation.rs:28-44 | what is found for a normalized path is absolute and has no dot components |
| `SandboxLaws.CanonicalizeIsIdentity` | src/validation.rs:28-44 | for a path that passed the link check, canonicalization returns the path itself, for an existing target and for a missing leaf, and fails exactly when target and parent are both missing |
| `Requests.RelativeIsLexical` | src/validation.rs:46-53 | a text that does not start with a slash leads from the working directory where its segments say: an empty one and "." stay, ".." goes up, any other goes down |
| `Requests.AbsoluteIsLexical` | src/validation.rs:46-53 | a text that starts with a slash leads so from the root |
| `Requests.EveryTextHasSegments` | src/validation.rs:46-53 | every text is made of segments with slashes between them, so the two laws are about all requests |
| `Requests.RelativeRequest` | src/validation.rs:46-53 | names asked for without a leading slash have the same outcome as the working directory followed by them |
| `Requests.RequestLeads` | src/validation.rs:107-119 | on a tree without links a request leads to the node that following its segments one by one reaches |
| `Requests.NoWorkingDirectory` | src/validation.rs:51 | without a working directory every relative request is denied |
| `Requests.ResolvableExactly` | src/validation.rs:28-44 | a path is resolved exactly when it leads somewhere, or its last component is a name and the path before it leads somewhere |
| `SandboxLaws.GrantedIsNormalizedRequest` | src/validation.rs:107-119 | with links not followed every granted canonical path is the normalized request |
| `FileSystem.LastNameIsFreeOrLink` | src/validation.rs:28-44 | when a path leads nowhere although its parent is there, its last name is free unless it is a link |
| `SandboxLaws.GrantedIsReal` | src/validation.rs:107-152 | what is granted is a real place, or a free name in a real place, exactly when the request is no link that leads nowhere, which it never is with links not followed |
| `SandboxLaws.GrantedLandsBelowRoot` | src/validation.rs:107-166 | opening the granted path for writing ends at that very place exactly when the request is no link that leads nowhere, and below an allowed root exactly then or when that link's target leads below one; otherwise it fails only for a directory and for a free name whose parent is none |
| `FileSystem.OpenMeaning` | src/validation.rs:28-44 | what opening a canonical path for writing makes of an existing place, a free name and a link |
| `SandboxLaws.DanglingLinkIsGranted` | src/validation.rs:28-44 | with links followed, a link below the root to a missing name outside of it is granted as it stands, and a file opened for writing there is created outside |
| `SandboxLaws.GrantedBelowRoot` | src/validation.rs:121-151 | the handle is that of the longest allowed root that is a component prefix, and the canonical path is this root followed by the relative path, which is "." for the root itself |
| `SandboxLaws.NoInternalMismatch` | src/validation.rs:107-152 | each outcome of `resolve` with its exact cause; the missing map entry and the failing prefix removal never happen |
| `SandboxLaws.CanonicalResolvesToItself` | src/validation.rs:107-152 | a real place below some root resolves to itself, links followed or not |
| `SandboxLaws.TrieMatchesRoots` | src/config.rs:73-89 | the trie built from the allowed list holds exactly the keys of the roots opened from it |
| `SandboxLaws.OpenableMeaning` | src/validation.rs:74-97 | exactly the allowed directories that lead to a directory can be opened, each at its real place; the others are kept as written |
| `SandboxLaws.Start` | src/validation.rs:74-97 | start succeeds exactly when every allowed directory opens, and then trie and roots agree |
| `Sandboxing.OpenRoots` | src/validation.rs:74-96 | the map of roots has the canonical paths of the allowed directories as keys, each opened at itself |
| `Sandboxing.BuildAllowedTrie` | src/config.rs:73-89 | the trie holds the canonical, or else the absolute, form of every allowed directory |
| `Sandboxing.Config.RebuildTrie` | src/config.rs:211-213 | the trie follows the changed list |
| `Sandboxing.Sandbox.New` | src/validation.rs:74-97 | fails exactly when some directory cannot be opened; keeps the trie of the configuration |
| `Sandboxing.Sandbox.ResolveRequest` | src/validation.rs:107-152 | the staged method computes `Resolve` over the trie's inserted paths |
| `Sandboxing.Sandbox.PlanRename` | src/validation.rs:172-232 | each outcome of the planning part with its cause; the plan names the closest roots, the relative paths rejoin to the resolved paths, the unwraps are safe |
| `SandboxLaws.RenameChecksOnlyDangling` | src/validation.rs:213-219 | the link check inside a rename, made on canonical paths, refuses an end exactly when the request is a link that leads nowhere |
| `SandboxLaws.RenameThroughLink` | src/validation.rs:172-219 | with links not followed, a request through a link into another root is denied by `resolve` but planned by a rename, which moves the file behind the link |
| `PrefixTrie.LongestMeaning` | src/structures.rs:134-187 | `Longest` is the inserted prefix that holds every other one, and None exactly when there is none |
| `PrefixTrie.PathTrie.Insert` | src/structures.rs:60-83 | adds exactly the path without its dot components to the inserted set, whatever was inserted before |
| `PrefixTrie.PathTrie.Extend` | src/structures.rs:190-194 | a list of inserts adds the set of its members |
| `PrefixTrie.PathTrie.LongestPrefix` | src/structures.rs:135-187 | returns the longest inserted prefix of the part before the first ".." |
| `PrefixTrie.PathTrie.Contains` | src/structures.rs:87-132 | true exactly when the longest prefix exists and, if the path has a "..", the part before it leaves the trie |
| `PrefixTrie.KeyMeaning` | src/structures.rs:66-80 | an insert keeps the root and the names in their order and drops "." and ".." |
| `PrefixTrie.FollowedStops` | src/structures.rs:160-171 | a lookup sees nothing of a path from its first ".." on |
| `PrefixTrie.FollowedIsKey` | src/structures.rs:115-116 | without ".." a lookup sees the path just as an insert stores it |
| `PrefixTrie.PathTrie.Descend` | src/structures.rs:28-38 | the cursor step finds or makes the child and keeps the trie's shape |
| `UriCodec.EncodeUriPath` | src/resources/mod.rs:346-357 | the byte loop computes `Encode` |
| `UriCodec.EncodeCharacters` | src/resources/mod.rs:346-357 | the output has only ASCII letters, digits, the characters -._~/: and percent signs, and a text comes out unchanged exactly when it has no other than the first |
| `UriCodec.ByteEncoding` | src/resources/mod.rs:348-354 | any other byte becomes a percent sign and two upper-case hexadecimal digits |
| `UriCodec.EscapeMeaning` | src/resources/mod.rs:364-377 | an escape decodes to the byte that its digits write in base 16, in capital or small letters |
| `UriCodec.DecodeUriPath` | src/resources/mod.rs:359-385 | the index loop computes `Decode`, with its three errors |
| `UriCodec.DecodeOfEncode` | src/resources/mod.rs:346-385 | decoding undoes encoding on every byte string |
| `UriCodec.EncodeConcat` | src/resources/mod.rs:346-357 | encoding distributes over concatenation |
| `UriCodec.EncodeInjective` | src/resources/mod.rs:346-357 | different strings have different encodings |
| `UriCodec.NormalFormIsImage` | src/resources/mod.rs:346-385 | the encoder's outputs are exactly the strings in percent-encoding normal form, and exactly those are given back by decoding and encoding |
| `UriCodec.DecodeAccepts` | src/resources/mod.rs:364-377 | exactly those strings decode in which a hexadecimal digit or a plus sign and then a digit follow every percent sign; without such plus signs these are the well-escaped strings of section 2.1 of RFC 3986 |
| `UriCodec.PlusIsAccepted` | src/resources/mod.rs:373 | "%+F" decodes to the byte 15 |
| `UriCodec.FileUriStart` | src/resources/mod.rs:252-275 | every file URI starts with file:/// and nothing without file:// is read |
| `UriCodec.FileUriRoundTrip` | src/resources/mod.rs:252-275 | a path comes back from its file URI exactly when it is absolute and has no backslash |
| `Paths.RenderMeaning` | src/resources/mod.rs:252-258 | the text of an absolute path is a slash for the root, and otherwise one slash in front of each name |
| `Paths.ParseOfRender` | src/resources/mod.rs:274 | the text of an absolute path reads back as its components |
| `Resources.ScanResources` | src/resources/mod.rs:142-212 | starts exactly when every allowed directory leads somewhere; lists only regular files at their own places below allowed roots, walked to without a name that starts with a dot below the root; at most 10000, and below that number every such file that the walks saw |
| `Resources.ListedUriResolves` | src/resources/mod.rs:55-98 | a listed URI decodes to its path exactly when that has no backslash, and the path resolves through the sandbox to the listed file |
| `Paging.FollowCursors` | src/resources/mod.rs:18-53 | following the cursors concatenates to the whole list in the least number of requests |
| `Paging.NextCursorAdvances` | src/resources/mod.rs:40-51 | a cursor lies behind the one before, inside the list, and is absent exactly on the last page |
| `Paging.CursorOnChangedList` | src/resources/mod.rs:18-53 | a cursor handed out for one list is good for a later list exactly when that one reaches as far, is never taken for malformed, and the pages join without a gap when the lists agree up to it |
| `Paging.AnswerToCursor` | src/resources/mod.rs:18-53 | a request is answered exactly when its cursor is absent or writes a number up to the end of the list, with the next 250 entries; a cursor that writes no 64-bit number is malformed |
| `Paging.PageMeaning` | src/actions/csv.rs:78-115 | a page holds the rows from its offset on, as many as the limit and the bound of 10000 allow; without a limit it is the page of limit 10000 |
| `Paging.PagesTile` | src/actions/csv.rs:78-115 | pages of a limit up to 10000 tile the rows |
| `Paging.PagesCount` | src/actions/csv.rs:113-115 | it takes no more pages than the rows need |
| `Paging.PagesCover` | src/actions/csv.rs:78 | advancing by the requested limit shows the whole table exactly when the limit is honoured or one page is enough |
| `Paging.LargeLimitSkipsRows` | src/actions/csv.rs:78-115 | with a limit of 20000 the last of 10001 rows is on no page |
| `Paging.ReadersAgree` | src/actions/csv.rs:328-462 | a row range is a page and a selection its projection exactly up to 100 rows, a column range is a column of it exactly up to 1000; the end index stays within 64 bits |
| `Paging.OpenEndedReaders` | src/actions/csv.rs:349-462 | without an end the row range is a page of one row, and column range and selection show what all pages from there on show together; the end index stays within 64 bits |
| `Paging.CellsOfRange` | src/actions/csv.rs:350-460 | a column range and a selection, cell by cell |
| `Decimals.ParseOfDecimal` | src/resources/mod.rs:50 | a cursor written in decimal parses back to itself |
| `Decimals.ParseExactly` | src/resources/mod.rs:19-24 | a text is a cursor for n exactly when it writes n in decimal, behind any zeros and at most one plus sign, and n fits into 64 bits |
| `Stdio.ReadLineCapped` | src/server.rs:170-221 | for every chunking the result is the first line of the concatenated input, and the line buffer never exceeds the cap |
| `Stdio.FramesMeaning` | src/server.rs:264-291 | the delivered lines, each within the cap and with a newline only at its end, are the front of the input; the run stops at the end, at a read error or at the first line that is too long |
| `Stdio.ProcessOneLine` | src/server.rs:309-352 | a request without "id" member leaves the output as it is; with one it adds one answer under exactly that id, with the result of the work, its error code, or -32000 when time is up; any other line adds one answer without id and with -32700 |
| `Stdio.RequestOfMeaning` | src/protocol.rs:32-61 | a value is read as a request exactly when its members "jsonrpc", "method" and "id" are as required, and the request is made of its members |
| `Stdio.RunStdio` | src/server.rs:264-291 | the whole run writes the answers to exactly these lines in order, and one error for a line that is too long |
| `Stdio.AnsweredOnceInOrder` | src/server.rs:309-343 | every line but a notification (section 4.1 of JSON-RPC 2.0) has exactly one answer, in order, with the id of its request and its result |
| `Utf8.ValidIsEncoding` | src/actions/files.rs:627-644 | valid text is exactly what encodes a sequence of Unicode scalar values (section 3 of RFC 3629) |
| `Utf8.SplitValid` | src/actions/files.rs:285-295 | cutting valid text at a boundary leaves valid texts |
| `Utf8.MatchEndsAtBoundary` | src/actions/files.rs:283-284 | a match of valid text in valid text ends at a boundary |
| `TextEdit.FloorCharBoundary` | src/actions/files.rs:627-635 | the largest boundary at or below the index |
| `TextEdit.CeilCharBoundary` | src/actions/files.rs:638-644 | the smallest boundary at or above the index |
| `TextEdit.DetectIndent` | src/actions/files.rs:646-657 | tabs exactly when more lines start with a tab than with two spaces |
| `TextEdit.IndentByMajority` | src/actions/files.rs:646-657 | tabs exactly when more lines start with a tab than with two spaces, four spaces on a tie |
| `TextEdit.LinesMeaning` | src/actions/files.rs:649 | lines have no newline and give the text back when newlines end them |
| `TextEdit.WhitespaceValid` | src/actions/files.rs:659-665 | whitespace normalization keeps text valid |
| `TextEdit.WhitespaceIdempotent` | src/actions/files.rs:659-665 | normalizing whitespace twice is normalizing it once |
| `TextEdit.TabsLeaveNoRun` | src/actions/files.rs:660-661 | no run of four spaces is left |
| `TextEdit.WhitespaceKeepsExpanded` | src/actions/files.rs:659-665 | with tabs written as four spaces the text is the same before and after |
| `TextEdit.FirstOccurrenceReplaced` | src/actions/files.rs:283-295 | the new text stands where the old text first occurred, with nothing changed around it |
| `TextEdit.ReplacementValid` | src/actions/files.rs:283-295 | match start and end are boundaries and the replaced text is valid |
| `TextEdit.WindowBounds` | src/actions/files.rs:285-286 | context start, match and context end are in order, each side spans at most 43 bytes, and the context is valid text |
| `TextEdit.EditOnce` | src/actions/files.rs:271-302 | one edit replaces the first occurrence of the old text in its normalized form or leaves the text alone, and is reported with its place and context |
| `TextEdit.FoundWhereItOccurs` | src/actions/files.rs:280-284 | an old text is found in every text where it occurs exactly when normalization leaves it alone: no run of four spaces under tab indentation, no tab under spaces |
| `TextEdit.NormalOccursInItself` | src/actions/files.rs:659-665 | a text holds its own normalized form only when it is normalized |
| `TextEdit.TabIsNotFound` | src/actions/files.rs:280-302 | an old text with a tab at the very start of the content is reported as not found |
| `TextEdit.EditFile` | src/actions/files.rs:271-307 | from the content on each edit turns the text that the edits before it left, replacing the first occurrence or nothing; report k describes edit k on that text; a missing old text is the only error; nothing is written on a dry run |
| `TextEdit.ApplyTurns` | src/actions/files.rs:280-302 | one edit puts the new text where the old one first occurred, or changes nothing when it does not occur |
| `Mcpe.BuildHeader` | src/actions/crypto.rs:551-560 | every part stands at its place, and the length that is read back is that of the key exactly up to 65535 bytes |
| `Mcpe.LayoutRoundTrip` | src/actions/crypto.rs:551-587 | a file parses back into its parts exactly when the encapsulated key has at most 65535 bytes and the body is not empty |
| `Mcpe.ParsedIsWritten` | src/actions/crypto.rs:563-587 | every file that parses is byte for byte what its parts are written as |
| `Mcpe.ParsesExactlyWritten` | src/actions/crypto.rs:563-587 | exactly the files written from a nonce of 12 bytes, a key of at most 65535 bytes and a body that is not empty parse; which error each other file gets |
| `Mcpe.EachAlgorithm` | src/actions/crypto.rs:370-547 | which cipher, key, encapsulated key and associated data each algorithm byte stands for |
| `Mcpe.AssociatedDataCovers` | src/actions/crypto.rs:383-384 | the associated data determines the algorithm, the key length and all of the encapsulated key but its last two bytes, and nothing else |
| `Mcpe.AlikeFiles` | src/actions/crypto.rs:178-245 | exactly which two files decrypt alike under all keys and primitives: equal ones, the same layout error, unknown algorithms, or one symmetric algorithm, nonce and body, whatever the encapsulated key |
| `Mcpe.DecryptUndoesEncrypt` | src/actions/crypto.rs:370-547 | decrypting undoes encrypting for all four algorithms, given that opening undoes sealing and decapsulation recovers the secret |
| `Ring.RingBuffer.Push` | src/structures.rs:231-240 | appends and, when full, drops the oldest |
| `Ring.RingBuffer.Pop` | src/structures.rs:242-250 | removes and returns the oldest |
| `Ring.RingBuffer.ToVec` | src/structures.rs:269-278 | the elements, oldest first |
| `Ring.RingBuffer.IntoVec` | src/structures.rs:281-287 | the same elements, leaving nothing |
| `Ring.CollectIter` | src/structures.rs:311-321 | the iterator yields the same elements |
| `Ring.Perform` | src/structures.rs:217-250 | over every run of pushes and pops the ring holds what the drop-oldest queue holds |
| `Ring.QueueIsRecent` | src/structures.rs:231-250 | that queue is the latest pushes without a gap, within the capacity |
| `Ring.ReadTail` | src/actions/files.rs:90-107 | the last min(t, total) lines in order and the number of lines; fails exactly when some line cannot be read |
| `Csv.CollectIndex` | src/actions/csv.rs:528-532 | the index sends every header to its last place and nothing else |
| `Csv.SetCellView` | src/actions/csv.rs:172-177 | writing a cell, with padding, changes no other cell |
| `Csv.CsvData.ResolveColumn` | src/actions/csv.rs:575-599 | a number names the column at that place, a name the last column of that name, and anything else is an error |
| `Csv.CsvData.UpdateCell` | src/actions/csv.rs:150-178 | exactly one cell of the table is seen to change |
| `Csv.CsvData.RemoveRow` | src/actions/csv.rs:191-208 | exactly one row is gone |
| `Csv.CsvData.AddColumn` | src/actions/csv.rs:222-241 | fails exactly on a known name; every row grows by the default and the index stays true |
| `Csv.WhenColumnIsAdded` | src/actions/csv.rs:239-241 | when pushing the default really fills the new column and nothing else |
| `Csv.ShortRowIsShifted` | src/actions/csv.rs:239-241 | behind a short row the default lands in an old column |
| `Csv.CsvData.RemoveColumn` | src/actions/csv.rs:256-273 | header and cells of one column go, and the index is true again |
| `Csv.RemovalKeepsOtherColumns` | src/actions/csv.rs:261-273 | every name that does not lead to the removed column looks up the same cell as before, on ragged rows and with repeated names too |
| `Csv.CsvData.RenameColumn` | src/actions/csv.rs:292-308 | the index stays true exactly when no second column had the old name |
| `Csv.RenameOneOfTwo` | src/actions/csv.rs:299-308 | of two columns with one name the second is renamed, and the first is not found any more |
| `Csv.AddThenRemove` | src/actions/csv.rs:239-273 | when adding and removing a column gives a row back |
| `Csv.AddThenRemoveColumn` | src/actions/csv.rs:222-273 | on rectangular tables adding and removing a fresh column changes nothing |
| `Csv.CsvData.AddRows` | src/actions/csv.rs:601-646 | succeeds exactly when all rows fit; each new row stores its named cells in their columns and is empty elsewhere |
| `LimitedWrite.LimitedWriter.PollWrite` | src/actions/compress.rs:98-118 | refuses a buffer that does not fit before writing any of it; the 64-bit count is exact and within the limit, below the largest limit |
| `LimitedWrite.Copy` | src/actions/compress.rs:153-157 | for every chunking and all short writes the copy succeeds exactly when the total is within the limit, or the limit is 2^64-1, which nothing exceeds |
| `DirTree.BuildTree` | src/actions/dirs.rs:327-401 | emits only sound nodes paid for by the budget, never a directory that could not be read, and within the budget exactly the full listing |
| `DirTree.FullTreeIsExact` | src/actions/dirs.rs:334-400 | the full listing has a node for exactly the visible places |
| `DirTree.SoundPlaces` | src/actions/dirs.rs:337-387 | no node lies below depth 64, is excluded, or lies below an excluded place or a hidden name |
| `DirTree.SoundIsVisible` | src/actions/dirs.rs:327-401 | every node of a sound tree is a visible place, also beyond the budget |
| `DirTree.VisitsAreNodes` | src/actions/dirs.rs:344-347 | among files and readable directories the budget is spent on the nodes of the listing and on nothing else |
| `TreePlaces.KindMeaning` | src/actions/dirs.rs:349-398 | a place is taken for a directory or a file exactly when it leads to one; special files and broken links are not shown |
| `TreePlaces.VisibleStaysBelow` | src/actions/dirs.rs:349-387 | without a visible link that leads out of the listed root every visible place lies below it |
| `TreePlaces.ShownStaysBelow` | src/actions/dirs.rs:349-387 | what a listing shows lies below the root exactly when it shows no link that leads out |
| `TreePlaces.ListingStaysBelow` | src/actions/dirs.rs:160-176 | without a visible link that leads out of the root everything listed lies below it, at any size; with one, and within the budget, something listed does not |
| `TreePlaces.OutwardLinkIsListed` | src/actions/dirs.rs:349-387 | a link to a directory outside of the root is followed, and what lies there is shown |
| `DirTree.ListTree` | src/actions/dirs.rs:171-176 | at most 100000 nodes on any directory graph, only visible places, and exactly those when the ones visited fit |

## Left out

- HTTP transport, TLS, sessions, OAuth, the PHP proxy, the browser UI and command-line parsing: plumbing around libraries.
- Tool tables, category gates, protocol version negotiation and the shape of JSON results: finite or one-branch facts.
- Ciphers, ML-KEM, hashing, random bytes, compression and tar formats: foreign code; only the assumption that opening undoes sealing is used.
- The CSV parser and writer: tables are in memory, between reading and writing.
- Hex decoding of keys, key files and the derived output paths of the encryption and compression tools.
- The order of the listed resources, sorted by URI by a library call behind the entry for the browser page.
- Failures of cloning a directory handle, permissions, and changes of the file system between a check and a use.
- The move, copy or link creation itself: only the planning part of `rename` is modelled; `copy` and `create_symlink` resolve their two paths by the same stages.
- Windows paths, names that are not UTF-8, NUL bytes, and the rule that a trailing slash or "." demands a directory.
- Lossy decoding of lines and files that are not UTF-8: edited files are texts, and decoding a line belongs to its parser.
- Time limits: a request that runs out of time is one of the outcomes its handler may have.
- Failing writes of answers, and waking up after a pending write, which leaves the writer as it was.
- `Ring.ReadTail`: a tail of 0 is left out, since pushing into a buffer without capacity is an index error in the source.
- `Timestamp.OrderPreserved`: the order among times that all lie above the year 9999 is left out; section 5.1 of RFC 3339 is about four-digit years.
