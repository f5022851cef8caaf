# LoadMap MAP reader and loader, modelled in Dafny

LoadMap is an IDA Pro plugin. It reads a linker MAP file and writes the
symbols it lists into the open database, as names or as comments. It
understands these MAP dialects:

- MSVC "Publics by Value" tables;
- Borland "Publics by Name" and "Publics by Value" tables;
- Watcom memory maps;
- GNU ld "Linker script and memory map" listings (in the newer tree only).

The repository carries two versions of the plugin: the newer one under
`src/` and the older one under `trunk/src/`.

This project models the following, for both trees:

- **The MAP reader.** This is `skipSpaces`, `findEOL`,
  `recognizeSectionStart`, `recognizeSectionEnd` and the three symbol-line
  parsers. The `sscanf` calls inside the parsers become hand-written
  recognisers of their format strings. Each recogniser is proved complete
  and sound against a grammar of the lines it accepts.
- **`linearAddressToSymbolAddr`.** It runs over an explicit segment table.
- **The parse loop of `run`.** This covers the line walk, the section state
  machine, the dispatch to a parser, the DeDe name prefixes and the
  name/comment writes, together with how `run` ends.
- **`pathExtensionSwitch`.** Both copies are modelled: the shared one, which
  uses `strncpy`, and the older tree's static one, which uses `qstrncpy`.

The model is 32-bit, like the build without `__EA64__`:

- addresses and segment numbers are values below 2^32;
- `(unsigned long)-1` is `ALL_ONES`, which is also `BADADDR`;
- `la` wraps around modulo 2^32.

The database is a `Host` value. It says which addresses already hold a
meaningful name or a comment, and whether the host accepts a given write.
A `Session` records the names and comments the loop has written.

Modules:

- `Text`: the C character classes and prefix tests. The strings are C
  strings, so they are NUL-free.
- `MapTypes`: the types of `MAPReader.h`.
- `Sections`: the header and end-marker recognisers.
- `ScanFormat`: the `sscanf` recognisers and their grammars.
- `Parsers`: the three line parsers.
- `Segments`: the segment table and `linearAddressToSymbolAddr`.
- `Scanner`: `skipSpaces`, `findEOL` and the line structure of a buffer.
- `Loader` and `LoaderProps`: the newer loop and its properties.
- `TrunkReader` and `TrunkLoader`: the older reader and loop.
- `PathExtension`: both `pathExtensionSwitch` copies.
- `ParserExamples`: worked lines of each dialect.

The older tree's `skipSpaces`, `findEOL` and `parseWatcomSymbolLine` are the
same code as the newer tree's in the 32-bit build. They are modelled once,
in `Scanner` and `Parsers`. `trunk/src/stdafx.cpp` is identical to
`src/stdafx.cpp`, so `PathExtension.PathExtensionSwitch` models both.

Three behaviours of the code are easy to misread:

- The GNU-ld parser reads at most eight hex digits (`%08lX`) in the 32-bit
  build. So a 64-bit-wide `0x0000000000401000` address is misread as 0, and
  the line is refused (`ParserExamples.GccWideLine`).
- In the older loop, the end of an MSVC table does not close the section
  (see Findings).
- The end marker `" Exports"` and the GNU-ld skip prefixes `" ."` and
  `" *"` begin with a blank. The loop hands on only lines that begin with a
  non-blank character, so these three never match
  (`LoaderProps.BlankMarkersUnreachable`).

## Model

| member | source | states |
|---|---|---|
| Text.Take | src/MAPReader.cpp:263-264 | `strncpy` into a bounded buffer: the result is the prefix of the input of length min(n, input length) |
| MapTypes.SectionOrdinal | trunk/src/MAPReader.h:25-31 | the enum values of SectionType: below 5 in the older header, 0 exactly for NO_SECTION |
| Scanner.SkipSpaces | src/MAPReader.cpp:143-156 | the loop stops at `end` or at the first non-`isspace` character, and everything skipped is whitespace |
| Scanner.FindEol | src/MAPReader.cpp:166-179 | the loop stops at `end` or at the first CR/LF, and nothing passed is CR/LF |
| Scanner.SkipWhiteUnique | src/MAPReader.cpp:150-153 | the stopping point of `skipSpaces` is the unique index with those two properties |
| Scanner.LineEndUnique | src/MAPReader.cpp:173-176 | the stopping point of `findEOL` is the unique index with those two properties |
| Scanner.LinesWellFormed | src/LoadMap.cpp:252-260 | every line the loop visits starts with a non-blank character and holds no CR/LF |
| Scanner.LinesCount | src/LoadMap.cpp:252-260 | the loop visits no more lines than the buffer has characters |
| Sections.StartIsFirstHit | src/MAPReader.cpp:189-202 | `recognizeSectionStart` returns the dialect of the first header in source order of which the line is a case-insensitive prefix (`strncasecmp` over the line's length), or NO_SECTION |
| Sections.StartHitIsPrefix | src/MAPReader.cpp:189-202 | a recognised line is a case-insensitive prefix of that dialect's header |
| Sections.NeverBorlandByValue | src/MAPReader.cpp:191-196 | no line yields BCCL_VAL_MAP, because every prefix of the Borland by-value header is also a prefix of the MSVC header tested first |
| Sections.StartIgnoresCase | src/MAPReader.cpp:189-202 | two lines that agree up to case are recognised alike |
| Sections.ExactMsvcHeadersRecognised | src/MAPReader.cpp:31-32 | both MSVC header spellings open an MSVC section |
| Sections.ExactBorlandNameHeaderRecognised | src/MAPReader.cpp:33 | the Borland by-name header opens a Borland by-name section |
| Sections.ExactWatcomHeaderRecognised | src/MAPReader.cpp:35 | the Watcom header opens a Watcom section |
| Sections.ExactGccHeaderRecognised | src/MAPReader.cpp:42 | the GNU-ld header opens a GNU-ld section |
| Sections.RecognizeSectionEnd | src/MAPReader.cpp:213-238 | the result is NO_SECTION or the section passed in |
| Sections.EndIsMarkerMatch | src/MAPReader.cpp:213-238 | an open section ends exactly when the line starts (case-sensitively) with one of its own dialect's markers |
| Sections.BorlandNeverEnds | src/MAPReader.cpp:225-227 | no line ends a Borland section |
| Sections.MarkersAreOwnDialect | src/MAPReader.cpp:217-235 | a line that starts with any end marker of one dialect closes that dialect's section and leaves the section of every other dialect, Borland included, open |
| ScanFormat.MsComplete | src/MAPReader.cpp:273 | every line of the form ` %04lX : %08lX %[^\t\n ;]` is accepted, with the values of its hex tokens and its name |
| ScanFormat.MsSound | src/MAPReader.cpp:273 | every accepted line has that form |
| ScanFormat.WatcomComplete | src/MAPReader.cpp:335 | every line of the form ` %04lX : %08lX%*c %[^\t\n;]` is accepted with its values |
| ScanFormat.WatcomSound | src/MAPReader.cpp:335 | every accepted Watcom line has that form |
| ScanFormat.GccComplete | src/MAPReader.cpp:406 | every line of the form ` 0x%08lX%*c %[^\t\n;]` is accepted with its values |
| ScanFormat.GccSound | src/MAPReader.cpp:406 | every accepted GNU-ld line has that form |
| Parsers.CutKeepsPrefix | src/MAPReader.cpp:255-260 | cutting the line to MAXNAMELEN + minLineLen characters changes no prefix test the parsers make |
| Parsers.CheckFields | src/MAPReader.cpp:281-288 | a scanned line is a symbol exactly when its segment is 1 to numOfSegs and its address is not all ones; the stored segment is one less |
| Parsers.Scanned | src/MAPReader.cpp:276-288 | a failed scan is FINISHING_LINE and leaves the record as it was; otherwise the checks decide |
| Parsers.ParseMsSymbolLine | src/MAPReader.cpp:251-289 | never SKIP_LINE; a symbol has a segment below numOfSegs, an address other than all ones, a non-empty name, and its name fits MAXNAMELEN |
| Parsers.MsComment | src/MAPReader.cpp:261-267 | a comment exactly when the line starts with ';'; the name is the text that follows, cut to MAXNAMELEN-1 characters, which is the intended name (see Findings for the byte the C leaves after it) |
| Parsers.CommentNameAsWritten | src/MAPReader.cpp:263-264 | the name the C copy leaves: the text's first MAXNAMELEN-1 characters, then the record's previous byte 511 when the text is that long and the byte is not NUL; NUL-free and within MAXNAMELEN |
| Parsers.MsCommentUnterminated | src/MAPReader.cpp:261-267 | for a ';' comment of MAXNAMELEN or more characters and a non-NUL previous byte 511, the C name is the model's name plus that byte |
| Parsers.MsFinishing | src/MAPReader.cpp:268-280 | a non-comment line ends the table exactly when it is no line of the MSVC grammar; the address is then all ones |
| Parsers.MsDecoded | src/MAPReader.cpp:273-288 | a line of the grammar is a symbol exactly when its segment is 1..numOfSegs and its address is not all ones, and the record is then (segment-1, address, name) |
| Parsers.ParseWatcomSymbolLine | src/MAPReader.cpp:302-351 | a skipped line leaves the record as it was; a symbol has a segment in range, an address other than all ones and a non-empty, fitting name |
| Parsers.WatcomSkip | src/MAPReader.cpp:319-323 | skipped exactly when the line starts with the `=======        ======` banner (any case) and not with ';' |
| Parsers.WatcomComment | src/MAPReader.cpp:312-330 | a comment exactly when the line starts with ';' or with "Module: ", holding the text after it cut to MAXNAMELEN-1 characters, the intended name (see Findings) |
| Parsers.WatcomFinishing | src/MAPReader.cpp:331-342 | any other line ends the table exactly when it is no line of the Watcom grammar |
| Parsers.WatcomDecoded | src/MAPReader.cpp:335-350 | a line of the Watcom grammar is a symbol exactly when its segment and address pass the checks, and the record is then decoded |
| Parsers.ParseGccSymbolLine | src/MAPReader.cpp:364-422 | a skipped line leaves the record as it was; a symbol lies in a segment of the table, at an offset other than all ones, with a non-empty fitting name |
| Parsers.Placed | src/MAPReader.cpp:409-421 | a failed scan ends the table; otherwise the linear address is placed in the table and the checks decide |
| Parsers.GccSkip | src/MAPReader.cpp:381-392 | skipped exactly when the line starts with ".", " .", "*" or " *" and not with ';' |
| Parsers.GccComment | src/MAPReader.cpp:374-399 | a comment exactly when the line starts with ';' (text after it) or "LOAD " (the whole line), cut to MAXNAMELEN-1 characters, the intended name (see Findings) |
| Parsers.GccFinishing | src/MAPReader.cpp:400-413 | any other line ends the table exactly when it is no line of the GNU-ld grammar |
| Parsers.GccDecoded | src/MAPReader.cpp:406-421 | a line of the grammar is a symbol exactly when some segment holds its address at an offset other than all ones; the record is then that segment and offset |
| Segments.SegmentNumberFrom | src/LoadMap.cpp:79 | `get_segm_num`: the first segment from a given index on that contains the address, or -1 when none does |
| Segments.LinearAddressToSymbolAddr | src/LoadMap.cpp:77-85 | the segment number is in range exactly when some segment holds the address; the record is then the first such segment and the offset in it; otherwise segment and offset are both all ones |
| Loader.DedePolicy | src/LoadMap.cpp:347-366 | the name written is a suffix of the symbol's name, with only the dropped prefix before it |
| Loader.ApplySymbol | src/LoadMap.cpp:368-400 | a symbol leaves the session as it was, counts one refusal, or writes one name or one comment at `la` and counts it |
| Loader.Dispatch | src/LoadMap.cpp:290-315 | with no section open the line is skipped; a comment keeps the reset address BADADDR; a symbol's segment lies in the table |
| Loader.Outcome | src/LoadMap.cpp:317-346 | the handling of a parse result adds at most one to the counters and never counts a section |
| Loader.ProcessLine | src/LoadMap.cpp:256-400 | one pass of the loop body: the counters never decrease and grow by at most one together |
| Loader.Run | src/LoadMap.cpp:186-230 | an open failure reports the error that openMAP returned |
| Loader.DedeStep | src/LoadMap.cpp:347-366 | the pointer arithmetic on `pname` and the flag it forces give exactly DedePolicy |
| Loader.WriteSymbol | src/LoadMap.cpp:368-400 | the name/comment write block computes ApplySymbol |
| Loader.HandleLine | src/LoadMap.cpp:268-346 | the state machine, reset, switch and `if` chain compute ProcessLine |
| Loader.HandleOutcome | src/LoadMap.cpp:317-400 | the `if` chain on the parse result computes Outcome |
| Loader.ParseMap | src/LoadMap.cpp:245-408 | the loop from the cursor set-up to the end of the buffer yields Parse, the line-by-line fold of ProcessLine over the buffer's lines |
| LoaderProps.BlankMarkersUnreachable | src/MAPReader.cpp:41-46 | no line the loop visits starts with " Exports", " ." or " *" |
| LoaderProps.ShortLineSkipped | src/LoadMap.cpp:261-265 | a line shorter than 14 characters leaves the session unchanged whatever section is open |
| LoaderProps.ShortLinesIgnored | src/LoadMap.cpp:252-265 | a run over a list of lines ends in the same session as a run over its lines of at least 14 characters only |
| LoaderProps.NoSectionLine | src/LoadMap.cpp:270-280 | with no section open a line of at least 14 characters that is a header opens and counts that section, and any other line changes nothing |
| LoaderProps.OpenSectionLine | src/LoadMap.cpp:281-289 | with a section open an end marker closes it and changes nothing else; any other line is parsed, and the section stays or becomes NO_SECTION |
| LoaderProps.OutcomeQuiet | src/LoadMap.cpp:317-346 | a skipped line and a comment line change nothing |
| LoaderProps.MsvcTableEnds | src/LoadMap.cpp:323-330 | in an MSVC or Borland section, a non-comment line outside the grammar closes the section and changes nothing else |
| LoaderProps.MsvcSymbolWritten | src/LoadMap.cpp:299-304 | in an MSVC or Borland section, a line of the grammar is dispatched as a symbol exactly when its segment is in range and its address is not all ones, with that record |
| LoaderProps.GccLinearRoundTrip | src/LoadMap.cpp:368 | for a GNU-ld symbol, `la` computed back from the segment and offset is the linear address on the line |
| LoaderProps.DedeRoundTrip | src/LoadMap.cpp:349-366 | "<-" + n gives a name n, "*" + n and "->" + n give a comment n |
| LoaderProps.DedeOther | src/LoadMap.cpp:349-366 | a name with none of the prefixes is kept, with the configured choice |
| LoaderProps.DedeCases | src/LoadMap.cpp:349-366 | the result is one of the four cases |
| LoaderProps.DedeFunctionExample | src/LoadMap.cpp:349-354 | a DeDe function entry becomes a name even with names switched off |
| LoaderProps.ApplyKeeps | src/LoadMap.cpp:371-391 | with REPLACE_EXISTING off, a write never touches a meaningful name or an existing comment |
| LoaderProps.ProcessKeeps | src/LoadMap.cpp:256-400 | the same holds for one pass of the loop body |
| LoaderProps.RunKeeps | src/LoadMap.cpp:252-401 | the same holds for any run of lines |
| LoaderProps.ParseKeepsExisting | src/LoadMap.cpp:245-408 | with REPLACE_EXISTING off, no address the database names meaningfully, and none with a comment, is written over in the whole file |
| LoaderProps.RunCounters | src/LoadMap.cpp:232-235 | the counters never decrease and grow by at most one per line |
| LoaderProps.ParseCountersBounded | src/LoadMap.cpp:232-235 | the three counters together stay below the buffer size, so they cannot wrap |
| LoaderProps.RunWithoutHeader | src/LoadMap.cpp:270-289 | with no section open and no header met, a run of lines changes nothing |
| LoaderProps.ParseWithoutHeader | src/LoadMap.cpp:418-421 | a file reported as no MAP file has had no write and no count |
| LoaderProps.RunReportsHonestly | src/LoadMap.cpp:186-230 | `run` goes on to parse exactly when there are segments, a file was picked and it opened; "loaded" means a header was found; "no MAP file" means the session is untouched |
| TrunkReader.TrunkRecognizeSectionStart | trunk/src/MAPReader.cpp:181-192 | never GNU-ld, never Borland by value; a hit is a case-insensitive prefix of the MSVC, Borland by-name or Watcom header |
| TrunkReader.SecondSpellingOnly | trunk/src/MAPReader.cpp:30 | a line matching only the newer second MSVC spelling is longer than the part the two spellings share |
| TrunkReader.TrunkStartVersusNewer | trunk/src/MAPReader.cpp:181-192 | the older recogniser agrees with the newer one except on GNU-ld headers and lines only the second MSVC spelling accepts |
| TrunkReader.TrunkRecognizeSectionEnd | trunk/src/MAPReader.cpp:203-214 | the result is NO_SECTION or the section passed in |
| TrunkReader.TrunkEndIsMarkerMatch | trunk/src/MAPReader.cpp:203-214 | any open section ends exactly when the line starts with one of the four markers |
| TrunkReader.TrunkEndCoversNewer | trunk/src/MAPReader.cpp:203-214 | every line that closes a section in the newer reader closes it in the older one |
| TrunkReader.TrunkMarkersCloseAny | trunk/src/MAPReader.cpp:203-214 | "FIXUPS: " closes a Borland and a Watcom section in the older reader but not in the newer one |
| TrunkReader.TrunkParseMsSymbolLine | trunk/src/MAPReader.cpp:227-259 | as the newer parser, and at the end of a table the record is left as it was |
| TrunkReader.TrunkMsVersusNewer | trunk/src/MAPReader.cpp:227-259 | the two MSVC parsers classify every line alike and differ only in the address of the record left at the end of a table |
| TrunkLoader.TrunkDispatch | trunk/src/LoadMap.cpp:284-297 | as Dispatch, with the older MSVC parser and no GNU-ld case |
| TrunkLoader.TrunkOutcome | trunk/src/LoadMap.cpp:299-327 | the section is never changed by a parse result, and the counters grow by at most one |
| TrunkLoader.TrunkProcessLine | trunk/src/LoadMap.cpp:241-379 | one pass of the older loop body never opens a GNU-ld section, and the counters grow by at most one |
| TrunkLoader.TrunkHandleLine | trunk/src/LoadMap.cpp:253-327 | the older state machine and dispatch compute TrunkProcessLine |
| TrunkLoader.TrunkHandleOutcome | trunk/src/LoadMap.cpp:299-379 | the older `if` chain computes TrunkOutcome |
| TrunkLoader.TrunkParseMap | trunk/src/LoadMap.cpp:230-390 | the older loop yields TrunkParse, the fold of TrunkProcessLine over the lines |
| TrunkLoader.TrunkShortLineSkipped | trunk/src/LoadMap.cpp:246-250 | in the older loop a line shorter than 14 characters leaves the session unchanged whatever section is open |
| TrunkLoader.TrunkShortLinesIgnored | trunk/src/LoadMap.cpp:237-250 | a run of the older loop over a list of lines ends in the same session as a run over its lines of at least 14 characters only |
| TrunkLoader.TrunkSectionSticky | trunk/src/LoadMap.cpp:264-283 | an open section closes exactly on a line of at least 14 characters starting with one of the four markers |
| TrunkLoader.TrunkRunCounters | trunk/src/LoadMap.cpp:217-220 | the older loop's counters never decrease and grow by at most one per line |
| TrunkLoader.TrunkParseCountersBounded | trunk/src/LoadMap.cpp:217-220 | the older counters stay below the buffer size |
| TrunkLoader.TrunkRunWithoutHeader | trunk/src/LoadMap.cpp:255-274 | with no header met, the older loop changes nothing |
| TrunkLoader.TrunkParseWithoutHeader | trunk/src/LoadMap.cpp:400-403 | a file without a header leaves the older session untouched |
| TrunkLoader.NotAnMsvcLine | trunk/src/MAPReader.cpp:243-248 | a line starting with neither whitespace nor a hex digit is no MSVC line |
| TrunkLoader.TrunkFinishingKeepsTableOpen | trunk/src/LoadMap.cpp:305-311 | "Static symbols" closes an MSVC table in the newer loop, but leaves the older loop's section open |
| PathExtension.StrLen | src/stdafx.cpp:20 | `strlen`: the index of the first NUL |
| PathExtension.LastDot | src/stdafx.cpp:21 | `strrchr(fname, '.')`: the last dot of the C string, or none |
| PathExtension.FirstSep | src/stdafx.cpp:22 | `strpbrk(fname, ":\\/")`: the first `:`, `\` or `/`, or none |
| PathExtension.ExtTarget | src/stdafx.cpp:23-24 | the target is the last dot when one lies after the first separator (or there is no separator), else the end of the name |
| PathExtension.Switched | src/stdafx.cpp:15-30 | the buffer after the call: unchanged without room, otherwise the extension and a NUL written at the target |
| PathExtension.StrNCopy | src/stdafx.cpp:29 | `strncpy`: n characters written: the source, then NULs to fill |
| PathExtension.QStrNCopy | trunk/src/LoadMap.cpp:69 | `qstrncpy`: at most n-1 characters of the source, then a NUL |
| PathExtension.CopiesAgree | trunk/src/LoadMap.cpp:69 | with `extlen+1` as the bound both copies write the extension and one NUL |
| PathExtension.PathExtensionSwitch | src/stdafx.cpp:15-30 | the array afterwards is Switched of the array before |
| PathExtension.PathExtensionSwitchStatic | trunk/src/LoadMap.cpp:55-70 | the static copy has the same effect |
| PathExtension.SwitchWrites | src/stdafx.cpp:26-29 | with room, the C string is the name up to the target followed by the new extension, and the bytes after the write are kept |
| PathExtension.NoDotAppends | src/stdafx.cpp:23-24 | a name without a dot gets the extension appended |
| PathExtension.NoRoomUnchanged | src/stdafx.cpp:26-28 | without room, the buffer is left exactly as it was |
| PathExtension.SwitchIdempotent | src/stdafx.cpp:15-30 | switching twice to the same plain extension is switching once |
| PathExtension.FirstSeparatorExample | src/stdafx.cpp:22-24 | for `C:\dir.x\file` the dot in the directory is taken as the extension's, giving `C:\dir.map` |
| PathExtension.LastSep | src/stdafx.cpp:22-23 | the index of the last `:`, `\` or `/`, or none: the bound the `mintarget` comparison needs |
| PathExtension.FileExtTarget | src/stdafx.cpp:21-24 | the corrected target: the last dot when it lies in the last path component, else the end of the name; no separator lies at or after it |
| PathExtension.FileSwitchKeepsDirectory | src/stdafx.cpp:21-29 | with the corrected target, a switch that fits keeps every separator and replaces only the file name's own extension |
| PathExtension.TargetsAgreeOnOneSeparator | src/stdafx.cpp:22-24 | on names with at most one separator the as-written and corrected targets agree |
| PathExtension.LastSeparatorExample | src/stdafx.cpp:22-24 | with the corrected target `C:\dir.x\file` becomes `C:\dir.x\file.map` |
| ParserExamples.Hex8 | src/MAPReader.cpp:273 | eight hex digits read as the high and low halves |
| ParserExamples.MsvcLine | src/MAPReader.cpp:251-289 | `0001:00001000       _main …` with four segments is the symbol (0, 0x1000, "_main") |
| ParserExamples.MsvcSegmentOutOfRange | src/MAPReader.cpp:281-284 | segment 5 with four segments is an invalid line |
| ParserExamples.WatcomBanner | src/MAPReader.cpp:319-323 | the banner under the Watcom header is skipped |
| ParserExamples.WatcomModule | src/MAPReader.cpp:324-330 | "Module: FOO.OBJ" is a comment "FOO.OBJ" |
| ParserExamples.GccLine | src/MAPReader.cpp:364-422 | `0x00401000 … main.o(.text)` lands in the second segment at 0x1000 |
| ParserExamples.GccWideLine | src/MAPReader.cpp:405-417 | a sixteen-digit address is read as its first eight digits and refused |

## Left out

- `openMAP` and `closeMAP` (file mapping, Win32 errors) are not modelled as I/O. `run` takes the result of opening and the file's contents as parameters. A successful open is taken to give a NUL-free buffer, which is what the `memchr` check of `openMAP` yields.
- The IDA SDK is replaced by an explicit value. `get_segm_qty`, `getnseg` and `get_segm_num` become the `SegmentTable`. `has_name`, `has_dummy_name`, `has_auto_name`, `has_cmt`, `set_name` and `set_cmt` become the `Host` oracles plus the written maps. Later changes that the host makes to its own flags are not modelled. The `SN_NOCHECK`/`SN_NOWARN` flags fold into the `accepts` oracle.
- The shift-key options dialog, the `ask_file` dialog, the message window, the wait box and `showMsg` are not modelled. The dialog is the `picked` parameter.
- The `try`/`catch (...)` around the loop is not modelled. No C++ exception is raised by the modelled code.
- Memory management is not modelled: `malloc`/`free` of the working copy, and the `prvsym` record, which is written but never read.
- The `mapFileName` default (`get_input_file_path` plus `pathExtensionSwitch`), its saving after a load, and the `init`/`term` functions and the plugin descriptor are not modelled.
- Only the older `run`'s parse loop is modelled. Its opening steps mirror the newer `run`, which `Loader.Run` models.
- The 64-bit (`__EA64__`) build is not modelled.
- Parts of what `%X` accepts are not modelled: an optional sign and "0x". MAP files do not use them in these fields.
- The `%[` directive writes without a bound into a 513-byte name. The cut working copy keeps it below MAXNAMELEN + 14 characters. The model takes the name as read and states `NameFits` only for the cut the parsers apply.
- MsComment: a comment text of MAXNAMELEN-1 characters or more is copied without a terminator in C, so the record's previous byte 511 (the previous long name's 512th character, or stack contents) can follow it. The model gives the intended name, the text cut to MAXNAMELEN-1 characters. `CommentNameAsWritten` states the C result. The loop drops every comment line, because a comment's address is all ones (src/LoadMap.cpp:344), so that byte never reaches the database.
- WatcomComment: the same missing terminator, for ';' and "Module: " comments (src/MAPReader.cpp:314-315, 326-327). The model gives the intended name.
- GccComment: the same missing terminator, for ';' and "LOAD " comments (src/MAPReader.cpp:376-377, 395-396). The model gives the intended name.
- TrunkReader.TrunkParseMsSymbolLine: the same missing terminator in its comment branch (trunk/src/MAPReader.cpp:239-240). The model gives the intended name.
- The record's name buffer beyond its terminator is not modelled. The loop resets only the first byte of the name per line, and the model starts each line from a fresh record.
- Parsers.Scanned: on a failed `sscanf` the C code may already have assigned the first fields. The model returns the record as it came in. The loop never reads the record after FINISHING_LINE.
- PathExtension.ExtTarget: `target <= mintarget` with `mintarget == NULL` is taken as false. This is how flat-address compilers order a non-null pointer against NULL.
- PathExtension.QStrNCopy: `qstrncpy` is IDA's. It is modelled by its documented behaviour, which is to copy at most n-1 characters and always terminate.

## Findings

| source | as written | input that shows it | evidently intended | confidence | as-written member | corrected member |
|---|---|---|---|---|---|---|
| trunk/src/LoadMap.cpp:307 | `sectnHdr == MapFile::NO_SECTION;` compares and discards the result, so FINISHING_LINE leaves the section open | an MSVC map whose publics table is followed by the "Static symbols" heading: the older loop keeps parsing static symbols as publics | the assignment `sectnHdr = MapFile::NO_SECTION;`, as src/LoadMap.cpp:325 writes it | high; not executed | TrunkLoader.TrunkFinishingKeepsTableOpen | LoaderProps.MsvcTableEnds |
| src/MAPReader.cpp:263-264 | `strncpy(sym.name, dupLine+1, MAXNAMELEN-1); sym.name[MAXNAMELEN] = '\0';` writes the terminator one byte too far, so a comment text of 511 or more characters is left unterminated at byte 511; the same at lines 314-315, 326-327, 376-377 and 395-396, and at trunk/src/MAPReader.cpp:239-240 | in an MSVC section, ";" followed by 600 'a', with a non-NUL byte 511 left in the record: the name is 511 'a' followed by that byte | `sym.name[MAXNAMELEN-1] = '\0'`, so that the name is the text cut to MAXNAMELEN-1 characters | medium; not executed | Parsers.MsCommentUnterminated | Parsers.MsComment |
| src/stdafx.cpp:22 | `mintarget = strpbrk(fname, ":\\/")` is the first separator, so a dot in any directory after it is taken as the extension's | `C:\dir.x\file` with ".map" becomes `C:\dir.map`, dropping the file name | the last separator, so that only a dot in the file name itself counts | medium; not executed | PathExtension.FirstSeparatorExample | PathExtension.FileSwitchKeepsDirectory |
