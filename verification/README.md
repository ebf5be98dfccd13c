# jakobmenu in Dafny

jakobmenu is an Openbox pipe menu. It reads two rc files, a system-wide
one and a per-user one. Each rc file holds `path = <dir>` and
`useAllCategories = <int>` lines, with `#` comments and `\` escapes. The
command line can add `-p <dir>` and `-a`. jakobmenu then lists every search
directory and parses each `*.desktop` file in the `[Desktop Entry]` section
of which it finds `Name` and `Exec`. An entry is discarded when it has
`Type` other than `Application`, `Hidden=true` or `NoDisplay=true`. Each
accepted entry becomes an item whose `Exec` has `%U`, `%u`, `%F` and `%f`
blanked. The item is filed under the first `;` segment of its `Categories`,
or under `Misc` when it has none. With fan-out (`useAllCategories`), it is
also filed under every later segment that is neither empty nor a vendor
extension (`X-`/`x-`). Finally jakobmenu prints the categories in name
order, each with its items in name order. An item with `Terminal=true` runs
behind `xterm -e `.

The model is pure functions over immutable values. Every piece of global
state that the C program mutates is passed explicitly:

- the search path list and the fan-out flag, as `RcConfig.Context`;
- the category array with its capacities, as `CategoryIndex.Index`;
- the file system, as `Pipeline.FileSystem`;
- `$HOME`, as an `Option<string>`.

Modules, in dependency order:

| module | file | models |
|---|---|---|
| `Wrappers` | wrappers.dfy | `Option` |
| `Seqs` | seqs.dfy | element-wise images of sequences and their permutations, and the first-match linear search |
| `Text` | text.dfy | `isspace` (C locale), NUL termination, `strchr`, the whitespace scans, `;` splitting, `strcmp` order |
| `LineReader` | line_reader.dfy | the two hand-written `fgetc` line readers (rc: with `\` escapes; `.desktop`: without) |
| `KeyValue` | key_value.dfy | `splitByEquals` |
| `Tilde` | expand.dfy | `expand`, as written and corrected |
| `RcConfig` | rc_config.dfy | `parseRC`, `addPath`, `atoi` |
| `ExecBlanking` | exec_blank.dfy | the four `strstr` loops that blank field codes in `Exec` |
| `DesktopEntry` | desktop_entry.dfy | `sectionType` and the read loop of `parseDotDesktop` |
| `Items` | items.dfy | `new_item`, the primary category and the fan-out segments |
| `CategoryIndex` | category_index.dfy | `get_category`, `append_category`, `ADD_MEMBER`, the filing of an entry |
| `Menu` | menu.dfy | `compare_categories`, `compare_items`, the two `qsort` calls, the terminal prefix, the menu's structure |
| `Pipeline` | scan.dfy | `parseAll` and `main`: rc files, command line, directory scan, rendering |

Characters stand for bytes. A C routine sees a buffer only up to its
first NUL, so every logical line goes through `Text.CStr` before it is
parsed.

Where the code departs from the freedesktop.org Desktop Entry
Specification, or from what the names of the rc keys suggest, the model
follows the code, and the contracts state the code's behaviour:

- An entry whose `Name=` or `Exec=` value is empty is accepted. Only the
  presence of the two keys is checked (`DesktopEntry.EmptyNameAccepted`).
- An empty `Categories=` files the item under the empty category, not under
  `Misc`. `Misc` is used only when the key is absent
  (`Items.EmptyCategoriesIsNotMisc`).
- `useAllCategories` is read with `atoi`, so `true` and `yes` leave fan-out
  off (`RcConfig.TrueIsNotANumber`, `RcConfig.AtoiNonZero`).
- Fan-out is last-write-wins: a later `useAllCategories = 0` switches it
  off again, within one file and across the two files (`RcConfig.RunSpec`).
  The command line's `-a` can only switch it on (`Pipeline.OptionsSpec`).
- Within the entry section a key given twice keeps its last value
  (`DesktopEntry.ParseDesktopValues`).
- In the rc reader, `\#` still starts a comment
  (`LineReader.EscapedHashStartsComment`).

## Model

| member | source | states |
|---|---|---|
| Text.CStr | jakobmenu.c:296-312 | the text a C routine sees is the longest NUL-free prefix of the buffer, and the byte after it is the NUL |
| Text.NoNulCStr | jakobmenu.c:304-312 | a buffer without NUL is seen whole |
| Text.IndexOf | jakobmenu.c:235 | `strchr` finds the first occurrence: it is `c`, nothing before it is, and `None` exactly when `c` does not occur |
| Text.TrimLeft | jakobmenu.c:359-361 | the skipped prefix is all whitespace and the rest starts with a non-space |
| Text.TrimRight | jakobmenu.c:245-246 | the dropped suffix is all whitespace and the rest ends with a non-space |
| Text.Trim | jakobmenu.c:243-255 | the result is an infix with only whitespace around it, neither starts nor ends with a space, and is empty iff the input is blank |
| Text.TrimLeftPadded | jakobmenu.c:359-361 | leading whitespace is exactly what is skipped |
| Text.TrimRightPadded | jakobmenu.c:245-246 | trailing whitespace is exactly what is dropped |
| Text.TrimPadded | jakobmenu.c:243-255 | trimming a padded trimmed word gives the word back |
| Text.Split | jakobmenu.c:477-495 | the `;` pieces contain no `;`, and joining them gives the text back |
| Text.SplitJoin | jakobmenu.c:477-495 | splitting undoes joining pieces that hold no separator |
| Text.LexLeTotal | jakobmenu.c:118-132 | the `strcmp` order relates every pair of names |
| Text.LexLeAntisymmetric | jakobmenu.c:118-132 | names ordered both ways are equal |
| Text.LexLeTransitive | jakobmenu.c:118-132 | the `strcmp` order is transitive |
| KeyValue.SplitByEquals | jakobmenu.c:233-258 | a line splits iff it holds `=`; the key and the value are the trimmed text before and after the first `=`, so the key has no `=` |
| KeyValue.SplitOfPadded | jakobmenu.c:233-258 | a trimmed key and value, padded around the `=`, split back into themselves |
| KeyValue.SplitOfJoin | jakobmenu.c:233-258 | with no `=` before it, the line splits at the joined `=` into the two trimmed sides |
| LineReader.ReadLine | jakobmenu.c:278-302 | one logical line: the input shrinks unless at end of file, and no line holds `#` (nor, without escapes, a newline) |
| LineReader.SkipComment | jakobmenu.c:289-292 | the comment skip returns no text and resumes just after the first newline, with nothing but non-newlines before it; it reaches end of file iff there is no newline |
| LineReader.Lines | jakobmenu.c:270-304 | the outer read loop yields at least one line, none holding `#` |
| LineReader.ReadPlain | jakobmenu.c:392-408 | a line without newline, `#` or (rc) backslash is read as it stands, stopping at the newline that ends it |
| LineReader.ReadChar | jakobmenu.c:296 | an ordinary byte goes into the line and the read goes on |
| LineReader.ReadEscapedChar | jakobmenu.c:282-285 | a backslash makes the next byte literal unless it is `#` |
| LineReader.LinesOfJoin | jakobmenu.c:271-304 | reading lines joined with newlines gives exactly those lines back |
| LineReader.LinesOfTwo | jakobmenu.c:271-304 | two plain lines joined by a newline read back as those two lines |
| LineReader.EscapeLine | jakobmenu.c:282-285 | the encoding the rc reader undoes: exactly one backslash is added before each backslash and each newline, and every other byte keeps its count |
| LineReader.ReadEscaped | jakobmenu.c:282-302 | the rc reader reads an escaped line back as the original line, embedded newlines included |
| LineReader.RcLinesOfEscapedJoin | jakobmenu.c:271-304 | round trip: escaping `#`-free lines and joining them, the rc reader returns exactly those lines |
| LineReader.CommentDropped | jakobmenu.c:288-294 | an unescaped `#` drops the rest of the physical line with its newline, keeping the text before it as a line |
| LineReader.EscapedHashStartsComment | jakobmenu.c:282-294 | in the rc reader `\#` still starts a comment |
| LineReader.SkipCommentTo | jakobmenu.c:289-292 | the comment branch resumes just after the next newline |
| LineReader.ReadUntilHash | jakobmenu.c:278-294 | the line read before a (possibly escaped) `#` is the text before it |
| Tilde.ExpandAsWritten | jakobmenu.c:169-209 | `expand` as coded: no path for the empty string, failure when `$HOME` is unset, the out-of-bounds reads for a bare `~` and an empty `$HOME`, one separator otherwise, other paths unchanged |
| Tilde.Expand | jakobmenu.c:169-209 | corrected `expand`: `None` iff the path is empty or needs an unset `$HOME`; `~` and `~/rest` become `$HOME`, a separator when needed, and the rest |
| Tilde.ExpandAgreesWithCode | jakobmenu.c:169-209 | wherever the code stays in bounds the corrected function gives its result |
| Tilde.ExpandJoinsWithOneSlash | jakobmenu.c:190-203 | `$HOME` and the rest are joined by exactly one `/` |
| Tilde.BareTildeReadsPastTerminator | jakobmenu.c:192 | `~` makes the code read past the terminator, while the corrected function gives `$HOME/` |
| Tilde.EmptyHomeReadsBeforeString | jakobmenu.c:191 | an empty `$HOME` makes the code read before the string, while the corrected function gives `/rest` |
| Tilde.ExpandDesktopExample | jakobmenu.c:177-205 | `~/Desktop` with `$HOME=/home/u`, with `$HOME` unset, and an absolute path |
| RcConfig.DigitRun | jakobmenu.c:338 | the leading run of digits `atoi` consumes: all digits, followed by a non-digit or the end |
| RcConfig.Atoi | jakobmenu.c:338 | `atoi`: the sign and the decimal value of the digits after leading whitespace; its meaning for the flag is stated by `RcConfig.AtoiNonZero` and `RcConfig.DecimalValueZero` |
| RcConfig.DecimalValueZero | jakobmenu.c:338-339 | a digit string denotes 0 iff every digit is `0` |
| RcConfig.AtoiNonZero | jakobmenu.c:338-339 | the flag's `atoi` value is non-zero iff a non-zero digit follows the whitespace and sign |
| RcConfig.Classify | jakobmenu.c:306-345 | blank iff no `=` and all whitespace; a search path iff the key is `path` and the value is non-empty, carrying that value; a flag iff the key is `useAllCategories` and the value is non-empty, set to `atoi != 0`; otherwise a syntax error |
| RcConfig.AddPath | jakobmenu.c:211-219 | the expanded directory goes on the front of the list, the flag unchanged |
| RcConfig.Directives | jakobmenu.c:306-308 | one directive per logical line, in order |
| RcConfig.Run | jakobmenu.c:270-348 | an error is reported at a line number within the lines read |
| RcConfig.ParseRc | jakobmenu.c:260-355 | one rc file: its accepted `path` lines go on the front of the list, the last first; its last accepted flag line decides the flag; an error is reported iff some line is a syntax error; an unopenable file has no lines |
| RcConfig.Accepted | jakobmenu.c:308-345 | the directives acted on are the longest prefix without a syntax error |
| RcConfig.Reverse | jakobmenu.c:218 | list reversal, element by element |
| RcConfig.LastFlagCons | jakobmenu.c:338-339 | the last flag line of a longer run decides, counting from the flag the first line leaves |
| RcConfig.RunSpec | jakobmenu.c:270-348 | a file puts its accepted `path` values on the front of the list in reverse file order; the last accepted flag line decides the flag; an error is reported iff some line is a syntax error, at the first one |
| RcConfig.RunStopsAtError | jakobmenu.c:313-317 | a syntax error stops the file at once and keeps the context |
| RcConfig.NotKeyValueIsSyntaxError | jakobmenu.c:308-318 | a non-blank line without `=` is a syntax error at line 1 that adds nothing |
| RcConfig.NotKeyValueExample | jakobmenu.c:308-318 | `not a kv pair` stops at line 1 |
| RcConfig.PathsArePrepended | jakobmenu.c:323-331 | two `path` lines leave the second directory before the first, ahead of the old list |
| RcConfig.RunTwoPaths | jakobmenu.c:323-331 | two path directives prepend in reverse order |
| RcConfig.TwoPathLines | jakobmenu.c:271-331 | a two-line rc file reads as two search-path directives |
| RcConfig.PathLine | jakobmenu.c:323-329 | `path=<dir>` is a search-path directive for exactly `<dir>` |
| RcConfig.PathSplit | jakobmenu.c:233-258 | `path=<dir>` splits into `path` and `<dir>` |
| RcConfig.TrueIsNotANumber | jakobmenu.c:338-339 | `atoi("true")` is 0, so `useAllCategories = true` leaves fan-out off |
| RcConfig.ParseBoth | jakobmenu.c:634-635 | the user file runs on the system file's result: its paths go in front of the system file's, and its last flag line, if any, overrides the system file's flag |
| ExecBlanking.BlankPlaceholders | jakobmenu.c:443-459 | the length is kept; a position becomes a space iff it is part of `%U`, `%u`, `%F` or `%f`, and otherwise keeps its byte; no field code is left |
| ExecBlanking.BlankIdempotent | jakobmenu.c:443-459 | blanking twice is blanking once |
| ExecBlanking.NoPercentUnchanged | jakobmenu.c:443-459 | a command without `%` is left alone |
| ExecBlanking.FindToken | jakobmenu.c:444 | `strstr` finds the first occurrence of the two-byte code, `None` iff there is none |
| ExecBlanking.BlankToken | jakobmenu.c:444-447 | one `strstr` loop blanks exactly the positions covered by an occurrence of its code in the input and keeps every other byte |
| ExecBlanking.BlankStep | jakobmenu.c:444-447 | one loop iteration keeps the loop invariant and removes one `%` |
| ExecBlanking.BlankExec | jakobmenu.c:441-459 | the four loops in sequence equal the one-pass definition |
| ExecBlanking.PassesAgree | jakobmenu.c:443-459 | after the four passes, a position is blank iff it belongs to some field code of the original |
| ExecBlanking.FirefoxExample | jakobmenu.c:443-447 | `firefox %U` becomes `firefox` followed by three spaces |
| DesktopEntry.SectionType | jakobmenu.c:357-365 | no header iff the first non-space byte is not `[`; the entry header iff the text after leading whitespace starts with `[Desktop Entry]` |
| DesktopEntry.HeaderKindOf | jakobmenu.c:362-364 | the same classification of text with no leading whitespace |
| DesktopEntry.NextSection | jakobmenu.c:413-425 | a non-header keeps the state, the entry header enters the section, another header ends it only once inside |
| DesktopEntry.SectionMonotone | jakobmenu.c:413-425 | the section state never goes back |
| DesktopEntry.ApplyField | jakobmenu.c:429-466 | each field changes only for its own key: `Type`/`Hidden`/`NoDisplay` can only clear `isOk`, `Exec` is stored blanked, `Terminal` is true iff the value is `true` |
| DesktopEntry.ParseLines | jakobmenu.c:385-429 | one parsed line per logical line, in order |
| DesktopEntry.Scan | jakobmenu.c:385-470 | once the entry section is found, the scan never returns to seeking it |
| DesktopEntry.Step | jakobmenu.c:413-467 | the section state moves first; a line's pair is applied only when the state after it is "inside", and a line without a pair changes no field |
| DesktopEntry.Accept | jakobmenu.c:473 | an entry exists iff nothing rejected it and both `Name` and `Exec` are present, with exactly the collected fields |
| DesktopEntry.FirstOfKind | jakobmenu.c:413-425 | the first line of a header kind, `None` iff there is none |
| DesktopEntry.EntrySection | jakobmenu.c:379-425 | the section starts with the entry header, holds no other header, and is empty iff the file has no entry header |
| DesktopEntry.ScanSeeking | jakobmenu.c:413-419 | before the section every line is ignored up to the first entry header |
| DesktopEntry.ScanInEntry | jakobmenu.c:420-429 | inside the section every line applies until the next other header |
| DesktopEntry.ScanReadsEntrySection | jakobmenu.c:379-429 | the state machine collects exactly the lines of the entry section, and the lines outside it have no effect |
| DesktopEntry.ApplyAllOk | jakobmenu.c:430-435 | `isOk` survives a run of lines iff it held before and no line rejects |
| DesktopEntry.ApplyAllPresence | jakobmenu.c:436-442 | `Name` and `Exec` are set after a run iff set before or some line sets them |
| DesktopEntry.ParseDesktopAccepts | jakobmenu.c:367-473 | a file yields an entry iff its entry section rejects nothing and sets both `Name` and `Exec` |
| DesktopEntry.ParseDesktop | jakobmenu.c:367-473 | `parseDotDesktop` up to `new_item`; whether it yields an entry is stated by `DesktopEntry.ParseDesktopAccepts`, and what the entry holds by `DesktopEntry.ParseDesktopValues` |
| DesktopEntry.LastValue | jakobmenu.c:436-465 | the value of the last line that sets a key: `None` iff no line sets it, otherwise the value of a line after which no line sets it |
| DesktopEntry.ApplyAllLastWins | jakobmenu.c:429-466 | every line that sets a key overwrites its field, so after a run each field holds the run's last value for its key (`Exec` blanked, `Terminal` compared with `true`), or its old value when the run gives none |
| DesktopEntry.ParseDesktopValues | jakobmenu.c:367-473 | an accepted entry's name, command, icon, categories, path and terminal flag are the last values its entry section gives for `Name`, `Exec` (blanked), `Icon`, `Categories`, `Path` and `Terminal` |
| DesktopEntry.RejectionSticky | jakobmenu.c:431-435 | once rejected, an entry stays rejected |
| DesktopEntry.NoHeaderNoEntry | jakobmenu.c:379-429 | without a `[Desktop Entry]` line no entry is produced |
| DesktopEntry.HeaderIsPrefixMatch | jakobmenu.c:357-365 | anything may follow `[Desktop Entry]` on the header line |
| DesktopEntry.BracketIsHeader | jakobmenu.c:357-365 | a line whose first non-space byte is `[` is a header |
| DesktopEntry.HeaderSetsNothing | jakobmenu.c:413-429 | the pair of a header line, if any, has a key starting with `[`, so it sets no field |
| DesktopEntry.EmptyNameAccepted | jakobmenu.c:436-437 | a file with `Name=` empty is accepted with an empty name |
| DesktopEntry.EmptyNameParsed | jakobmenu.c:385-429 | the lines of that file parse to the header and the two pairs |
| Items.PrimaryCategory | jakobmenu.c:477-478 | `Misc` when the key is absent; otherwise the prefix of `Categories` before the first `;`, which it contains none of |
| Items.FirstPiece | jakobmenu.c:477-478 | the first piece is the text up to the first separator |
| Items.NewItem | jakobmenu.c:52-74 | the item carries the entry's strings and flag, filed under its primary category |
| Items.Keep | jakobmenu.c:496-499 | keeps every occurrence of each wanted segment, and no other segment |
| Items.SecondaryCategories | jakobmenu.c:488-505 | fan-out targets are wanted segments without `;`, none without `Categories` |
| Items.SecondaryCounts | jakobmenu.c:488-505 | each later segment is a fan-out target as often as it occurs, iff it is wanted |
| Items.CategoriesRejoin | jakobmenu.c:477-495 | the primary category and the later segments rejoin into `Categories` |
| Items.VendorSegmentSkipped | jakobmenu.c:496-499 | `a;X-b;c` files under `a` and, with fan-out, `c` only |
| Items.EmptyCategoriesIsNotMisc | jakobmenu.c:66-69 | `Categories=` empty gives the empty category and no fan-out targets |
| Seqs.FirstIndex | jakobmenu.c:155-163 | the linear scan returns the first position whose element passes the test, `None` iff no element does |
| CategoryIndex.Find | jakobmenu.c:155-163 | `get_category` returns the first category with the name, `None` iff there is none |
| CategoryIndex.Grow | jakobmenu.c:147-151 | the capacity is kept while the array has room and doubles exactly when it is full, so the new element always fits |
| CategoryIndex.AppendCategory | jakobmenu.c:134-145 | a new empty category at the end, the index staying valid |
| CategoryIndex.AddMember | jakobmenu.c:147-153 | the item goes at the end of the category, within capacity |
| CategoryIndex.Names | jakobmenu.c:89-94 | the category names in array order |
| CategoryIndex.Insert | jakobmenu.c:482-486 | names stay unique, and exactly the named category gains exactly this item at its end; every other category keeps its members |
| CategoryIndex.UpdateMembers | jakobmenu.c:147-153 | replacing the found category changes only what its name holds |
| CategoryIndex.AppendMembers | jakobmenu.c:134-145 | an appended category is found at the end and changes no other name's members |
| CategoryIndex.InsertNames | jakobmenu.c:482-485 | a new name goes after the existing ones, and an existing name keeps the category order |
| CategoryIndex.FindPrefix | jakobmenu.c:155-163 | lookup ignores appended categories of other names |
| CategoryIndex.FindSameNames | jakobmenu.c:155-163 | lookup depends on the names only |
| CategoryIndex.InsertAll | jakobmenu.c:500-504 | filing under a list of names keeps the index valid |
| CategoryIndex.InsertAllMembers | jakobmenu.c:488-505 | each category gains the item once per occurrence of its name in the list |
| CategoryIndex.AddEntry | jakobmenu.c:480-506 | filing an accepted entry keeps the index valid |
| CategoryIndex.AddEntryInsertsTargets | jakobmenu.c:480-506 | filing is inserting under the primary category and then, with fan-out, each secondary one |
| CategoryIndex.AddEntryMembers | jakobmenu.c:480-506 | each category gains the item once per time it is a target |
| CategoryIndex.PrimaryOnlyWithoutFanOut | jakobmenu.c:480-487 | without fan-out the item lands once, under its primary category, and nowhere else |
| CategoryIndex.VendorNeverAdded | jakobmenu.c:496-499 | a vendor-extension name gains nothing unless it is the primary category |
| Menu.InsertSorted | jakobmenu.c:685-691 | inserting into a sorted list keeps it sorted and adds exactly the one element |
| Menu.SortBy | jakobmenu.c:685-691 | `qsort` by name: the result is in `strcmp` order and a permutation of the input |
| Menu.SortSorted | jakobmenu.c:685-691 | sorting sorted input changes nothing |
| Menu.SortIdempotent | jakobmenu.c:685-691 | sorting twice is sorting once |
| Menu.Command | jakobmenu.c:693-700 | with `Terminal=true` the command is `xterm -e ` followed by `Exec`, otherwise `Exec` itself |
| Menu.CommandRecoversExec | jakobmenu.c:693-700 | `Exec` is recovered from the command by stripping the prefix iff the item runs in a terminal |
| Menu.EntriesOf | jakobmenu.c:692-704 | one menu line per item, in order |
| Menu.RenderCategory | jakobmenu.c:688-707 | a block keeps the category name, holds one line per member in caption order, and is a permutation of the members' lines |
| Menu.Blocks | jakobmenu.c:688-708 | one block per category, in order |
| Menu.Render | jakobmenu.c:685-709 | one block per category, in name order, a permutation of the categories' blocks |
| Menu.AlphaBeforeZeta | jakobmenu.c:126-132 | items `Zeta` and `Alpha` sort as `Alpha`, `Zeta` |
| Pipeline.DesktopFileIffStem | jakobmenu.c:527-531 | a name is parsed iff it is a non-empty stem followed by `.desktop` |
| Pipeline.IsDesktopFile | jakobmenu.c:530-531 | the name test of `parseAll`; its meaning is stated by `Pipeline.DesktopFileIffStem` |
| Pipeline.JoinPath | jakobmenu.c:533-537 | the full path starts with the directory, ends with the name, and adds one byte unless the directory ends in `/` |
| Pipeline.JoinPathOneSlash | jakobmenu.c:533-537 | directory and name are joined by exactly one `/` |
| Pipeline.ScanDir | jakobmenu.c:524-542 | scanning one directory keeps the index valid |
| Pipeline.ScanAll | jakobmenu.c:518-544 | scanning every search directory keeps the index valid |
| Pipeline.AddAll | jakobmenu.c:480-506 | filing a list of entries keeps the index valid |
| Pipeline.AddAllAppend | jakobmenu.c:518-544 | filing two lists in turn is filing their concatenation |
| Pipeline.ScanDirFilesFound | jakobmenu.c:524-542 | a directory scan files exactly its accepted `.desktop` entries, in listing order |
| Pipeline.ScanAllFilesFound | jakobmenu.c:518-544 | the whole scan files exactly the accepted entries of all readable search directories, in scan order |
| Pipeline.AddAllMembers | jakobmenu.c:480-506 | each category ends with exactly the items filed under its name, in entry order |
| Pipeline.FiledUnderPrimary | jakobmenu.c:480-486 | every entry's item is filed under its primary category |
| Pipeline.MemberIsRendered | jakobmenu.c:688-706 | every member of a category appears in that category's block |
| Pipeline.OptionDirectives | jakobmenu.c:654-659 | `-p` and `-a` act as the rc directives of the same meaning, in order |
| Pipeline.OptionsSpec | jakobmenu.c:645-663 | `-p` directories go on the front, the last first; fan-out is on iff it was on before or `-a` was given |
| Pipeline.ApplyOptions | jakobmenu.c:645-663 | the `getopt` loop after both rc files; its effect is stated by `Pipeline.OptionsSpec` |
| Pipeline.LastFlagOfOptions | jakobmenu.c:657-659 | without a switching-off directive the flag is on iff it started on or one switches it on |
| Pipeline.JakobMenu | jakobmenu.c:615-709 | the menu's blocks are in category-name order |
| Pipeline.EveryEntryListed | jakobmenu.c:615-709 | every accepted entry of a search directory is listed, with its command, in the block of its primary category |

## Left out

- File, directory and environment access: `fopen`/`fgetc`, `opendir`/`readdir` and `getenv("HOME")` are parameters. A file is its contents, `None` when it cannot be opened. A directory is its listing in `readdir` order. `$HOME` is an `Option`.
- The rc files' own paths: `main` and `parseRC` tilde-expand `ETC_CONF` and `HOME_CONF`. The model takes the two files' contents directly, so a failed expansion of those paths (an `fopen(NULL)`) is not modelled.
- Output text: the XML that `printf` writes, the menu id and title constants, and the (absent) escaping of names are not modelled. The menu is a sequence of `Menu.MenuBlock` values.
- Diagnostics on stderr and the exit status.
- `-h`, `-V`, `usage`, `version` and `getopt`'s handling of unknown options: each of these exits the program. The command line is given as already-parsed `-p` and `-a` options.
- `pledge`, `unveil` and `unveilAll`: they restrict the process and compute nothing the menu shows.
- Memory management: `malloc`/`realloc`/`free`, the doubling line buffers, `delete_item`, `delete_category` and `DELETE_CATEGORIES`. The capacities of the category array and the member arrays are kept, because they bound the contents.
- Read errors (`fgetc` returning a negative value before end of file) are treated as end of file. As the text of jakobmenu.c reads, that is not what the C does: `c < 0` only ends the inner line loop (jakobmenu.c:280, 284, 291, 394, 399), while the outer loops test only `feof(f)` (jakobmenu.c:271 and 385), which stays false after a read error. A persistent read error, such as a directory named `x.desktop` in a search path that `fopen` opens but `fgetc` cannot read, therefore makes `parseRC` or `parseDotDesktop` read empty lines without end. The model, in which a file is its contents or `None`, ends the file there instead. The `c & 0xFF` conversion is the identity on bytes.
- Menu.SortBy: stands for `qsort`, which is not stable. The contract states only what any sort guarantees: the order and the permutation. The relative order of equal names is left open.
- RcConfig.Atoi: uses unbounded integers, so `atoi`'s undefined behaviour on overflow is not modelled.
- Pipeline.JakobMenu: its contract states only the order of the blocks. Their contents are stated by `Pipeline.EveryEntryListed`, `Menu.Render` and `CategoryIndex.Insert`.
- Pipeline.ScanAll: a search path whose tilde expansion failed (a `~` path while `$HOME` is unset, or the empty path given as `-p ""`) is skipped. The C code links a NULL path into the list (jakobmenu.c:214-218) and `parseAll` passes it to `opendir` unchecked (jakobmenu.c:524), which is undefined behaviour; the model takes the outcome that leaves the menu as it is, as for a directory that cannot be opened.
- RcConfig.AddPath: expands with the corrected `Tilde.Expand`, and so do `RcConfig.Run`, `Pipeline.ScanAll` and `Pipeline.JakobMenu` through it. For the two inputs of "## Findings" the model carries the corrected directory (`$HOME/` for `~`, `/rest` for an empty `$HOME`) where the C code reads out of bounds.
- Lines after the end of the entry section are read by `Lines` but ignored by `Scan`. The C loop stops reading them, which gives the same result.

## Findings

| source | as written | input that shows it | evidently intended | confidence | as-written member | corrected member |
|---|---|---|---|---|---|---|
| jakobmenu.c:192 | `pathWithoutHomePrefix = path + 2` also for the bare path `~`, one byte past its terminator | `path = ~` in an rc file, or `-p ~`, with `$HOME=/home/u` | `~` expands to `$HOME` (with the separator) | not executed | Tilde.ExpandAsWritten (Tilde.BareTildeReadsPastTerminator) | Tilde.Expand |
| jakobmenu.c:191 | `home[homeLen - 1]` with `homeLen == 0` reads the byte before the string | `path = ~/apps` with `$HOME` set to the empty string | an empty `$HOME` is taken as not ending in `/` | not executed | Tilde.ExpandAsWritten (Tilde.EmptyHomeReadsBeforeString) | Tilde.Expand |
