# simonsays, modelled in Dafny

simonsays is a command-line tool for tidying directories. It has five commands:

- `sortbydate`, `sortbytype` and `sortbysize` walk a directory. Every file moves into a sub-folder of its own parent. The sub-folder is named by the file's modification date (`DDMMYYYY`), by its extension (or `other`), or by its size bucket (`small`, `medium`, `large`).
- `bulkrename` renames the files of a directory from a template with the placeholders `{index}`, `{name}` and `{ext}`. With `--dry-run` it only previews the renames.
- `list` lists the files of a directory, or of its whole tree with `--recursive`, sorted by `name`, `size` or `time`.

The commands are held in a registry keyed by name.

The model covers the deterministic rules inside these commands and the loops that apply them:

- the three folder-naming rules;
- the split of a file name into base and extension;
- the template substitution;
- the numbering and first-error-stops loops;
- the key selection and sort of `list`;
- the command registry.

The file system enters only as inputs:

- the entries a walk or a directory read yields;
- what stat says of the directory argument;
- the set of positions whose file-system step fails (`failAt`).

Module layout:

| file | module | what it holds |
|---|---|---|
| `wrappers.dfy` | `Wrappers` | `Option` and `Result` |
| `fs.dfy` | `Fs` | entries, paths as element lists, errors, the argument and stat checks, the non-directory filter, the first-failure rule |
| `decimal.dfy` | `Decimal` | `%d` and the zero-padded date fields, with their inverses |
| `strings.dfy` | `Strings` | `strings.ReplaceAll`, prefix and suffix trimming, Go's string `<` |
| `paths.dfy` | `Paths` | `filepath.Ext`, the base name, and `filepath.Join` with its cleaning |
| `categories.dfy` | `Categories` | the size, type and date folder rules |
| `organize.dfy` | `Organize` | the walk shared by the three sort commands |
| `bulkrename.dfy` | `BulkRename` | the new-name computation, the rename plan and loop, the command |
| `listing.dfy` | `Listing` | the sort key, the comparisons, the collection loops, the in-place sort, the command |
| `registry.dfy` | `Registry` | `CommandRegistry` as a class over a map, and the start-up registration |

Paths are modelled as cleaned element lists, relative to the working directory. The path of a directory entry is its directory followed by its name, and `filepath.Dir` of that path is the directory. A new name built by the bulk renamer may itself hold separators, "." or "..". `Paths.Join` models `filepath.Join` for it: the name is split at each '/', and the parts are resolved the way `filepath.Clean` resolves them.

A modification time is given as an instant, which orders times, together with its local calendar date.

The bulk-rename loop is proved for any naming function of a file's position and name. `BulkRename.Template` supplies the one a template and a `--start` value define, and `BulkRename.PlanUnderTemplate` connects the two. The ordinal `startNum + i` is computed as Go's 64-bit `int` computes it, wrapping around at 2^63.

An unknown `--sort` value is an error and nothing is printed. This check runs after the files are collected, so a collection failure is reported first.

## Model

All source paths are in `cmd/simonsays/simonsays.go`.

| member | source | states |
|---|---|---|
| Fs.CheckDirectory | cmd/simonsays/simonsays.go:60-72 | a command proceeds exactly when it has enough positional arguments and the directory argument is a directory; otherwise: missing arguments, an access error, or "not a directory" for a regular file |
| Fs.NonDirectories | cmd/simonsays/simonsays.go:139-144 | the filter never yields more entries than the listing has |
| Fs.NonDirectoriesMembers | cmd/simonsays/simonsays.go:138-144 | the filter keeps exactly the entries that are not directories |
| Fs.NonDirectoriesAppend | cmd/simonsays/simonsays.go:138-144 | the filter keeps listing order: filtering a concatenation is concatenating the filtered parts |
| Fs.NonDirectoriesOfFiles | cmd/simonsays/simonsays.go:138-144 | a listing without directories is kept whole |
| Fs.CollectFiles | cmd/simonsays/simonsays.go:138-144 | the append loop yields the filtered listing, in order |
| Fs.FirstFailure | cmd/simonsays/simonsays.go:159-166 | the position of the first failing step: every step before it succeeds, and it fails unless it is the end |
| Fs.FirstFailureAt | cmd/simonsays/simonsays.go:159-166 | a failing step that every earlier step survives is the first failure |
| Fs.FirstFailureNone | cmd/simonsays/simonsays.go:159-166 | with no failing step, every step completes |
| Decimal.PadZero | cmd/simonsays/simonsays.go:88-89 | a date field is printed in decimal, padded with zeros to its width, reads back as its value, is exactly its width when the value fits, and a value of at least 10^width is printed in full with no padding and no leading zero |
| Decimal.DigitsLengthAbove | cmd/simonsays/simonsays.go:88-89 | a value of at least 10^k has more than k digits, so it overflows a k-digit field |
| Decimal.FormatInt | cmd/simonsays/simonsays.go:152 | the `%d` text of an integer is non-empty and made of digits and a minus sign |
| Decimal.FormatIntRoundTrip | cmd/simonsays/simonsays.go:152 | the `%d` text of the ordinal reads back as the ordinal |
| Decimal.FormatIntInjective | cmd/simonsays/simonsays.go:152 | distinct ordinals print as distinct text |
| Strings.TrimPrefix | cmd/simonsays/simonsays.go:208 | `strings.TrimPrefix`: when s starts with p, p followed by the result is s; otherwise s comes back unchanged |
| Strings.TrimSuffix | cmd/simonsays/simonsays.go:150 | `strings.TrimSuffix`: when s ends with p, the result followed by p is s; otherwise s comes back unchanged |
| Strings.ReplaceAll | cmd/simonsays/simonsays.go:152-154 | `strings.ReplaceAll`: left-to-right, non-overlapping replacement (no contract of its own; the lemmas below pin it down) |
| Strings.ReplaceAllAbsent | cmd/simonsays/simonsays.go:152-154 | text without the placeholder is left unchanged |
| Strings.ReplaceAllTokenFirst | cmd/simonsays/simonsays.go:152-154 | a leading placeholder is replaced, and the scan resumes after it |
| Strings.ReplaceAllPlainFirst | cmd/simonsays/simonsays.go:152-154 | text without the placeholder's opening brace is copied as it is |
| Strings.ReplaceAllOtherTokenFirst | cmd/simonsays/simonsays.go:152-154 | one placeholder is not mistaken for another |
| Strings.ReplaceAllKeeps | cmd/simonsays/simonsays.go:152-154 | a character that is not part of the placeholder survives the replacement |
| Strings.TokenNotAtFront | cmd/simonsays/simonsays.go:152-154 | a placeholder appended to text that lacks it is not found straddling the join |
| Strings.ReplaceAllTrailingToken | cmd/simonsays/simonsays.go:154 | text without the placeholder, followed by it, becomes the text followed by the replacement |
| Strings.StrLess | cmd/simonsays/simonsays.go:355 | Go's `<` on strings; a proper prefix sorts before the longer string |
| Strings.StrLessIrreflexive | cmd/simonsays/simonsays.go:354-356 | no name sorts before itself |
| Strings.StrLessAsymmetric | cmd/simonsays/simonsays.go:354-356 | two names are never each before the other |
| Strings.StrLessTotal | cmd/simonsays/simonsays.go:354-356 | of two different names, one sorts before the other |
| Strings.StrLeqTransitive | cmd/simonsays/simonsays.go:354-356 | "not after" is transitive on names |
| Paths.LastDotBefore | cmd/simonsays/simonsays.go:149 | finds the last '.' of the final path element, scanning back to a '/'; None exactly when that element has no '.' |
| Paths.Ext | cmd/simonsays/simonsays.go:149 | the extension is empty or starts with its only '.', and holds no '/' |
| Paths.ExtIsSuffix | cmd/simonsays/simonsays.go:149 | the extension is a suffix of the name |
| Paths.SplitAtLastDot | cmd/simonsays/simonsays.go:149-150 | the name splits at the last '.' of its final element: the extension from there, the base before it |
| Paths.SplitWithoutDot | cmd/simonsays/simonsays.go:149-150 | a name without '.' has no extension and is its own base |
| Paths.BaseIsTrimSuffix | cmd/simonsays/simonsays.go:150 | the base is the name with the extension trimmed off its end |
| Paths.BaseExtRoundTrip | cmd/simonsays/simonsays.go:149-150 | base followed by extension is the name |
| Paths.Base | cmd/simonsays/simonsays.go:150 | the base is a prefix of the name |
| Paths.FirstSlash | cmd/simonsays/simonsays.go:160 | finds the first separator of a name, with none before it; None exactly when there is none |
| Paths.SplitSlash | cmd/simonsays/simonsays.go:160 | a name splits into at least one part, none holding a separator |
| Paths.SplitSlashRoundTrip | cmd/simonsays/simonsays.go:160 | the parts joined with separators give back the name |
| Paths.JoinElement | cmd/simonsays/simonsays.go:160 | one element appended as `filepath.Clean` resolves it: "" and "." vanish, ".." drops the last element or is kept when none is left to drop (no contract of its own; JoinElementClean and the Join lemmas pin it down) |
| Paths.JoinElements | cmd/simonsays/simonsays.go:160 | the elements of a name appended one after the other, left to right (no contract of its own; JoinElementsClean pins it down) |
| Paths.JoinElementClean | cmd/simonsays/simonsays.go:160 | appending one element without a separator keeps a clean path clean |
| Paths.JoinElementsClean | cmd/simonsays/simonsays.go:160 | appending separator-free elements keeps a clean path clean |
| Paths.Join | cmd/simonsays/simonsays.go:160 | `filepath.Join(dir, name)`: a name that is one ordinary element lands directly in the directory; an empty name gives the directory itself |
| Paths.JoinClean | cmd/simonsays/simonsays.go:160 | joining any name onto a clean directory gives a clean path |
| Paths.JoinSubfolder | cmd/simonsays/simonsays.go:160 | a name "sub/n" lands in the sub-folder sub of the directory |
| Paths.JoinParent | cmd/simonsays/simonsays.go:160 | a name "../n" lands in the parent of the directory |
| Categories.SizeBucket | cmd/simonsays/simonsays.go:269-276 | every size gets one of the three buckets |
| Categories.SizeBucketPartition | cmd/simonsays/simonsays.go:252-272 | small below 1048576, medium from 1048576 up to 10485760 exclusive, large from 10485760 on, each as an if-and-only-if |
| Categories.SizeBucketMonotone | cmd/simonsays/simonsays.go:265-272 | a bigger file never lands in a smaller bucket |
| Categories.SizeBucketBoundaries | cmd/simonsays/simonsays.go:252-272 | 1048575 is small, 1048576 and 10485759 are medium, 10485760 is large |
| Categories.TypeFolder | cmd/simonsays/simonsays.go:208-211 | the type folder is never empty and holds no '.' or '/' |
| Categories.TypeFolderAfterLastDot | cmd/simonsays/simonsays.go:208-211 | the folder is the text after the last '.', or "other" when the name ends in that dot |
| Categories.TypeFolderWithoutDot | cmd/simonsays/simonsays.go:208-211 | a name without '.' goes to "other" |
| Categories.TypeFolderCaseSensitive | cmd/simonsays/simonsays.go:208-211 | notes.txt goes to "txt", notes.TXT goes to "TXT", and README goes to "other" |
| Categories.FormatYear | cmd/simonsays/simonsays.go:89 | the "2006" year field has at least four characters; a year from 0 to 9999 is exactly four digits that read back as the year; a negative year is a minus sign and the digits of its magnitude |
| Categories.DateFolder | cmd/simonsays/simonsays.go:88-89 | the date folder has at least eight characters |
| Categories.DateFolderFields | cmd/simonsays/simonsays.go:88-89 | day, month and year read back from characters 0-1, 2-3 and 4 onwards; the folder is exactly 8 characters for years 0 to 9999; a negative year is signed |
| Categories.DateFolderSameDay | cmd/simonsays/simonsays.go:88-89 | two times on the same date share a folder, whatever the time of day |
| Categories.DateFolderInjective | cmd/simonsays/simonsays.go:88-89 | two times share a folder only if they fall on the same date |
| Organize.Category | cmd/simonsays/simonsays.go:91 | each of the three rules names a non-empty folder |
| Organize.Destination | cmd/simonsays/simonsays.go:91-96 | the file keeps its parent and its name, one level down, so it never stays where it was |
| Organize.IsMoved | cmd/simonsays/simonsays.go:79 | the walk moves an entry exactly when it is not a directory and not the root itself (no contract of its own) |
| Organize.Moves | cmd/simonsays/simonsays.go:74-103 | the walk makes at most one move per entry |
| Organize.MovesExtend | cmd/simonsays/simonsays.go:79-101 | one more entry adds its move exactly when it is a file other than the directory argument |
| Organize.MovesComplete | cmd/simonsays/simonsays.go:79-101 | every file other than the directory argument is moved to its destination |
| Organize.MovesSound | cmd/simonsays/simonsays.go:79-101 | every move is the move of such a file to its destination |
| Organize.MovedEntry | cmd/simonsays/simonsays.go:79-101 | for each move, the walked file it comes from: a file other than the directory argument, moved to its destination |
| Organize.SecondOfThreeFails | cmd/simonsays/simonsays.go:74-103 | three files, the second failing: the walk stops at the second, and only the first has moved |
| Organize.MoveIntoSiblingFolder | cmd/simonsays/simonsays.go:91-96 | a move keeps the file's name and directory, and goes one level down into a non-empty folder; for the type rule, that folder holds no '.' |
| Organize.Walk | cmd/simonsays/simonsays.go:60-104 | an argument or stat error moves nothing; otherwise the walk makes the moves of the entries before the first failure, and reports that entry's path |
| BulkRename.Substitute | cmd/simonsays/simonsays.go:152-154 | the three replacement passes in order: {index}, then {name}, then {ext}, each over the previous pass's output (no contract of its own; the substitution-order lemmas below pin it down) |
| BulkRename.NewFilename | cmd/simonsays/simonsays.go:146-158 | the new name holds a '.' whenever the file has an extension |
| BulkRename.PlainPatternUnchanged | cmd/simonsays/simonsays.go:152-158 | a template with a '.' and no placeholder names every file as written |
| BulkRename.IndexPassOnNameExt | cmd/simonsays/simonsays.go:152 | the {index} pass leaves "{name}{ext}" alone |
| BulkRename.NameExtPatternRoundTrip | cmd/simonsays/simonsays.go:149-158 | "{name}{ext}" gives back the original name, provided the base does not itself hold "{ext}" |
| BulkRename.ExtTokenInBaseIsReplaced | cmd/simonsays/simonsays.go:152-154 | substitution order: "{ext}" inside the base is replaced too ("a{ext}.txt" becomes "a.txt.txt") |
| BulkRename.IndexTokenInBaseIsKept | cmd/simonsays/simonsays.go:152-158 | substitution order: "{index}" inside the base is kept ("x{index}.md" under "{name}") |
| BulkRename.IndexAndExtExample | cmd/simonsays/simonsays.go:152-158 | "img-{index}{ext}" at ordinal 5 turns photo.jpg into img-5.jpg |
| BulkRename.ExtensionAppendedExample | cmd/simonsays/simonsays.go:156-158 | "{name}-copy" turns report.pdf into report-copy.pdf, because the extension is appended |
| BulkRename.Template | cmd/simonsays/simonsays.go:146-158 | the naming of the file at position i: NewFilename at ordinal startNum + i, computed as Go's int computes it (no contract of its own; PlanUnderTemplate states it) |
| BulkRename.Wrap64 | cmd/simonsays/simonsays.go:152 | Go's 64-bit `int` addition: exact in range, and always congruent to the true sum modulo 2^64 |
| BulkRename.Ordinal | cmd/simonsays/simonsays.go:152 | the ordinal of the i-th file is startNum + i whenever that sum fits in an int |
| BulkRename.OrdinalWraps | cmd/simonsays/simonsays.go:152 | with `--start` at the largest int, the second file's ordinal is the most negative int |
| BulkRename.RenameOf | cmd/simonsays/simonsays.go:147-160 | a file is renamed from its own path; a new name that is one ordinary element keeps it in the directory |
| BulkRename.RenameTargetClean | cmd/simonsays/simonsays.go:160 | the target of a rename is a clean path whenever the directory is |
| BulkRename.NameExtPatternRenamesInPlace | cmd/simonsays/simonsays.go:146-160 | "{name}{ext}" renames an ordinary file onto its own path |
| BulkRename.SubfolderTemplateExample | cmd/simonsays/simonsays.go:146-160 | "sub/{name}{ext}" moves a.txt into the sub-folder sub |
| BulkRename.Plan | cmd/simonsays/simonsays.go:146-166 | one rename per file |
| BulkRename.PlanPosition | cmd/simonsays/simonsays.go:146-160 | the i-th file (0-based) is renamed by the naming at position i |
| BulkRename.PlanUnderTemplate | cmd/simonsays/simonsays.go:146-160 | under a template, the i-th file is renamed to the template's name for ordinal startNum + i, joined onto the directory as `filepath.Join` joins it |
| BulkRename.PlanExtend | cmd/simonsays/simonsays.go:146-166 | the plan for one more file is the plan so far followed by that file's rename |
| BulkRename.RenameFiles | cmd/simonsays/simonsays.go:146-170 | a dry run previews every planned rename and performs none; otherwise no rename is previewed, the planned renames are performed in order up to the first that fails, and that rename's paths are the error |
| BulkRename.Execute | cmd/simonsays/simonsays.go:115-172 | argument, stat and read errors come first and nothing is previewed or renamed; then the non-directory files are previewed or renamed, in listing order, as RenameFiles states |
| Listing.ParseSortKey | cmd/simonsays/simonsays.go:352-366 | an unrecognised sort value is an error naming it |
| Listing.ParseKeyName | cmd/simonsays/simonsays.go:352-366 | each of "name", "size" and "time" selects its key |
| Listing.ParseSortKeyAccepts | cmd/simonsays/simonsays.go:352-366 | a value is accepted exactly when it is "name", "size" or "time", and then it is that key's name |
| Listing.Less | cmd/simonsays/simonsays.go:354-364 | the three comparisons: names by Go's string `<`, sizes by `<`, times by instant (no contract of its own) |
| Listing.Sorted | cmd/simonsays/simonsays.go:354-364 | no entry is followed by one that the key puts before it (no contract of its own) |
| Listing.LessAsymmetric | cmd/simonsays/simonsays.go:352-364 | each comparison is asymmetric |
| Listing.LessIrreflexive | cmd/simonsays/simonsays.go:352-364 | no file is less than itself |
| Listing.LeqTransitive | cmd/simonsays/simonsays.go:352-364 | "not greater" is transitive for every key |
| Listing.LeqTotal | cmd/simonsays/simonsays.go:352-364 | any two files can be put in some order |
| Listing.SizeOrderExample | cmd/simonsays/simonsays.go:357-360 | sorting a 10-byte a.txt and a 5-byte b.txt by size puts b.txt first |
| Listing.Swap | cmd/simonsays/simonsays.go:354 | an exchange of two neighbours keeps the same files |
| Listing.InsertInto | cmd/simonsays/simonsays.go:354-364 | inserting one more file into a sorted prefix keeps it sorted and holds the same files |
| Listing.SortFiles | cmd/simonsays/simonsays.go:352-364 | after sort.Slice the files are sorted by the key and are a permutation of what they were |
| Listing.Collected | cmd/simonsays/simonsays.go:320-350 | a successful collection is exactly the non-directory entries, in listing order; a failed directory read is the error of a flat listing |
| Listing.WalkFiles | cmd/simonsays/simonsays.go:322-334 | the recursive collection gathers the non-directory entries, or fails with the walk error at the first failing entry |
| Listing.ReadFiles | cmd/simonsays/simonsays.go:336-349 | the flat collection gathers the directory's files, or fails at the first file whose info cannot be read |
| Listing.ReadFailsAt | cmd/simonsays/simonsays.go:341-346 | a file whose info call fails, after every earlier file succeeded, is the error the flat collection reports |
| Listing.List | cmd/simonsays/simonsays.go:303-377 | argument and stat errors, then collection errors, then an unknown sort value; otherwise the result is the collected files, sorted by the key, as a permutation |
| Registry.CommandRegistry.constructor | cmd/simonsays/simonsays.go:27-31 | a new registry is empty |
| Registry.CommandRegistry.Register | cmd/simonsays/simonsays.go:33-35 | the command is filed under its name, replacing any earlier one; other names are untouched |
| Registry.CommandRegistry.Get | cmd/simonsays/simonsays.go:37-40 | a lookup succeeds exactly for a registered name, and returns the command filed under it |
| Registry.CommandRegistry.GetAll | cmd/simonsays/simonsays.go:42-48 | every registered command is returned exactly once, one per distinct name, with nothing else |
| Registry.NewDefaultRegistry | cmd/simonsays/simonsays.go:381-387 | start-up registers the five commands under five distinct names |

## Left out

- Real file-system effects: stat, directory reads, walks, folder creation and renames. Each is an input: the stat outcome, the entries, and the set of positions whose step fails. The one set stands for every failure a step can have (walk error, info, folder creation, rename). The error keeps only the entry's path, not which of these failed.
- Walk order, and a file moved into a category folder that already existed and comes later in the walk being visited and moved again. A folder the walk creates is never visited, because each directory's listing is read before its entries are walked. The entries are given in walk order, once each.
- Moves onto an existing file: the rename is taken to succeed or to fail as `failAt` says.
- Path cleaning of the directory argument itself: it is taken as already clean, and so is the path of every walked entry. Paths carry no root marker, so an absolute directory is not told apart from a relative one. Go drops a ".." that would climb above "/", while the model keeps it.
- File names that are not valid UTF-8. Go file names are arbitrary bytes, but a name here is a sequence of Unicode scalar values, so such names can be neither represented nor ordered.
- Console output and the exact text of error messages. This includes the "Files:" header and the per-file lines of `list`, with their RFC 3339 times.
- Turning an instant into a local calendar date, and time zones. A modification time is given as its instant together with its local date.
- Command-line parsing and the wiring in `main` after registration: flags, their defaults (`--start` 1, `--sort` "name"), and dispatch.
- The order in which `GetAll` yields commands. Go's map iteration order is unspecified, so only the contents are stated.
- Registry.CommandRegistry.GetAll: `Command` values in the model are name and description only. The `Execute` behaviour behind each command is modelled by the command modules instead.
- BulkRename.Execute: Go's `int` is taken to be 64 bits wide, as on the usual platforms. On a 32-bit platform the ordinal would wrap at 2^31 instead.
- Listing.SortFiles: the model sorts by insertion. Go's sort.Slice uses a different algorithm, so ties may come out in another order. Neither promises a stable order, and the contract states only what both guarantee: sorted by the key, and a permutation.
