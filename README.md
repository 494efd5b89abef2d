# diff-dir, modelled in Dafny

diff-dir compares two directory trees and prints one line per difference.
It makes two passes:

- The forward pass walks the first tree. Each regular file is checked against the same path under the second tree, by type, size and mtime.
- The reverse pass walks the second tree. It only checks that each entry also exists under the first tree.

A line reads `MISSING: <path>` or `DIFFERS: <path>`. MISSING names the path on the other side. DIFFERS names the path on the side being walked.

The model works on a fixed snapshot of the filesystem (`FileSystem.Snapshot`). The snapshot records four things:

- what `lstat` reports for each path;
- which paths `lstat` fails on with an errno other than ENOENT;
- where `access(F_OK)` disagrees with `lstat`, because it follows symbolic links;
- what `opendir`/`readdir` yields for each directory, and what `realpath` resolves.

readdir order is part of the snapshot: the model does not choose an order. Standard output is modelled as the sequence of `Event`s a routine returns. Each routine's 0/1 result is a `Status`.

Files:

- `filesystem.dfy` (module `FileSystem`): the snapshot and the three system-call views `Lstat`, `ProbeAccess` and `IsRegular`.
- `diffdir.dfy` (module `DiffDir`): `file_lstat`, `check_same`, the recursive `compare` (the specification function `Walk` and the loop `Compare`), `test_args`, the trailing-`/` loops and `main` (`Run`).
- `properties.dfy` (module `DiffDirProperties`): properties of the walk, of identical trees, of the trailing-`/` removal, and worked examples.

Four behaviours of the code that are easy to get wrong, and that the model keeps:

- `test_args` checks each root with `lstat`, which does not follow a final link. A symbolic link to a directory, given without a trailing '/', is therefore rejected as "Not a directory" (diff-dir.c:29-39). With a trailing '/', lstat resolves the link and the argument passes. The snapshot records what lstat reports for each argument string as given, so both cases are expressible.
- In the reverse pass, `compare(dir2, dir1, false)` probes the mirror under the first root. So an entry found only in the second tree is reported as `MISSING: dir1/...`, naming the first root's path, not `dir2/...` (diff-dir.c:88-96, 182). `PresenceExampleOutput` shows this.
- An entry whose readdir tag is DT_UNKNOWN gets only the existence check, even in the forward pass (diff-dir.c:86, 157). `UnknownTagSkipsStampCheck` shows this.
- A directory missing on the other side is never reported itself. Its files are reported one by one, and an empty directory goes unreported altogether (diff-dir.c:149-156). `LinesNameListedEntries` and `EmptyDirExampleOutput` show this.

## Model

| member | source | states |
|---|---|---|
| DiffDir.FileLstat | diff-dir.c:57-82 | 0 exactly when lstat finds a regular file. With must_exist, every other outcome is 1 (fatal). Without it: -1 exactly for ENOENT, -2 exactly for an existing non-regular entry, 1 exactly for any other lstat error. |
| DiffDir.CheckSame | diff-dir.c:84-125 | At most one line. MISSING names path2 and is printed only when a probe said ENOENT. DIFFERS names path1, only on the full branch, only when path1 is regular and path2 exists with another type, size or mtime. A fatal result prints nothing. Existence-only branch: nothing when access succeeds, MISSING exactly on ENOENT, fatal exactly on another errno. Full branch: fatal with no line if path1 is not regular; MISSING alone when path2 is absent; fatal on another lstat error; otherwise success, with DIFFERS exactly when the type, size or mtime differ. |
| DiffDir.Child | diff-dir.c:146-147 | The child path is dir, then '/', then the name, with no normalisation. |
| DiffDir.Walk | diff-dir.c:127-166 | Every line printed while walking dir1 against dir2 is sound. MISSING names a path strictly under dir2 that a probe found absent. DIFFERS appears only in the forward pass; it names a regular file under dir1 whose mirror (the same path relative to dir2) exists and is not a regular file of the same size and mtime. |
| DiffDir.WalkEntries | diff-dir.c:141-162 | The same soundness, for the readdir loop from any point of the listing on. |
| DiffDir.Visit | diff-dir.c:149-161 | The same soundness, for the lines of one iteration. (Defined as: a DT_DIR entry recurses on dir1/name against dir2/name; any other entry goes to check_same, with check_size true exactly for DT_REG.) |
| DiffDir.Compare | diff-dir.c:127-166 | The readdir loop with early return returns the status and the lines of `Walk`. A failed opendir is fatal with no output. |
| DiffDir.TestArgs | diff-dir.c:13-55 | Success exactly when there are three argv entries, lstat (not following links) finds a directory for each argument, realpath resolves both, and the two canonical paths differ. |
| DiffDir.TrimAsWritten | diff-dir.c:173-177 | The loop as written. It is undefined (None) exactly when the argument is all '/' (or empty). Otherwise it yields the longest prefix that does not end in '/'. |
| DiffDir.Trimmed | diff-dir.c:173-177 | Removes only trailing '/' characters. It never empties a non-empty argument. A result longer than one character does not end in '/'. |
| DiffDir.StripTrailingSlashes | diff-dir.c:173-177 | The guarded loop, one character per iteration, ends at `Trimmed(arg)`. |
| DiffDir.Run | diff-dir.c:168-186 | Rejected arguments give exit 1 and no output. Otherwise the forward pass runs on the trimmed arguments. If it is fatal: exit 1, with only its lines. If not: the reverse pass runs, the output is the forward lines followed by the reverse lines, and the exit status is 0 exactly when the reverse pass succeeds. Every reverse-pass line is MISSING, naming a path under the first root. |
| DiffDirProperties.WalkEntriesAppend | diff-dir.c:141-162 | Splitting the listing in two: after a fatal result in the first part, the second part is never visited. Otherwise the lines of the two parts follow each other. |
| DiffDirProperties.DotEntryIgnored | diff-dir.c:143-144 | Inserting "." or ".." anywhere in a listing changes nothing. |
| DiffDirProperties.SuccessfulLoopVisitsEntry | diff-dir.c:141-165 | When the loop succeeds, every named entry was visited successfully. The output is the lines before it, then its own lines, then the lines after it. |
| DiffDirProperties.SuccessfulWalkCoversEntry | diff-dir.c:127-166 | When compare succeeds, every line of every visit of a listed entry is in its output. |
| DiffDirProperties.ForwardPassReportsRegularFile | diff-dir.c:103-121 | In a successful forward pass, a DT_REG entry is a regular file. It is reported MISSING (other path) when its mirror is absent, and DIFFERS (own path) when the mirror has another type, size or mtime. |
| DiffDirProperties.ExistenceCheckReportsAbsentMirror | diff-dir.c:86-97 | In a successful pass, every named non-directory entry that gets the existence-only check is reported MISSING (other root's path) when access cannot find its mirror (ENOENT). This covers every entry in the reverse pass, and in the forward pass every entry not tagged DT_REG (links, devices, DT_UNKNOWN). |
| DiffDirProperties.UnknownTagSkipsStampCheck | diff-dir.c:157 | A DT_UNKNOWN entry that is a regular file with an existing, differing mirror prints nothing in the forward pass. |
| DiffDirProperties.DirectoriesPrintNothing | diff-dir.c:149-156 | Walking a snapshot whose listings hold only directories prints nothing, whatever the status. Directory entries never produce a line. |
| DiffDirProperties.DirectoryEntriesPrintNothing | diff-dir.c:141-162 | The same, for any part of such a listing. |
| DiffDirProperties.IdenticalTreesPrintNothing | diff-dir.c:84-166 | Take a snapshot whose listings agree with lstat and opendir: every listed name exists, a DT_DIR name can be opened, a DT_REG name is a regular file. Suppose dir1 can be opened, and everything under it has a mirror under dir2 that both probes find, with the same size and mtime for regular files. Then either pass succeeds and prints nothing. |
| DiffDirProperties.IdenticalEntriesPrintNothing | diff-dir.c:141-162 | The same, for any part of a listing of such a tree. |
| DiffDirProperties.IdenticalTreesExitZero | diff-dir.c:168-186 | The whole program, on accepted arguments whose trimmed roots can be opened and mirror each other in both directions, in a consistent snapshot: exit status 0 and no output. |
| DiffDirProperties.LinesNameListedEntries | diff-dir.c:141-162 | No line is spurious. Each one is about a named entry that readdir listed, not tagged DT_DIR, under the walked root: DIFFERS names that path, and MISSING names its mirror under the other root. So a directory is never reported itself. |
| DiffDirProperties.LinesNameListedEntriesFrom | diff-dir.c:141-162 | The same, for any part of a listing drawn from the walked directory. |
| DiffDirProperties.LongestNonSlashPrefixUnique | diff-dir.c:173-177 | At most one prefix of an argument has only '/' removed from its end and does not itself end in '/'. |
| DiffDirProperties.TrimmedAgreesWithLoopAsWritten | diff-dir.c:173-177 | On every argument with a character other than '/', the guarded removal ends exactly where the loop as written does. |
| DiffDirProperties.SlashRootOverrunsTrimLoop | diff-dir.c:27-46 | Some snapshot has test_args accept "/" as the first root. The loop as written then has no defined result on "/", while the guarded removal keeps "/". |
| DiffDirProperties.SizeExampleOutput | diff-dir.c:120-121 | dir1/a/f (10 bytes) against dir2/a/f (20 bytes, same mtime): `dir1/` is accepted and trimmed to `dir1`. The forward pass prints exactly `DIFFERS: dir1/a/f`, and the reverse pass prints nothing. |
| DiffDirProperties.EmptyDirExampleOutput | diff-dir.c:149-156 | dir1 = {s/}, empty, against an empty dir2: both passes succeed and print nothing. |
| DiffDirProperties.PresenceExampleOutput | diff-dir.c:114-118 | dir1 = {x.txt}, dir2 = {y.txt}: the forward pass prints exactly `MISSING: dir2/x.txt`, and the reverse pass prints exactly `MISSING: dir1/y.txt`. |

## Left out

- Text on standard error: the messages, `strerror`, and the usage banner with `basename(argv[0])` and the version (diff-dir.c:17-19, 31, 37, 43, 50, 63, 74, 92, 133). Only the status is modelled.
- The system calls `lstat`, `access`, `opendir`/`readdir`/`closedir` and `realpath`. They are foreign calls, replaced by lookups in the snapshot. `closedir` and the handle limit have no counterpart.
- Errno values: reduced to ENOENT versus any other, the only distinction the program makes.
- The fixed `PATH_MAX` buffers and the unchecked `sprintf` (diff-dir.c:24-25, 138-147). These are undefined behaviour on overflow. Paths are unbounded strings.
- Changes to the filesystem during a run. The snapshot is fixed, so the "File changed" path is reached only when a readdir tag disagrees with lstat inside the snapshot.
- `long`/`unsigned long` widths of st_size and st_mtime. Sizes and seconds are unbounded integers. Converting mtime to unsigned long does not change an equality test between equal-width values.
- Run: follows the guarded trailing-'/' removal, not the loop as written. The two agree on every argument that contains a character other than '/' (see Findings).

## Findings

| source | as written | input that shows it | evidently intended | confidence | as-written member | corrected member |
|---|---|---|---|---|---|---|
| diff-dir.c:173-177 | `while (argv[i][strlen(argv[i]) - 1] == '/')` removes the last character with no check that the string is non-empty | `diff-dir / b` where `/` and `b` are different directories: test_args accepts `/`, the loop empties it, then evaluates `argv[1][strlen("") - 1]`, reading outside the argument | Stop removing at one character, so `/` keeps naming the root directory | medium, not executed | DiffDirProperties.SlashRootOverrunsTrimLoop | DiffDir.StripTrailingSlashes |
