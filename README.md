# clicache in Dafny

clicache caches the results of shell commands on disk. Each result has one directory. A `current` symbolic link names the live result for a command. This project models the two pieces of logic at its centre.

- **The cache engine** (`clicache/__init__.py`):
  - `_hash` builds the "reverse" text of a command (shell code, an argument vector, and optional standard input) and digests it.
  - `_hash2dir` maps the digest to its shard directory.
  - `_cache` writes a fresh entry directory with five files (`t`, `r`, `stdout`, `stderr`, `returncode`), then moves `current` onto it by renaming a temporary link, then removes the old entry.
  - `_cached_runsh` follows `current`, opens the five files, checks the entry's age and parses the stored fields.
  - `runsh` looks the command up; on a miss it runs the command, caches the result and reads it back.
- **The shell-text helpers** (`clicache/cli.py`):
  - `shquote`: single-quote escaping as in section 2.2.2 of the POSIX Shell Command Language.
  - `argv2sh`: selective quoting of an argument vector.
  - `sherrcheck`: the error test and its `ShError` message.
  - The line-reassembly loop of `runsh_i`.

Files:

- `common.dfy`: `Option` and `Result`.
- `text.dfy`: `str.find`, `str.count` and `''.join`.
- `decimal.dfy`: `'%d'` and `int()`, and `'%.6f'` and `float()` on integer microseconds.
- `shell.dfy`: the `cli.py` helpers. It includes a reader for shell words, which is the reader the quoting functions are proved against, and Python 2's `repr` of a string.
- `filesystem.dfy`: an in-memory filesystem.
  - The tree is a map from paths to `Dir | File(data) | Symlink(target)`.
  - The `os` calls the cache makes are pure functions (`MkdirOf`, `RenameOf`, …).
  - A class `Disk` applies those calls in place.
- `clicache.dfy`: the cache engine.
  - The write and read paths are functions, with lemmas about them.
  - Methods perform the same steps one call at a time on a `Disk`, and each is proved equal to its function.

Injected dependencies:

- SHA-1 is a function parameter `sha1: string -> Digest`.
- The fresh `uuid1` is a parameter of type `EntryId`.
- The clock readings are parameters: integer microseconds.
- The command runner is a function parameter.
- The retry limit `CLICACHE_MAX_RETRIES` is a parameter.

## Model

| member | source | states |
|---|---|---|
| Text.Find | clicache/cli.py:146-151 | the result is -1 exactly when the character does not occur from `start` on; otherwise it is the first such index |
| Decimal.ParseFormatInt | clicache/__init__.py:215-216 | `int()` of the text `'%d' % n` gives back `n`, for every integer |
| Decimal.ParseBlanksAfterSign | clicache/__init__.py:215-216 | `int()` of a minus sign, any blanks, then digits is the negative of the digits' value: Python 2.7's `int()` skips whitespace again after the sign |
| Decimal.ParseFormatTimestamp | clicache/__init__.py:197-198 | `float()` of the text `'%.6f'` writes for a clock value gives back that value, negative values included |
| Shell.EscapeQuotes | clicache/cli.py:28 | each single quote grows by three characters; nothing else changes length |
| Shell.ShQuote | clicache/cli.py:22-28 | the result has length `len(text) + 2 + 3·count(')`, and it starts and ends with a single quote |
| Shell.ShQuoteNoQuote | clicache/cli.py:28 | text without single quotes is only wrapped in a pair of them |
| Shell.ShQuoteOneQuote | clicache/cli.py:22-28 | a text with one inner quote and none elsewhere is quoted as the text before it in quotes, the escaped quote `'\''`, and the text after it in quotes: `don't fail` becomes `'don'\''t fail'` |
| Shell.ShQuoteRoundTrip | clicache/cli.py:22-28 | POSIX quote removal of `shquote(text)` gives back `text`, for every text, quotes and newlines included |
| Shell.RenderAsWritten | clicache/cli.py:39-44 | an argument accepted by `re_unquote` is left bare. This includes a safe word followed by one newline, because `$` matches before a final newline. Every other argument renders as the corrected rendering does |
| Shell.ReadRendered | clicache/cli.py:39-44 | under the corrected rendering, an argument, bare or quoted, reads back as exactly that argument, ending at the next blank |
| Shell.SpacedCommandLine | clicache/cli.py:37-47 | the string the loop builds (each argument rendered as `re_unquote` decides) is empty for no arguments. Otherwise it is one space followed by the as-written command line, so `sh[1:]` is that command line |
| Shell.Argv2Sh | clicache/cli.py:30-49 | the loop, testing `re_unquote` as written, returns exactly the as-written command line, `''` for an empty list; the `ValueError` branch cannot be reached. When no argument is a safe word followed by a newline, a shell reads the result back as exactly the arguments |
| Shell.AsWrittenAgrees | clicache/cli.py:37-47 | unless some argument is a safe word followed by one newline, the as-written command line equals the corrected one |
| Shell.CommandLineWords | clicache/cli.py:37-47 | a shell splitting the corrected command line into words finds exactly the original arguments, in order (empty arguments included) |
| Shell.CommandLineEdges | clicache/cli.py:37-49 | the command line `argv2sh` returns is empty exactly for the empty list. Otherwise it neither starts nor ends with a space |
| Shell.AsWrittenLeavesNewlineBare | clicache/cli.py:10 | as written, `["echo", "foo\n"]` becomes `echo foo\n`, whose words are `["echo", "foo"]`: the newline is lost. The corrected command line quotes it and the words read back intact |
| Shell.SherrCheck | clicache/cli.py:53-74 | `ShError` is raised exactly when there is a non-zero return code or a non-empty stderr. It carries `sh`, `returncode` and `stderr` unchanged, with the message built by cli.py:61-69 |
| Shell.QuietMessage | clicache/cli.py:61-69 | with `verbose` off, the message is "shell code" plus the status phrase alone: neither `sh` nor `stderr` appears |
| Shell.StatusPhraseReadsBack | clicache/cli.py:63-67 | a negative code reads "killed by signal [n]" with `n = -returncode`; any other reads "failed with exit status [n]". In both cases the bracketed digits parse back to the magnitude |
| Shell.SplitLinesConcat | clicache/cli.py:138-160 | joining the lines yielded gives back exactly the standard output text |
| Shell.SplitLinesShape | clicache/cli.py:145-160 | every yielded line is non-empty and holds a newline only at its end; every line but the last ends in a newline |
| Shell.SplitCompleteLines | clicache/cli.py:145-160 | complete lines followed by a newline-free remainder split back into those lines, then the remainder only if it is non-empty |
| Shell.TakeChunk | clicache/cli.py:145-152 | one chunk turns the pending partial line into complete lines plus a new newline-free partial line. Their concatenation is the old partial line plus the chunk, and they are the line split of it |
| Shell.RunshI | clicache/cli.py:135-161 | the lines yielded are the line split of everything read from standard output (the partial last line only when non-empty). The error afterwards is `sherrcheck` of the accumulated stderr and the exit status |
| FileSystem.MkdirOf | clicache/__init__.py:108-109 | `os.mkdir` succeeds exactly when the parent is a directory and the path is free; it fails with EEXIST exactly when the path exists; a failure changes nothing; the tree stays well formed |
| FileSystem.MakeDirsSpec | clicache/__init__.py:95-98 | `os.makedirs` fails with EEXIST exactly when the path exists; on success the path is a directory; existing paths keep their nodes; every new path is a directory on the way to the target |
| FileSystem.MakeDirsSucceeds | clicache/__init__.py:95-98 | for a missing path, `os.makedirs` succeeds exactly when resolving it stops at a missing component rather than at a non-directory |
| FileSystem.WriteFileOf | clicache/__init__.py:111-115 | `open(p,'w').write(data)` succeeds exactly when the parent is a directory and the path is free or a file, leaving the path holding `data` |
| FileSystem.ReadFileOf | clicache/__init__.py:177-181 | `open(p,'r')` succeeds exactly when the path resolves to a regular file, and returns its contents |
| FileSystem.SymlinkOf | clicache/__init__.py:123-124 | `os.symlink` succeeds exactly when the parent is a directory and the name is free, adding a link to the target |
| FileSystem.ReadLinkOf | clicache/__init__.py:126-135 | `os.readlink` returns the target exactly for a link; ENOENT exactly when the path is missing from an existing directory; EINVAL for a non-link |
| FileSystem.RenameOf | clicache/__init__.py:137-139 | `os.rename` moves the node, replacing any non-directory destination. It succeeds exactly when the destination's parent is a directory and the destination is not a directory |
| FileSystem.RmtreeOf | clicache/__init__.py:141-143 | `shutil.rmtree(p, ignore_errors=True)` on a directory removes exactly `p` and everything below it. On anything else it changes nothing |
| FileSystem.Disk.Mkdir | clicache/__init__.py:109 | the disk changes in place exactly as `MkdirOf` says, and stays well formed |
| FileSystem.Disk.MakeDirs | clicache/__init__.py:96 | the recursive `makedirs` changes the disk exactly as `MakeDirsOf` says |
| FileSystem.Disk.WriteFile | clicache/__init__.py:111-115 | the disk changes exactly as `WriteFileOf` says |
| FileSystem.Disk.Symlink | clicache/__init__.py:124 | the disk changes exactly as `SymlinkOf` says |
| FileSystem.Disk.Rename | clicache/__init__.py:139 | the disk changes exactly as `RenameOf` says |
| FileSystem.Disk.Rmtree | clicache/__init__.py:143 | the disk changes exactly as `RmtreeOf` says |
| CliCache.Hash | clicache/__init__.py:53-74 | the digest is SHA-1 of the reverse text alone. String code is its own reverse text. An argument list's reverse text is `argv2sh` of it as written, and splits back into that list unless some argument is a safe word followed by a newline. With stdin, the text is `echo <shquote(input)> \| <code>` |
| CliCache.StdinDistinguishes | clicache/__init__.py:68-69 | the same command with different standard input has different reverse text |
| CliCache.ReverseTextOfList | clicache/tests/test_clicache.py:121-125 | `['/bin/echo', 'foo bar']` has reverse text `/bin/echo 'foo bar'` |
| CliCache.ReverseTextWithInput | clicache/tests/test_clicache.py:126-130 | `['cat']` with input `foo bar` has reverse text `echo 'foo bar' \| cat` |
| CliCache.Hash2Dir | clicache/__init__.py:76-81 | the key directory lies three levels below the cache root |
| CliCache.KeyDirsDisjoint | clicache/__init__.py:76-81 | two digests share a path in their key directories only if they are equal |
| CliCache.WriteEntryOk | clicache/__init__.py:108-115 | with the entry name free under a directory, `mkdir` and the five writes all succeed, adding exactly the entry and its five files |
| CliCache.WriteEntryFails | clicache/__init__.py:108-115 | writing the entry fails only when `mkdir` does, and a failure changes nothing |
| CliCache.PublishSpec | clicache/__init__.py:122-143 | it fails exactly when the temporary link's name is taken or `current` is not a link. On failure only the temporary link may be added. On success `current` links to the new id, the temporary link is gone, the old target is reported, and only the old entry is removed |
| CliCache.PublishFails | clicache/__init__.py:122-135 | when the temporary link's name is taken, or `current` exists and is not a link, nothing else happens after the symlink step and the error is raised |
| CliCache.PublishSucceeds | clicache/__init__.py:122-143 | otherwise the tree after the update is the temporary link renamed onto `current`, with the old target's subtree removed, and the old target is reported |
| CliCache.UsableIff | clicache/__init__.py:95-98 | the key's directory exists or can be made exactly when resolving it does not meet a non-directory |
| CliCache.CacheStages | clicache/__init__.py:83-143 | `_cache` is `makedirs` (with EEXIST swallowed), then the entry write, then the pointer update. Each stage runs only if the one before it succeeded |
| CliCache.CacheFailsIff | clicache/__init__.py:83-143 | `_cache` raises exactly when one of these holds: the key directory cannot be made; the new entry's name is taken; the temporary link's name is taken; `current` exists but is not a link. An existing key directory is not an error |
| CliCache.CachePublishes | clicache/__init__.py:118-139 | after a successful `_cache`, `current` is a link to the new id. The temporary link is gone, the new entry did not exist before, and the reported old target is what `current` named |
| CliCache.CacheWritesEntry | clicache/__init__.py:101-115 | after a successful `_cache` whose old `current` did not already name the fresh id, the new entry holds `t` = the clock at write time (not the `t` argument), `r`, `stdout`, `stderr` and the decimal `returncode` |
| CliCache.PublishKeepsEntry | clicache/__init__.py:137-143 | the pointer update leaves the new entry and its files alone, unless the old link already named the new id |
| CliCache.CacheRemovesOld | clicache/__init__.py:126-143 | after a successful `_cache`, the entry `current` named before is removed with everything below it |
| CliCache.CacheFrame | clicache/__init__.py:83-143 | an existing path keeps its node unless it is `current` or lies in the removed old entry. A new path is one of: a directory `makedirs` made, inside the new entry, `current`, or the temporary link |
| CliCache.CacheKeeps | clicache/__init__.py:83-143 | the "existing paths" half of the frame, for one path |
| CliCache.CacheAdds | clicache/__init__.py:83-143 | the "new paths" half of the frame, for one path |
| CliCache.CacheOutsideKey | clicache/__init__.py:83-143 | outside the key's directory nothing changes, except ancestors `makedirs` creates, which are directories |
| CliCache.WriteEntryOn | clicache/__init__.py:108-115 | `mkdir` and the five writes on the disk, stopping at the first error, change it exactly as the entry write says |
| CliCache.PublishOn | clicache/__init__.py:122-143 | symlink, readlink, rename and rmtree on the disk change it exactly as the pointer update says |
| CliCache.Cache | clicache/__init__.py:83-143 | `_cache` performed call by call on the disk leaves exactly the tree, and raises exactly the error, that the function gives |
| CliCache.OpenAll | clicache/__init__.py:177-181 | the five opens succeed exactly when all five files exist as regular files, and return their contents |
| CliCache.OpenAllHolds | clicache/__init__.py:177-181 | opening an entry gives back what it holds |
| CliCache.ExamineEntry | clicache/__init__.py:195-218 | a malformed `t` is an internal error, never a miss. An entry older than `maxage` seconds (`now - t > maxage`) is a miss, and an age exactly `maxage` is not. A fresh entry with a well-formed `t` is a hit returning `stdout`, `stderr` and the parsed `returncode` when that parses, and an internal error when it does not; a hit happens only in that case |
| CliCache.CachedRunshOf | clicache/__init__.py:145-226 | a hit requires at least one try and `current` a link to an entry with all five files. A hit returns those files' output, stderr and parsed code, stamped within `maxage` |
| CliCache.LookupFollowsCurrent | clicache/__init__.py:153-218 | with at least one try and `current` a link to an entry holding the five files, the lookup is exactly the examination of those files: a hit with their contents when `t` is well formed and within `maxage` and `returncode` parses |
| CliCache.CachedRunsh | clicache/__init__.py:145-226 | the readlink, the open loop with its `good` flag and counter, and the examination, performed on the disk without changing it, give exactly the lookup function's result |
| CliCache.LookupMissIff | clicache/__init__.py:153-162 | `CacheMiss` for want of an entry is raised exactly when `current` is absent from a key directory that exists or could be made |
| CliCache.LookupFaults | clicache/__init__.py:153-192 | with no retries allowed, the lookup is either the miss for want of an entry or "unable to get a handle". A `current` that is not a link leaves `canonical` unbound. A link to a missing entry fails its first open with ENOENT |
| CliCache.ExamineWritten | clicache/__init__.py:197-218 | an entry as `_cache` wrote it at `now`, examined at `later`, is a hit with the very output and code written, unless more than `maxage` seconds passed |
| CliCache.ExamineMonotone | clicache/__init__.py:204-207 | raising `maxage` never turns a hit into anything else, and lowering it never makes a stale entry fresh |
| CliCache.DefaultMaxageMisses | clicache/__init__.py:204-207 | with the default `maxage = -1`, any entry stamped before one second past the clock misses |
| CliCache.CacheThenLookup | clicache/__init__.py:83-226 | after a successful `_cache` at `now`, a lookup at `later` with at least one try returns the stored `(stdout, stderr, returncode)` unless the entry outlived `maxage`; with `maxage = sys.maxint` it does whenever `later` is within `sys.maxint` seconds of `now`. |
| CliCache.Runsh | clicache/__init__.py:231-247 | `runsh` on the disk leaves exactly the tree and returns exactly the result of the orchestration function: lookup, then on a miss run, cache, and re-read with `maxint` |
| CliCache.RunshHitSkipsExecute | clicache/__init__.py:234-235 | on a hit the result and the tree do not depend on the command runner, and the tree is unchanged |
| CliCache.RunshMissExecutes | clicache/__init__.py:236-247 | on a miss whose entry can be stored, with at least one try and the re-read within `sys.maxint` seconds of the write, `runsh` returns exactly what the command runner produced, read back from the cache |
| CliCache.RunshThenHit | clicache/__init__.py:231-247 | after a miss is filled, with at least one try, the next `runsh` of the same command within `maxage` is a hit with the same answer. It leaves the tree as it was and does not depend on the runner |

## Left out

- Process execution (`runsh_t`, `cli.runsh`, `Popen`, `communicate`, `select`, `os.read`, `/dev/null`, clicache/cli.py:76-134): `runsh` receives the runner as a function parameter, and `runsh_i` receives the sequence of chunks read from the two pipes.
- `runsh_i`'s `select`: modelled as an ordered list of reads. The loop also ends when that list runs out.
- The runner cannot fail to start here. A `Popen` failure is not modelled.
- SHA-1 itself (`hashlib`): an arbitrary function from text to forty lower-case hex digits.
- Concurrency between processes: one process acts on the filesystem at a time. The atomicity of `rename` and the "deleted files stay readable while open" argument in the comments are not modelled.
- The retry loop of `_cached_runsh` (clicache/__init__.py:172-192) re-raises on its first failure, so it makes at most one attempt. It is modelled that way.
- `CLICACHE_MAX_RETRIES` arrives from the environment, possibly as a string. Here it is an integer parameter.
- Timestamps are integer microseconds. `'%.6f'` and `float()` are modelled only for the forms they produce here: a sign, digits, and an optional point with at most six digits. Exponents, `nan`, `inf` and rounding of longer fractions are not modelled.
- `maxage` is a whole number of seconds. A fractional `maxage` is not modelled.
- The filesystem:
  - Symbolic links are not followed when resolving directories, and opening a link gives ELOOP. The only link the cache reads, `current`, is read with `readlink`.
  - A link target is one path component, as `_cache` writes it. The model gives `.`, `..` and `/` inside a name no special meaning. A `current` that another program pointed at `..`, an absolute path or a deeper path is therefore not modelled. `os.path.join` would resolve such a target, and the `rmtree` at clicache/__init__.py:143 could then reach outside the key's directory.
  - `os.rename` is modelled only for a source that is not a directory, which is the only use `_cache` makes of it.
  - Permissions, disk-full errors and file handles are not modelled.
- Python's `repr` is modelled for characters below 256. Unicode strings are not modelled.
- Logging, the `NullHandler` and the `__main__` block, clicache/settings.py, and the `~` in `CLICACHE_DIR`: the cache root is a parameter.
- clicache/__init__.py never imports `cli` (lines 22-24). The name is bound only if other code has already run `import clicache.cli`, as the tests do. Otherwise `_hash` of an argument list (line 63), `_hash` with standard input (line 69) and `runsh` on every miss (line 238) raise NameError. The model assumes the name is bound and calls the `cli.py` functions directly.
- Outdated documentation is not modelled; the code is followed instead:
  - the layout in the module docstring (clicache/__init__.py:7-15) shows no shard directories and no `current` link;
  - the `_cache` docstring (clicache/__init__.py:86-88) says a newer entry is kept, but the code always replaces `current`;
  - the `argv2sh` docstring and `ValueError` branch (clicache/cli.py:46-49) cannot be reached.
- A `readlink` of `current` that fails other than with ENOENT (clicache/__init__.py:158-162): the code swallows the error, then uses an unbound `canonical`. This NameError is modelled as `Fatal(UnboundCanonical)` when at least one try is allowed.
- CliCache.CacheThenLookup: assumes the fresh uuid differs from the id `current` named before. When they are equal, `_cache` removes the entry it has just written.
- CliCache.RunshMissExecutes: the same condition applies.
- CliCache.RunshThenHit: the same condition applies.
- CliCache.CacheWritesEntry: assumes the fresh uuid differs from the id `current` named before, for the same reason.

## Findings

| source | as written | input that shows it | evidently intended | confidence | as-written member | corrected member |
|---|---|---|---|---|---|---|
| clicache/cli.py:10 | `re_unquote` ends in `$`, which in Python also matches just before a final newline. So `argv2sh` leaves an argument like `foo\n` unquoted, and the shell drops the newline when it splits words | `argv2sh(['echo', 'foo\n'])` gives `echo foo\n`, which a shell reads as the words `echo`, `foo` | only arguments made entirely of safe characters stay bare (`\Z` instead of `$`), so the command line reads back as the same arguments. `Shell.Argv2Sh` and the cache key follow the code as written; `Shell.AsWrittenAgrees` shows the two differ only on such arguments | not executed | Shell.Argv2Sh, Shell.AsWrittenLeavesNewlineBare | Shell.CommandLine, Shell.CommandLineWords |
