# nanobox file transfer and environment variables, modelled in Dafny

This project models two parts of the nanobox command-line tool:

- The archive-and-transfer helpers of `util/file/file.go`:
  - `Copy`, `copyDir` and `copyFile` duplicate a directory tree with its permission bits.
  - `Tar` walks a tree and writes one archive entry per regular file.
  - `Untar` applies the entries of an archive to the filesystem.
  - `Progress` streams a download into a writer and counts the bytes it read.
- The `nanobox dev evar add` and `nanobox dev evar remove` commands of `commands/dev/env.go`. They parse comma-separated `KEY:value` pairs or keys and edit the app's map of environment variables.

The operating system is a `Disk` object (`filesystem.dfy`). It holds:

- a map from paths to nodes;
- the set of paths whose opening for reading is refused;
- the set of paths the process may not write. Nothing can be made inside such a directory, and such a regular file cannot be opened for writing. The set may name paths that do not exist yet, such as a directory that a copy makes without write permission.

It has one method for each call the code makes: `os.Stat`, `os.MkdirAll`, `os.Open` with `Readdir`, `os.Create`, writes and `os.Chmod`. A path is a sequence of names.

Each file of the project follows one part of the source:

- `treecopy.dfy` holds `Copy`, `CopyDir` and `CopyFile`. They are methods that change the `Disk`, each proved against its own specification:
  - `CopyFile` against the function `FileError` (the error it returns, if any) and the equation `nodes == old(nodes)[dst := old(nodes)[src]]` on success (nothing changes on failure);
  - `Copy` first against `MkdirAllSpec` for the target directory. If that fails, its error and partial result are the outcome. Otherwise the rest is `CopyOutcome` on the filesystem `MkdirAll` left;
  - `CopyDir`, and its loop `CopyEntries`, against the predicate `CopyOutcome`, which says:
    - only copies of source nodes were made, and nothing is rolled back after an error;
    - the copy succeeds exactly when no node of the tree meets an error (`ErrorAt`). A node meets an error when it cannot be opened, when its target is of another kind, or when its target cannot be written;
    - after a success, every planned target holds its copy;
    - after a failure, the error is the one some node meets. Every child of `src` other than the one where the copy stopped is either copied in full or untouched.
- `archive.dfy` holds the archive side:
  - `Tar` is a method writing to a `TarWriter` object. It is proved equal to the walk function `TarSpec`. The lemmas say which entries that walk produces and when it fails.
  - `Untar` is a loop over the entries. It is proved equal to the fold `Restore`. The lemmas cover one entry of each kind and the round trip from `Tar` to `Untar`.
- `progress.dfy` holds the read loop of `Progress` over a 2048-byte array, proved against `StreamSpec`.
- `env.dfy` holds `EnvAdd` and `EnvRemove`. Each has the nested loops of the source and is proved against a fold or set function. Lemmas give the meaning of those functions.
- `lexical.dfy` defines the byte order in which `filepath.Walk` visits the entries of a directory.

Behaviours of the code worth knowing:

- `Untar` ignores its `dst` argument. Every entry is written at the name stored in its header.
- A regular-file entry is restored by `os.Create` alone. No missing parent directory is made, and the entry's mode is not applied: the file keeps the mode of the file it replaced, or gets 0666. The round trip therefore restores file contents but not modes (`Archive.RoundTrip`), and it needs the parent directories to exist already.
- `filepath.Walk` visits the names of a directory in sorted order, so `Tar`'s entries come in lexical order. `copyDir` uses `Readdir`, which has no order, and the model lets it copy the entries in any order.
- `Copy` of a regular file creates `dst` as a directory first. The copy then fails when it tries to list the source.
- `os.MkdirAll` makes the missing directories from the top down. When it is refused partway, the directories it already made stay.
- `os.Create` of a name whose missing parent lies under a regular file fails with "not a directory", not "not found".

## Model

| member | source | states |
|---|---|---|
| TreeCopy.Copy | util/file/file.go:26-41 | A missing `src` gives its not-found error and changes nothing. A failing `MkdirAll(dst)` gives its error and leaves the directories it made. Otherwise the result is the outcome of copying the tree into the filesystem `MkdirAll` left. The copy succeeds exactly when `src` exists, `MkdirAll(dst)` can succeed, and no node of the tree meets an error. |
| TreeCopy.CopyDir | util/file/file.go:251-299 | Only copies of source nodes are made, with no rollback. The copy succeeds exactly when no directory or regular file below `src` meets an error: opening it, a target of another kind, or a target it may not write. After a success, every target holds its copy. After a failure, the error is one that some node meets, and every child other than the one where the copy stopped is copied in full or untouched. |
| TreeCopy.CopyEntries | util/file/file.go:277-298 | The loop over the listing, in any order, stops at the first error: the children copied before it are complete, those after it untouched. It ends with the same outcome as `CopyDir`. |
| TreeCopy.CopyChild | util/file/file.go:282-295 | A directory entry is copied recursively and a regular file with `copyFile`. Any other node is skipped: nothing changes and there is no error. |
| TreeCopy.CopyFile | util/file/file.go:224-248 | The error is the source refused for reading, then a directory, special node or read-only file at the target, or a new target in a read-only directory. There is no error otherwise. On success the target is the source node: its bytes, then its permission bits. On failure nothing changes. |
| TreeCopy.CopyFidelity | util/file/file.go:277-295 | After a complete copy, the counterpart of every regular file below `src` holds its bytes and mode. The counterpart of every directory is a directory, with the source's mode when the copy created it. |
| TreeCopy.OtherSkipped | util/file/file.go:282-295 | The counterpart of a link, device, socket or pipe is left as it was, even after a partial copy. |
| TreeCopy.MkdirKeepsCopyable | util/file/file.go:34-37 | Creating `dst` and its parents does not change whether the tree can be copied. It leaves `dst` inside a directory. |
| FileSystem.MkdirAllSucceeds | util/file/file.go:35 | `os.MkdirAll` succeeds exactly when every existing prefix of the path is a directory and no missing prefix lies in a directory the process may not write. |
| FileSystem.MkdirAllResult | util/file/file.go:259-263 | `os.MkdirAll` only adds missing prefixes of the path, as directories with the given mode, even when it fails partway. It keeps every existing node and keeps the filesystem well formed. On success the path and all its prefixes exist. |
| FileSystem.MkdirOneLevel | util/file/file.go:260 | When the parent is a directory, `os.MkdirAll` creates at most the one directory. It fails when a non-directory is in the way or the parent may not be written, and then changes nothing. |
| FileSystem.CreateMeaning | util/file/file.go:232-236 | `os.Create` succeeds exactly on a regular file the process may write, or on a new name inside a directory it may write. It leaves an empty regular file that keeps its old mode or gets 0666, and changes nothing else. |
| FileSystem.BlockedMeaning | util/file/file.go:135-138 | A path is blocked, so that `os.Create` below it fails with "not a directory", exactly when one of its prefixes is a node other than a directory. |
| FileSystem.Listing | util/file/file.go:272 | `Readdir` lists exactly the names inside the directory, each with the node found there. |
| FileSystem.Disk.Stat | util/file/file.go:29-32 | `os.Stat` returns the node at the path, or not-found exactly when there is none. |
| FileSystem.Disk.MkdirAll | util/file/file.go:35-37 | Changes the filesystem and returns the error as the recursive `MkdirAll` function says. A refusal partway leaves the parents made before it. |
| FileSystem.Disk.ReadDir | util/file/file.go:266-275 | Opening and listing a directory fails on a missing, unopenable or non-directory path. Otherwise it gives the directory's listing. |
| FileSystem.Disk.ReadDirNames | util/file/file.go:58 | The names `filepath.Walk` reads for a directory are its listing in ascending order. |
| FileSystem.Disk.ReadFile | util/file/file.go:226-230 | Opening and reading a file fails on a missing, unopenable, directory or non-regular path. Otherwise it gives the file's bytes. |
| FileSystem.Disk.Create | util/file/file.go:232-236 | Changes the filesystem as `os.Create` says, and changes nothing on error. |
| FileSystem.Disk.Write | util/file/file.go:142 | The bytes `io.Copy` writes to an open regular file go after those already there, and nothing else changes. |
| FileSystem.Disk.Chmod | util/file/file.go:247 | Sets the permission bits of an existing node and keeps its kind and bytes. A missing path gives not-found. |
| Lexical.SortedIsListing | util/file/file.go:58 | The walk order of a directory holds each of its names exactly once, in strictly ascending byte order. |
| Archive.TarWriter.WriteHeader | util/file/file.go:78 | Writing a header starts a new entry with no bytes. |
| Archive.TarWriter.Write | util/file/file.go:90 | Bytes written go to the end of the current entry's body. |
| Archive.Tar | util/file/file.go:44-97 | The entries written and the error are those of the walk from `root`. A missing root writes nothing and gives not-found. |
| Archive.Walk | util/file/file.go:58-96 | A regular file writes its header, then its bytes. When it cannot be opened, the walk stops after the header. A directory that cannot be opened stops the walk. Its entries are walked in lexical order, stopping at the first error. Other nodes write nothing. |
| Archive.WalkEntries | util/file/file.go:58-96 | The loop over the sorted names of a directory writes exactly what walking them one after another writes. |
| Archive.WalkWritten | util/file/file.go:65-93 | Every entry written belongs to a regular file of the tree and carries its header and full bytes. The exception is the last entry, left empty when that file could not be opened. No file appears twice. |
| Archive.WalkCovers | util/file/file.go:58-96 | The walk succeeds exactly when every directory and regular file of the tree can be opened. It then names every regular file of the tree and nothing else. |
| Archive.TarArchive | util/file/file.go:44-97 | `Tar` writes one entry per regular file reached, with the file's walk path, mode, size and bytes, and none for directories or other nodes. A missing root gives not-found. `Tar` succeeds exactly when the tree can be opened, and then every regular file has its entry. |
| Archive.Delivered | util/file/file.go:142-144 | The tar reader delivers as many bytes as the header's size, or fewer when the stream ends first, and always a prefix of the body. |
| Archive.Untar | util/file/file.go:100-152 | The new filesystem and the error are those of applying the entries in order up to the first failure. `dst` plays no part. |
| Archive.RestoreAppend | util/file/file.go:113-150 | Restoring `a + b` is restoring `a` and then, if that succeeded, `b`. |
| Archive.UnknownTypeStops | util/file/file.go:147-148 | The first entry that is neither a directory nor a regular file stops the restore with an error naming its type and name. Later entries have no effect. |
| Archive.RestoreDirectory | util/file/file.go:128-131 | A directory entry succeeds exactly when every existing prefix of its name is a directory and every missing one may be made. Whether or not it succeeds, it keeps every existing node and adds only missing prefixes of its name, as directories with the entry's mode. On success the name is a directory. |
| Archive.RestoreRegular | util/file/file.go:134-144 | A regular-file entry fails without change when `os.Create` fails. That happens with a missing parent: "not a directory" when a regular file lies on the way, "not found" otherwise. It also happens with a read-only file or directory ("permission denied"). Otherwise the name holds the delivered bytes, with the old mode or 0666 rather than the entry's mode. A short body reports an unexpected end of stream. |
| Archive.RestoreFiles | util/file/file.go:113-150 | Full-bodied regular-file entries with distinct names, each in an existing directory the process may write, are all restored when nothing but a regular file the process may write sits at each name (no directory, link, device, socket or pipe, and no read-only file). Each name gets its bytes, and every other node is kept. |
| Archive.RoundTrip | util/file/file.go:44-152 | Restoring the archive of a tree that `Tar` wrote in full succeeds when every file's directory exists and may be written, and nothing but a regular file the process may write sits at each file's name (no directory, link, device, socket or pipe, and no read-only file). Every regular file gets its bytes back, but its mode is the one already at that name or 0666. |
| Streaming.Body.Read | util/file/file.go:195 | A read puts the next chunk of the body at the front of the buffer and reports how it ended. After the last chunk, a read delivers nothing and reports the end. |
| Streaming.Sink.Write | util/file/file.go:198 | The bytes go after those already written. |
| Streaming.Progress | util/file/file.go:189-220 | Writes the bytes of every read up to and including the one that ends the loop. Ends with no error at the end of the body and with the read's error otherwise. Counts exactly the bytes written. |
| Streaming.StreamStops | util/file/file.go:209-217 | The loop stops at the first read that reports the end or an error. It has then written the bytes of every read up to and including that one. |
| Streaming.StreamAll | util/file/file.go:192-218 | When no read ends the loop, every chunk is written and there is no error. |
| EnvVars.Split | commands/dev/env.go:66-67 | Splitting gives one more piece than there are separators, and no piece holds the separator. Joining the pieces gives back the string. |
| EnvVars.SplitJoin | commands/dev/env.go:66-67 | Splitting inverts joining pieces that hold no separator. |
| EnvVars.Upper | commands/dev/env.go:69 | Uppercasing keeps the length of the key. Each lower-case ASCII letter becomes its upper case, 32 code points lower, and every other character is kept. |
| EnvVars.UpperHasNoLower | commands/dev/env.go:69 | A stored key holds no lower-case ASCII letter. |
| EnvVars.UpperIdempotent | commands/dev/env.go:90 | Uppercasing twice is uppercasing once, so a key typed in upper case names the stored key. |
| EnvVars.SameKey | commands/dev/env.go:90 | Two keys are uppercased to the same stored key exactly when they differ only in the case of ASCII letters (`SameUpToCase`, defined position by position). |
| EnvVars.PairNeedsOneColon | commands/dev/env.go:67-68 | A piece is taken as a pair exactly when it holds one colon. A piece with none or several, the empty one included, is ignored. |
| EnvVars.PairParts | commands/dev/env.go:67-69 | `key:value` sets the uppercased key to the value, and the value keeps its case. |
| EnvVars.LastSetIsLast | commands/dev/env.go:65-71 | The value kept for a key is that of a pair for the key with no later pair for it. When no pair is for the key, none is found. |
| EnvVars.AddPairsMeaning | commands/dev/env.go:63-74 | After adding, a key some pair sets holds the value of the last such pair. Every other variable is present and equal exactly as before. |
| EnvVars.EnvAdd | commands/dev/env.go:65-72 | The loops read every comma-separated piece of every argument, in order, into the map. |
| EnvVars.UppersMeaning | commands/dev/env.go:88-92 | The keys removed are exactly the uppercased comma-separated keys of the arguments. |
| EnvVars.EnvRemove | commands/dev/env.go:88-92 | The result is the map without the uppercased keys named. Every other variable is kept, and an absent key changes nothing. |
| EnvVars.RemoveUndoesAdd | commands/dev/env.go:65-92 | A variable added under one spelling of its key is stored with its value. Removing it under any spelling that differs only in ASCII case (`SameUpToCase`) leaves the other variables as they were. |
| EnvVars.RemoveIdempotent | commands/dev/env.go:90 | Removing keys twice is removing them once, and no removed key is left. |

## Left out

- The gzip and tar byte encodings, and `io.MultiWriter`: an archive is its sequence of entries, written to one tar writer.
- Errors from writing headers or bytes to the archive writer: the archive writer always accepts.
- Streaming.Progress: ignores the result of `w.Write`, as the code does, so the writer is modelled as always accepting.
- Streaming.Progress: does not model the panic of the progress printing. When `ContentLength` is unknown (-1), the percentage is negative and `strings.Repeat` gets a negative count. When it is 0, the percentage is not finite (NaN on an empty read, +Inf otherwise). Go's conversion of a non-finite float to `int` is platform-dependent, and `strings.Repeat` then panics on a negative or overflowing count, possibly even on an empty read.
- Errors from the tar reader (`tr.Next`), and corrupt or truncated gzip streams: the input of `Untar` is a list of entries that the reader already produced.
- A short body during `Tar` (a file that shrinks while it is archived) and `tar.ErrWriteTooLong`: the filesystem does not change during a walk.
- `Download`, and the HTTP request, `ContentLength`, the floating-point percentage and the progress printing of `Progress`. The response body is a parameter given as the reads it will deliver.
- Streaming.Progress: assumes the body reports its end after its scripted reads, so the loop terminates. It does not model wrap-around of the Go `int` counter `down`.
- Deferred `Close` calls and their errors.
- The process umask, ownership, timestamps, and the set-user-ID, set-group-ID and sticky bits: a mode is a number, applied as given.
- Symbolic links: `os.Stat` and `filepath.Walk` are modelled as not following links. A link is a node that is neither a directory nor a regular file.
- TreeCopy.Copy: requires that neither `src` nor `dst` lies inside the other. Copying a tree into itself would make the copy read its own output.
- TreeCopy.CopyDir: states the outcome against the listing `Readdir` returned. A directory whose listing fails partway is treated as refused to open.
- TreeCopy.CopyDir: when the copy fails, it says that the error is that of some node that cannot be copied, not which one. `Readdir` gives no order, so the first failing node met is not determined.
- TreeCopy.CopyFile: does not model `io.Copy` failing to write (a full disk, an I/O error) or `os.Chmod` being refused after the target was created. The code then returns with the target truncated or partly written.
- FileSystem.CreateMeaning: treats a symbolic link, device, socket or pipe at the name as an error. `os.Create` follows a link and opens a device, so there the code writes through the node instead.
- Archive.RestoreRegular: like `os.Create`, it fails on a link, device, socket or pipe at the name, where the code would write through it.
- Running out of space or of file descriptors: every write of the model succeeds once the file is open.
- Paths as strings: a path is a sequence of names. The `./` prefix `filepath.Walk` keeps on a relative root, the resolution of relative names against the working directory, and `..` components are not modelled.
- The persistence of the variables (`data.Get`, `data.Put`), `config.AppName`, `envListFn` and the command registration: the map is an argument and a result.
- EnvVars.Upper: ASCII uppercasing only. Go's `strings.ToUpper` also maps non-ASCII letters.
