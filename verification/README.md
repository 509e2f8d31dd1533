# Helm repository management in the Headlamp backend, modelled in Dafny

This project models `backend/pkg/helm/repository.go`. That file is how the Headlamp backend adds,
lists, removes and updates Helm chart repositories in Helm's repository config file
(`repositories.yaml`). It also holds the four HTTP handlers that expose these operations.

The model has seven modules:

- `Outcomes` holds Go's `error` as `Outcome` (nil or an error). It also holds a
  `Result` for a value-or-error, and `FirstFailure`, the "return the first non-nil error" pattern.
- `FilePath` models Go's `filepath.Ext`. It defines what an extension is (`IsExtension`) and
  proves that `Ext` computes the only string that fits the definition.
- `Strings` models `strings.Index` and `strings.Replace(s, old, new, 1)`.
- `LockPath` models how `lockRepositoryFile` derives the lock file's path from the config path,
  with worked examples.
- `Repositories` holds the data: Helm's repository entry and file, and the request and listing
  records.
- `Operations` models `createFileIfNotThere`, `AddRepository`, `RemoveRepository`,
  `UpdateRepository` and `listRepositories`. Each operation is a pure function of the outcomes of
  its external calls. It yields the error it returns together with the trace of external steps
  it took: stat, directory and file creation, lock, load, chart-repository construction, index
  download, write attempt, unlock. A write step records that `WriteFile` was called; whether
  it succeeded is the operation's result. Go's deferred `Unlock` becomes the last step of the trace.
- `Handlers` models the handlers `AddRepo`, `ListRepo`, `RemoveRepo` and `UpdateRepository`
  (named `UpdateRepo` here), each returning its status, body and trace.

Several behaviours of the code are stated as proved properties:

- The lock path replaces the first occurrence of the extension's text, which need not be the
  suffix.
- Remove and update carry on when the lock cannot be taken.
- Removing a name the file does not hold returns nil, so the handler answers 200.
- A stat failure other than "does not exist" counts as success.
- An encoding failure after the 200 status line leaves the status at 200.

The read-modify-write operations are not atomic under every outcome: only `AddRepository` stops
when the lock attempt fails, while `RemoveRepository` and `UpdateRepository` go on to load and
write the file without the lock.

## Model

| member | source | states |
|---|---|---|
| FilePath.Ext | backend/pkg/helm/repository.go:50 | the result is the path's extension: a suffix of the path that is empty, or starts with the last dot of the final path element and holds no other dot or separator; it is empty when that element has no dot |
| FilePath.ExtUnique | backend/pkg/helm/repository.go:50 | any string that fits the definition of an extension of a path is `Ext` of that path, so the definition pins down `filepath.Ext` exactly |
| FilePath.ExtOfDottedSuffix | backend/pkg/helm/repository.go:50 | a path ending in a dot followed by no dot or separator has that dotted tail as its extension, whatever precedes it |
| Strings.Index | backend/pkg/helm/repository.go:53 | when a position is returned, the pattern occurs there and at no earlier position; when none is returned, the pattern occurs nowhere |
| Strings.ReplaceFirst | backend/pkg/helm/repository.go:53 | with one replacement the text is unchanged when the pattern does not occur; otherwise the pattern's first occurrence is cut out and the replacement is spliced in its place |
| LockPath.LockPath | backend/pkg/helm/repository.go:50-56 | when the extension is non-empty and shorter than the config path, the lock path replaces the first occurrence of the extension's text with `.lock`, and that occurrence lies no later than the suffix; otherwise `.lock` is appended to the config path |
| LockPath.ReplacesFirstOccurrence | backend/pkg/helm/repository.go:50-53 | when the extension is non-empty and shorter than the config path, the lock path is the config path with the first occurrence of the extension's text replaced by `.lock`; that occurrence lies no later than the suffix |
| LockPath.StripsSoleExtension | backend/pkg/helm/repository.go:50-53 | when the extension's text occurs only as the suffix, the lock path is the config path without its extension, followed by `.lock` |
| LockPath.AppendsWithoutProperExtension | backend/pkg/helm/repository.go:52-56 | when the extension is empty or is the whole path, `.lock` is appended to the config path |
| LockPath.LockIsConfigIff | backend/pkg/helm/repository.go:50-56 | the lock path equals the config path exactly when the config's extension is `.lock` and the path is longer than that extension |
| LockPath.MentionsLockExt | backend/pkg/helm/repository.go:50-56 | every lock path contains `.lock` |
| LockPath.LockPathOfParts | backend/pkg/helm/repository.go:50-56 | when a config path is split around the leftmost occurrence of its extension's text, the lock path keeps both sides with `.lock` between them |
| LockPath.DefaultConfigExample | backend/pkg/helm/repository.go:50-56 | `/home/u/.config/helm/repositories.yaml` is locked through `/home/u/.config/helm/repositories.lock` |
| LockPath.BareExtensionExample | backend/pkg/helm/repository.go:52-56 | a config path that is only an extension, `.yaml`, gets `.lock` appended |
| LockPath.DottedDirectoryExample | backend/pkg/helm/repository.go:50-56 | a dot in a directory name is not an extension: `conf.d/repositories` is locked through `conf.d/repositories.lock` |
| LockPath.FirstOccurrenceInDirectoryExample | backend/pkg/helm/repository.go:50-56 | the first occurrence of `.yaml` is replaced even inside a directory name: `cfg.yaml/repos.yaml` is locked through `cfg.lock/repos.yaml` |
| Operations.CreateFileIfNotThere | backend/pkg/helm/repository.go:35-44 | stats the path first. When the stat reports that the file does not exist, it creates the parent directories and then, if that succeeded, the file, in that order; any other stat result gives nil with the stat as the only step. Otherwise the first of the directory and file errors is returned |
| Operations.CreateReportsFirstFailure | backend/pkg/helm/repository.go:35-44 | creating returns the first error of directory creation and file creation when the file does not exist, and nil for any other stat result |
| Operations.Guarded | backend/pkg/helm/repository.go:69-86 | the skeleton the three read-modify-write operations share: a create error is returned as is, with only the create's steps; after a successful create the operation returns what the part under the lock returns |
| Operations.GuardedReleasesOnce | backend/pkg/helm/repository.go:78-86 | around a body that takes no lock itself, the lock is attempted only after a successful create. It is released exactly once, as the last step, when it was taken without error, and never otherwise |
| Operations.GuardedOrder | backend/pkg/helm/repository.go:69-86 | after a successful create, the steps are laid out in order: the create's steps, the lock attempt, the steps of the part under the lock, then the release when the lock was taken without error |
| Operations.GuardedBodyUnderLock | backend/pkg/helm/repository.go:78-86 | after a successful create, every load and write comes after the lock attempt, which follows the create's steps, and before the final release when the lock was taken without error |
| Operations.AddUnderLock | backend/pkg/helm/repository.go:88-128 | after the lock attempt, a lock error ends the operation before the load. The write is attempted exactly when load, chart-repository construction and index download succeed, and what it writes is the loaded file updated with the new entry |
| Operations.AddRepository | backend/pkg/helm/repository.go:68-129 | a nil result means the write was attempted and succeeded |
| Operations.AddReleasesLockOnce | backend/pkg/helm/repository.go:78-86 | adding releases the lock once, last, exactly when it was taken without error after a successful create |
| Operations.AddStopsOnLockError | backend/pkg/helm/repository.go:88-91 | a lock error is returned as is, and the file is then neither loaded nor is a write attempted; the file is loaded exactly when create and lock succeed |
| Operations.AddWritesOnlyAfterAllSucceed | backend/pkg/helm/repository.go:93-126 | the write is attempted exactly when create, lock, load, chart-repository construction and index download all succeed; it writes the loaded file updated with an entry of the given name and URL |
| Operations.AddReportsFirstFailure | backend/pkg/helm/repository.go:68-129 | adding returns the first error in the order create, lock, load, chart repository, index download, write, and nil when there is none |
| Operations.AddUnderLockOrder | backend/pkg/helm/repository.go:93-126 | under the lock, the steps are a prefix of load, chart-repository construction, index download and (after a successful load) the write of the updated file, in that order |
| Operations.AddStepOrder | backend/pkg/helm/repository.go:68-129 | when the write is attempted, the trace is exactly: create's steps, lock attempt, load, chart-repository construction, index download, write of the updated file, and the release when the lock was held |
| Operations.RemoveUnderLock | backend/pkg/helm/repository.go:256-275 | after the lock attempt, the file is always loaded. The write is attempted exactly when the load succeeds and Helm's `Remove` finds the name, and it writes the file with the entry removed |
| Operations.RemoveRepository | backend/pkg/helm/repository.go:236-276 | when removing fails after attempting the write, the error returned is the write's |
| Operations.RemoveReleasesLockOnce | backend/pkg/helm/repository.go:246-254 | removing releases the lock once, last, exactly when it was taken without error after a successful create |
| Operations.RemoveIgnoresLockError | backend/pkg/helm/repository.go:246-260 | the lock's outcome is never checked: after a successful create the file is loaded, and the write is attempted when the name is found, whether or not the lock was taken |
| Operations.RemoveUnknownNameSucceeds | backend/pkg/helm/repository.go:262-266 | removing a name the loaded file does not hold returns nil and attempts no write |
| Operations.RemoveReportsFirstFailure | backend/pkg/helm/repository.go:236-276 | removing returns the first error in the order create, load, then write (the write counts only when the name is found), and nil when there is none |
| Operations.RemoveStepOrder | backend/pkg/helm/repository.go:236-276 | after a successful create, the trace is exactly: create's steps, lock attempt, load, the write when the name was found, and the release when the lock was held |
| Operations.UpdateUnderLock | backend/pkg/helm/repository.go:311-329 | after the lock attempt, the file is loaded, and the write is attempted exactly when the load succeeds; it writes the loaded file updated with the given entry |
| Operations.UpdateRepository | backend/pkg/helm/repository.go:291-330 | a nil result means the write was attempted and succeeded; updating never builds a chart repository or downloads an index |
| Operations.UpdateReleasesLockOnce | backend/pkg/helm/repository.go:301-309 | updating releases the lock once, last, exactly when it was taken without error after a successful create |
| Operations.UpdateIgnoresLockError | backend/pkg/helm/repository.go:301-315 | the lock's outcome is never checked: after a successful create the file is loaded, and the write is attempted when the load succeeds, whether or not the lock was taken |
| Operations.UpdateReportsFirstFailure | backend/pkg/helm/repository.go:291-330 | updating returns the first error in the order create, load, write, and nil when there is none |
| Operations.UpdateStepOrder | backend/pkg/helm/repository.go:291-330 | after a successful create, the trace is exactly: create's steps, lock attempt, load, the write when the load succeeded, and the release when the lock was held |
| Operations.ListRepositories | backend/pkg/helm/repository.go:184-211 | fails with the create error, or else with the load error. Otherwise it returns, in order, one name and URL pair per loaded entry. It takes no lock and writes nothing |
| Handlers.StatusFor | backend/pkg/helm/repository.go:135-147 | the status is one of 200, 400 and 500: 400 exactly when decoding failed, 500 exactly when decoding succeeded and the operation failed, 200 exactly when both succeeded |
| Handlers.AddRepo | backend/pkg/helm/repository.go:131-164 | an undecodable body gives 400 with the decoder's error and runs nothing. Otherwise the add runs, and its error gives 500 with that error. Success gives 200 with the success message, or with the encoder's error text when encoding fails after the status line |
| Handlers.AddRepoOkWroteEntry | backend/pkg/helm/repository.go:143-163 | a 200 from adding means the request decoded, the write succeeded, and the loaded file, updated with the requested name and URL, was written |
| Handlers.AddRepoLockErrorIsServerError | backend/pkg/helm/repository.go:143-147 | when the file exists or was created but the lock attempt errs, adding answers 500 with the lock error and writes nothing |
| Handlers.ListRepo | backend/pkg/helm/repository.go:213-234 | 500 exactly when the create or the load fails, with that error's text; otherwise 200 with one name and URL per loaded entry, in order, or with the encoder's error text; never writes |
| Handlers.RemoveRepo | backend/pkg/helm/repository.go:279-289 | runs the remove with the `name` query parameter; 500 with the error's text when it fails, 200 with no body otherwise; never 400 |
| Handlers.RemoveRepoUnknownNameIsOk | backend/pkg/helm/repository.go:279-289 | removing a name the file does not hold, including the "" of a request without `name`, answers 200 and writes nothing |
| Handlers.RemoveRepoIgnoresLock | backend/pkg/helm/repository.go:279-289 | the response of the remove handler is the same whatever the lock attempt returns |
| Handlers.UpdateRepo | backend/pkg/helm/repository.go:333-352 | an undecodable body gives 400 with the decoder's error and runs nothing; otherwise the update runs, and its error gives 500 with that error, and success gives 200 with no body |
| Handlers.UpdateRepoOkWroteEntry | backend/pkg/helm/repository.go:345-351 | a 200 from the update handler means the request decoded, the write succeeded, and the loaded file, updated with the requested name and URL, was written |
| Handlers.UpdateRepoIgnoresLock | backend/pkg/helm/repository.go:333-352 | the response of the update handler is the same whatever the lock attempt returns |

## Left out

- The lock's timing is left out: the one-second retry interval, the 30-second context timeout
  and `flock` itself. The lock attempt is an input `(locked, err)`, and the lock and unlock steps
  name the config whose lock path (`LockPath.LockPath`) is locked.
- Helm's own code is left out: `repo.LoadFile`, `File.Update`, `File.Remove`, `File.WriteFile`,
  `repo.NewChartRepository`, `DownloadIndexFile` and `getter.All`. Their results are inputs;
  `Update` and `Remove` are function-valued inputs.
- A failed `Unlock` is only logged by the code, so the model keeps no outcome for it.
- JSON decoding and encoding are left out: the decoded request and the encoder's outcome are
  inputs. So are logging, file and directory modes, and the `Content-Type` header.
- Operations.CreateFileIfNotThere: the parent-directory step names the config path rather than
  `filepath.Dir` of it. The file handle `os.Create` returns, which the code never closes, is not
  modelled.
- Strings are sequences of characters, while Go's strings are bytes. For paths that are valid
  UTF-8 the results agree, since `filepath.Ext` and `strings.Replace` only compare text and `.`
  and `/` are single ASCII bytes. Go strings, and Linux paths, may hold any bytes; paths that
  are not valid UTF-8 are not modelled.
- Handlers.ListRepo and Handlers.AddRepo: when encoding fails after the 200 status line, the
  body is modelled as the error text alone. Bytes the encoder may already have sent are not
  modelled.
- Requests reach the handlers one at a time. Concurrent requests, and other processes sharing
  the lock, are not modelled.
- `filepath.Ext` is modelled with `/` as the only separator, as on Unix. On Windows, Go also
  stops at `\`, so `C:\cfg.d\repos` is locked through `C:\cfg.d\repos.lock` there, while the
  model gives `C:\cfg.lock`.
- The handlers receive the URL query already parsed into a map from names to values
  (`r.URL.Query()`); parsing the raw query string is not modelled.
- Operations.ListRepositories: the loaded entries are assumed non-nil. Helm's
  `File.Repositories` holds pointers, and a config with a `null` entry loads as a nil pointer.
  The listing loop dereferences it and panics, so `ListRepo` never answers. This panic is not
  modelled, and neither is the same dereference in Helm's `Update` and `Remove`.
