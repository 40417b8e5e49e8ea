# fishman-web, modelled in Dafny

fishman-web downloads a module from a package registry (npm or PyPI) with,
optionally, its dependencies, its dev dependencies and its DefinitelyTyped
companion module. Everything goes into an in-memory file system, and the whole
tree is then sent to the browser as one tar stream. This project models:

- the provider walk of `lib/provider.js`:
  - `cloneModule`, `clonePackage` and `cloneDeps`;
  - reading a package document back (`readPackageFromPath`);
  - packing the tree (`getDownloadStreamFromBasePath`).
- the npm provider (`lib/providers/npm.js`):
  - choosing a version;
  - saving the manifest and the tarball;
  - recognising an installed tarball;
  - the `@types` companion module.
- the PyPI provider (`lib/providers/pypi.js`): saving the release document,
  downloading every distribution, and the `_downloaded` log.
- the entry point `cloneModule` of `lib/index.js`:
  - the provider switch;
  - the per-module directory names;
  - the failure count;
  - the choice between packing and failing.
- the browser terminal of `public/js/fishman-web.js`:
  - turning the argument pairs into a request;
  - the progress bar;
  - joining the received chunks.

Modules, one file each:

- `base.dfy` (`Base`): `Option` and `Result`, JavaScript truthiness, and the
  text of `undefined`.
- `text.dfy` (`Text`): the string operations the source uses.
  - `replace` with a string pattern replaces only the first occurrence.
  - `lastIndexOf`, and `substr` with a negative length.
- `storage.dfy` (`Storage`): the in-memory file system.
  - It is a tree whose directories keep their entries in one fixed order.
  - Operations: `exists`, `mkdir`, `readdir`, `readFile`, `writeFile`, `join`.
- `registry.dfy` (`Registry`): the registries' responses as finite maps.
  - A download is its content-length and the chunks the server sends.
  - `semver` and `JSON` are function-valued fields, left abstract.
- `session.dfy` (`Session`): what a request accumulates.
  - the storage;
  - the ordered `cbUpdate` stream;
  - the PyPI `_downloaded` log;
  - the errors that reach callbacks.
- `npm.dfy` (`Npm`), `pypi.dfy` (`Pypi`): the two providers.
- `provider.dfy` (`Provider`): the shared walk.
- `walkbound.dfy` (`WalkBound`): why the npm walk ends, and how much depth is
  always enough.
- `archive.dfy` (`Archive`): packing.
- `fishman.dfy` (`Fishman`): the entry point.
- `webclient.dfy` (`WebClient`): the browser terminal.

Asynchronous code is modelled as sequential, pure functions. Each callback
chain becomes a function that returns the state it leaves and the error it
passes on. In a few places the source throws inside a callback, or waits for
an event that never comes, and the request then never completes. The model
ends that step with an error instead; "## Left out" names each such member.

Where the code and its documentation disagree, the model follows the code:

- The PyPI provider's second default-version note carries its colour under
  `error`, so it is sent without a colour.
- The "module for typescript not found" note is never sent. It compares the
  status code with the string `'404'`. The registry client is not part of
  this model; the model assumes, as that client's responses suggest, that it
  reports the status as a number, so the comparison never holds.
- `getTypesModuleIfExist` hands on the version its own fetch settled on.
  Its callback's `ver` shadows the outer one.
- A tarball whose version carries a pre-release tag is never recognised as
  installed.

## Model

| member | source | states |
|---|---|---|
| Text.ReplaceFirst | lib/provider.js:180 | `replace` with a string pattern: the text before the first occurrence is kept, that occurrence is replaced, the rest is kept; no occurrence leaves the string unchanged |
| Text.ReplaceFirstChar | lib/index.js:53 | with no earlier occurrence of the character, replacing it changes only its first occurrence |
| Text.LastIndexOf | lib/providers/npm.js:100 | `lastIndexOf` of one character: an index holding it with none after it, or -1 |
| Text.SplitAtLast | lib/providers/npm.js:100-101 | a name, a dash and a dash-free tail split back into that name and tail |
| Text.Repeat | public/js/fishman-web.js:7-13 | the countdown loops build exactly `n` copies of one character |
| Storage.Mkdir | lib/index.js:57 | `mkdir`: EEXIST for the root or an existing path, ENOENT when the parent is no directory; otherwise an empty directory appears and no file changes |
| Storage.MkdirFresh | lib/index.js:57 | a directory just made holds nothing |
| Storage.WriteFile | lib/providers/npm.js:183-187 | `writeFile` succeeds exactly when the parent is a directory and the path is no directory; then only the file at that path changes, to the data |
| Storage.ReadDir | lib/providers/npm.js:91-94 | `readdir` fails exactly when the path is no directory; otherwise it lists exactly the entry names |
| Storage.ReadFile | lib/provider.js:108-109 | `readFile` fails exactly when no file is at the path, and otherwise returns its contents |
| Session.SavePackageFile | lib/providers/npm.js:178-188 | `mkdir` of the packages folder ignoring EEXIST, then `writeFile`: for a file directly in the folder it succeeds exactly when the folder is a directory already or can be made, and the file is no directory; on success the file holds the document; no other file changes; no directory appears but the folder; updates and log untouched |
| Session.WriteInto | lib/providers/npm.js:183-187 | a write succeeds exactly when the parent is a directory and the path is not; then the data is at the path and no other file changes; a failure changes nothing; the directories stay the same |
| Session.PackageFolder | lib/providers/npm.js:53-55 | the packages folder is one segment below the module directory |
| Session.PackagePath | lib/providers/npm.js:43-46 | the package document lies below the packages folder, and directly in it as `<name>-<ver>.json` when neither name nor version holds a slash |
| Storage.Join | lib/providers/npm.js:45 | `join` keeps the base path and appends only non-empty, slash-free segments; a plain name is appended as one segment |
| Storage.InsideFresh | lib/providers/npm.js:178-184 | nothing lies inside a directory just made, before or after |
| Storage.PutDirs | lib/providers/npm.js:178-184 | after placing a node, every directory was there before or belongs to the node placed |
| Storage.MkdirNoNewDirs | lib/providers/npm.js:178 | `mkdir` makes no directory but the one asked for |
| Storage.WriteFileNoNewDirs | lib/providers/npm.js:183-187 | `writeFile` keeps exactly the directories there were |
| Npm.PackageNotTarball | lib/providers/npm.js:183-195 | the package document and the tarball of one version never share a path |
| Npm.DefaultVersion | lib/providers/npm.js:144-157 | the `latest` dist-tag when truthy, else the last key of `versions`, else undefined |
| Npm.DefaultNotes | lib/providers/npm.js:139-158 | no note for an explicit version; otherwise "no version was specified", then the latest-tag note or the no-latest-tag note |
| Npm.LastSatisfying | lib/providers/npm.js:159-166 | the scan from the end finds a key satisfying the range with no satisfying key after it, or none; an undefined range satisfies nothing |
| Npm.ChosenIsLastSatisfying | lib/providers/npm.js:159-166 | the version after the scan is the last key satisfying the wanted range, or the wanted version unchanged when no key satisfies it |
| Npm.Wanted | lib/providers/npm.js:138-158 | a constrained version stays; otherwise the truthy `latest` tag, else the last key of `versions`, else undefined |
| Npm.Chosen | lib/providers/npm.js:159-166 | the version after the scan is the wanted one, or a key that satisfies it |
| Npm.Progress | lib/providers/npm.js:200-207 | one progress report per chunk with the running byte count, only when the content-length exceeds 2097152 |
| Npm.SaveVersion | lib/providers/npm.js:172-213 | with no slash in name or version, into a directory whose packages folder is a directory or absent, and with neither file path a directory, the save succeeds; on success the chosen manifest is in `packages/<name>-<ver>.json` and the payload at `<name>-<ver>.tgz`, with the using, downloading and progress notes in order; no other file changes |
| Npm.SaveFiles | lib/providers/npm.js:173-212 | note, save the document, note, write the payload: when the folder is ready, the document sits directly in it, and the payload's parent is a directory with neither file a directory, it succeeds; both files hold their data on success, nothing else changes, failures are storage errors |
| Npm.WritePayload | lib/providers/npm.js:195-212 | the write succeeds exactly when the parent is a directory and the path is not; the tarball file then holds the concatenated chunks and the progress follows; a failure leaves the state as it was; the directories stay the same |
| Npm.PlainTarballAside | lib/providers/npm.js:195 | without slashes the tarball sits directly in the module directory, beside the packages folder |
| Npm.TarballPath | lib/providers/npm.js:195 | the tarball lies below the module directory, directly in it when neither name nor version holds a slash |
| Npm.CloneSingle | lib/providers/npm.js:125-217 | unknown module is a 404 registry failure, no `versions` is unpublished, a chosen version that is no key is "no compatible version" and writes nothing; on success the manifest and tarball are saved and the updates are the default, using, downloading and progress notes; every path holds what it held or what this fetch wrote |
| Npm.FetchSucceeds | lib/providers/npm.js:168-213 | a published chosen version without slashes is fetched successfully into a directory whose packages folder is a directory or absent, when neither file path is a directory: an existing packages folder does not stop it |
| Npm.IsModuleExist | lib/providers/npm.js:90-95 | a path that is no directory is the error ENOENT or ENOTDIR |
| Npm.AnyInstalledMeans | lib/providers/npm.js:96-107 | the scan is true exactly when some listed entry satisfies the test |
| Npm.IsModuleExistFinds | lib/providers/npm.js:90-116 | present exactly when the directory lists an entry whose name part is the module and whose version is valid and satisfies the range |
| Npm.TarballVersion | lib/providers/npm.js:100-101 | the tarball of a release version reads back as that name and that version |
| Npm.TarballRecognised | lib/providers/npm.js:100-104 | a release tarball is recognised exactly when its version is valid and satisfies the range |
| Npm.TaggedTarballNotRecognised | lib/providers/npm.js:100 | a tarball whose version contains a dash is never recognised |
| Npm.ScopedNeverFound | lib/providers/npm.js:100 | a name with a slash never matches slash-free entries, so it is reported absent |
| Npm.TypesModuleIfExist | lib/providers/npm.js:57-81 | a types module is not looked up again; otherwise `@types%2f<name>` is fetched, a failure only adds a gray note, and the version handed on is the one that fetch settled on |
| Npm.TypesNotFoundNoteUnused | lib/providers/npm.js:66-76 | the note sent on a failed types fetch is always the generic error note |
| Pypi.IsModuleExist | lib/providers/pypi.js:25-29 | present exactly when the log holds that exact name and version |
| Pypi.RecordedPresence | lib/providers/pypi.js:94-97 | appending a record makes exactly that release present in addition |
| Pypi.DownloadAll | lib/providers/pypi.js:73-91 | the downloads only add to storage and to the updates, and keep the log; successful downloads report one progress update per chunk of every distribution, in order, whatever the size |
| Pypi.DownloadAllFrame | lib/providers/pypi.js:73-91 | a path no distribution is written to keeps its contents |
| Pypi.DownloadAllWrites | lib/providers/pypi.js:73-89 | a distribution's path holds its payload unless a later distribution used the same path |
| Pypi.DownloadAllFiles | lib/providers/pypi.js:73-91 | after successful downloads every distribution path holds a file |
| Pypi.SaveRelease | lib/providers/pypi.js:53-65 | with no slash in name or version, the save succeeds exactly when the packages folder is a directory or can be made and the document path is no directory; on success the release document is saved as `packages/<name>-<ver>.json`; no directory appears but the folder |
| Pypi.DistributionPath | lib/providers/pypi.js:74 | a distribution is written below the module directory, directly in it for a plain file name |
| Pypi.DownloadAllSucceeds | lib/providers/pypi.js:73-91 | distributions with plain file names, none of them a directory, are all written into a directory |
| Pypi.CloneSingle | lib/providers/pypi.js:31-101 | unknown module is a registry failure; a falsy `info.version` is unpublished; failures leave the log alone; success logs the settled release (`info.version` when none usable was asked for) |
| Pypi.FetchSucceeds | lib/providers/pypi.js:31-99 | a published release without slashes is fetched successfully into a directory whose packages folder is a directory or absent, when no target path is a directory and no distribution is named `packages` |
| Pypi.CloneSingleAsWritten | lib/providers/pypi.js:31-101 | the chain as written: the first call carries no version; an unpublished release still sends one late download note and is called back twice; a success is called back twice when that call throws |
| Pypi.UnpublishedChainGoesOn | lib/providers/pypi.js:35-37 | for an unpublished release the chain sends a download note for the version asked for and calls back twice; the corrected model stops at the failure |
| Pypi.SuccessWithoutVersion | lib/providers/pypi.js:93-99 | a successful fetch is called back with no version, while the corrected model hands on the settled one |
| Pypi.CloneSingleWrites | lib/providers/pypi.js:31-99 | a success sends the default notes, the downloading note and all progress in order, leaves a file at every distribution path and the release document in `packages` |
| Provider.CloneSingle | lib/provider.js:184 | the dispatched fetch only adds to storage and updates; npm never touches the PyPI log |
| Provider.TypesModuleIfExist | lib/provider.js:57-59 | the PyPI provider inherits the abstract method, which fails; npm's never fails |
| Provider.IsModuleExist | lib/provider.js:227 | npm consults the directory listing, PyPI its log with the constraint as an exact version |
| Provider.ReadPackageFromPath | lib/provider.js:103-119 | a missing file sends the critical error and fails; the read succeeds exactly when the file exists and parses, giving the parsed document; storage is untouched |
| Provider.MissingPackageMessage | lib/provider.js:113-116 | the critical error text and the failure's message are the same words |
| Provider.ReadPackage | lib/provider.js:93-96 | reads the document saved for that name and version in the `packages` folder, touching nothing |
| Provider.Escape | lib/provider.js:180 | a name without a slash is unchanged |
| Provider.EscapeFirstSlash | lib/provider.js:180 | only the first slash becomes `%2f`; the rest of the name is kept |
| Provider.FetchWithTypes | lib/provider.js:183-192 | a failed fetch is passed on; the types step runs only after a successful fetch and only when types are asked for |
| Provider.CloneModule | lib/provider.js:178-203 | the walk only adds to storage, updates and log, and keeps unique names |
| Provider.AfterFetch | lib/provider.js:193-199 | the steps after the fetch only add to storage, updates and log |
| Provider.CloneModuleFetchFails | lib/provider.js:181-192 | a failed fetch ends `cloneModule` with its error; a PyPI provider asked for types fails with the abstract-method error |
| Provider.CloneModuleReads | lib/provider.js:181-199 | with or without types, after the fetches succeed the done note follows their updates; the package document is read for the version they settled on; a failed read ends the walk with its error, a read document is walked |
| Provider.AfterFetchReads | lib/provider.js:192-199 | the same for whatever the fetches left |
| Provider.ClonePackage | lib/provider.js:147-169 | expanding a package only adds to storage, updates and log |
| Provider.ClonePackageSerial | lib/provider.js:150-168 | `clonePackage` is one serial pass over the included `dependencies`, then the included `devDependencies` |
| Provider.CloneDeps | lib/provider.js:210-240 | the dependency pass only adds to storage, updates and log |
| Provider.CloneDepsAppend | lib/provider.js:217-239 | walking two lists one after the other is walking their concatenation, stopping at the first failure |
| Provider.CloneDep | lib/provider.js:219-236 | a remote reference is skipped; a lookup error is passed on; a satisfying copy sends "already exists"; an absent one is cloned one level deeper; presence is checked on the escaped name (see Findings) |
| Provider.DepPresent | lib/provider.js:180 | the corrected presence check, on the escaped name under which the dependency was fetched; for an unscoped name it is the check as written |
| Provider.DepTarballFound | lib/providers/npm.js:100-104 | a release tarball of the escaped name in the directory qualifies exactly when its version is valid and satisfies the range, and then the corrected check finds the dependency |
| Provider.CloneDepAsWritten | lib/provider.js:227-236 | the dependency step as written, checking the name as given; for an unscoped name it is `CloneDep` |
| Provider.ScopedDepRecloned | lib/provider.js:227-231 | a scoped npm dependency is always cloned again one level deeper by the step as written, even when its qualifying tarball is present, where the corrected step reports it present |
| Provider.CloneDepsRemote | lib/provider.js:222-225 | a list of git or URL references changes nothing |
| Provider.PypiNotExpanded | lib/provider.js:153-165 | a PyPI document lists no dependencies, so nothing below it is cloned |
| WalkBound.MeasureDrops | lib/providers/npm.js:90-116 | a candidate tarball listed after it was missing lowers the count of unlisted candidates |
| WalkBound.TarballShape | lib/providers/npm.js:195 | an unscoped release tarball lies directly in the directory, never inside `packages` |
| WalkBound.ChosenForConstraint | lib/providers/npm.js:159-170 | for an explicit constraint the chosen version is a key satisfying it or the constraint itself |
| WalkBound.SettledRecognised | lib/providers/npm.js:100-104 | a published version chosen for a constraint is recognised by `isModuleExist` afterwards |
| WalkBound.FetchListsRelease | lib/providers/npm.js:159-195 | a successful fetch for an explicit constraint lists a satisfying candidate tarball |
| WalkBound.ReleaseListed | lib/providers/npm.js:159-195 | the written tarball of the settled version is a satisfying candidate listed in the directory |
| WalkBound.AbsentThenListed | lib/provider.js:227-231 | a satisfying tarball listed after the check found none is a new candidate |
| WalkBound.FetchAddsTarball | lib/provider.js:227-231 | fetching a dependency found absent lowers the count of unlisted candidates |
| WalkBound.FetchKeepsTame | lib/providers/npm.js:183-187 | a fetch of an unscoped module keeps every package document parseable into a tame document |
| WalkBound.AbsentFetchBound | lib/provider.js:181-192 | after fetching an absent dependency, one unit less depth still exceeds the measure |
| WalkBound.DepCases | lib/provider.js:219-236 | a dependency step either ends without running out of depth or recurses with depth exceeding the measure |
| WalkBound.WalkFrom | lib/provider.js:178-203 | a `cloneModule` whose depth exceeds the measure after its fetch never runs out of depth |
| WalkBound.WalkPackage | lib/provider.js:147-169 | the same for `clonePackage` |
| WalkBound.WalkDeps | lib/provider.js:210-240 | the same for `cloneDeps` |
| WalkBound.WalkDep | lib/provider.js:219-236 | the same for one dependency |
| WalkBound.WalkAbsent | lib/provider.js:230-231 | the same for an absent dependency cloned deeper |
| WalkBound.FreshDirTame | lib/index.js:57 | a fresh module directory holds no package documents |
| WalkBound.WalkBounded | lib/provider.js:178-240 | depth one more than the number of published versions never runs out for an unscoped npm module |
| Archive.GetDownloadStream | lib/provider.js:242-301 | a base path that is no directory sends nothing; otherwise the packed note and the final-download update follow and the announced size is the payload of the entries; storage untouched |
| Archive.DataSizeAppend | lib/provider.js:261 | the byte total of two entry lists is the sum of their totals |
| Archive.PackSize | lib/provider.js:246-282 | the bytes counted while walking are the bytes packed |
| Archive.PackListSize | lib/provider.js:252-280 | the same for the entries of one directory |
| Archive.PackListHas | lib/provider.js:252-258 | a child's entries are entries of its directory |
| Archive.PackListFrom | lib/provider.js:252-258 | every entry of a directory comes from one of its children |
| Archive.PackComplete | lib/provider.js:255-262 | every regular file below the tree has an entry named after its full path holding its contents |
| Archive.PackNode | lib/provider.js:246-282 | every entry packed from a tree is named by an absolute path |
| Archive.PackList | lib/provider.js:252-280 | the same for the entries packed from a directory's listing |
| Archive.PackSound | lib/provider.js:255-262 | with unique names, every entry is the file at the path it is named after |
| Archive.ArchiveHoldsFiles | lib/provider.js:284-293 | the archive of the base path holds exactly the regular files below it, by full path and contents, each once |
| Archive.PackNamed | lib/provider.js:246-262 | every entry packed from a tree is named after a path below it |
| Archive.ChildEntryName | lib/provider.js:252-262 | an entry packed from a child is named after the directory, a slash, the child's name, then nothing or a slash |
| Archive.SegmentsDiffer | lib/provider.js:255 | two different slash-free names, each followed by nothing or a slash, give different texts |
| Archive.ChildrenApart | lib/provider.js:252-262 | entries packed from two different children of a directory never share a name |
| Archive.PackDistinct | lib/provider.js:246-282 | no two entries packed from a tree with unique, slash-free names share a name |
| Archive.PackListDistinct | lib/provider.js:252-280 | the same for the entries packed from a directory's listing |
| Archive.RenderSegmentsAppend | lib/provider.js:255-258 | the text of a joined path is the text of its parts, one after the other |
| Fishman.ProviderFor | lib/index.js:31-41 | a provider exactly for "npm" and "pypi", with the request's options; the PyPI one never includes types |
| Fishman.PlainModulePath | lib/index.js:51-54 | a plain name names its directory `<name>` or `<name>-<ver>`, one segment below the root |
| Fishman.ModuleDirName | lib/index.js:51-54 | the directory name is as long as the module name, plus a dash and the version when the version is truthy; a slash-free name is kept as it is, and the version follows it |
| Fishman.ScopedNameCollides | lib/index.js:53 | `a/b` and `a-b` get the same directory |
| Fishman.CloneOne | lib/index.js:55-58 | a module whose directory exists fails with EEXIST before anything is fetched |
| Fishman.CloneOneFresh | lib/index.js:55-58 | a module whose directory can be made is cloned into a fresh empty directory, with every file unchanged |
| Fishman.Finish | lib/index.js:60-67 | a failed module adds the red "failed to cloned" note carrying the error text |
| Fishman.CloneAll | lib/index.js:47-76 | one result per requested module; storage, updates and log only grow |
| Fishman.CloneAllHead | lib/index.js:55-67 | a module's recorded error is its own clone's, and its red note follows that clone's updates |
| Fishman.FailCountAll | lib/index.js:66-69 | the failure count never exceeds the module count and reaches it exactly when every module failed |
| Fishman.CloneModules | lib/index.js:43-45 | an unknown package manager sends the critical error and nothing else |
| Fishman.PackUnlessAllFailed | lib/index.js:69-86 | with a provider, the request fails exactly when the list is non-empty and every module failed; otherwise the root is packed and sent |
| Fishman.NothingRequested | lib/index.js:69-86 | an empty module list packs the root as it is |
| Fishman.OneBounded | lib/index.js:55-58 | one unscoped npm module never runs out of depth at the bound |
| Fishman.CloneAllBounded | lib/index.js:47-76 | no unscoped npm module of a list runs out of depth at the bound |
| Fishman.RequestBounded | lib/index.js:24-92 | the same for a whole npm request |
| WebClient.Set | public/js/fishman-web.js:88-97 | a pair assigns its own field and no other |
| WebClient.Truthful | public/js/fishman-web.js:108-118 | an optional field is sent exactly when its value is truthy |
| WebClient.LastPairWins | public/js/fishman-web.js:87-101 | every field holds the value of the last pair that sets it |
| WebClient.UnknownFlagsReported | public/js/fishman-web.js:98-100 | every error names an unknown flag of a pair, and every unknown flag is reported |
| WebClient.ParseRequest | public/js/fishman-web.js:83-125 | a request is sent exactly when the count is even and the last package manager and module values are truthy; it holds the last value of each field; otherwise the last error is the odd-count or the required-fields message |
| WebClient.ParseArgs | public/js/fishman-web.js:85-125 | an odd count shows only the even-count error and sends nothing; a request sent has an even count and a non-empty package manager and module; a command that sends nothing shows an error |
| WebClient.HandleCommand | public/js/fishman-web.js:83-128 | an empty command shows no error and sends nothing; any other command is `ParseArgs` of its arguments; a command that sends nothing shows an error exactly when it is not empty |
| WebClient.ParseArgsLoop | public/js/fishman-web.js:85-125 | the loop over the pairs, two words at a time, computes the pair scan's errors and request |
| WebClient.LoopCountsDown | public/js/fishman-web.js:7-13 | the loop `for (i = n; i--;)`, stepped one test at a time, ends after `n` rounds with `n` copies appended when `n` is not negative, never ends from a negative start, and so ends exactly when `CountDown` says |
| WebClient.PrintProgress | public/js/fishman-web.js:2-21 | above 100 the prompt stays; otherwise the call returns exactly when 0 <= size <= width; at 100 the idle prompt; below, `[` then `size` hashes, dashes to the width, `] <percent>%` |
| WebClient.BarCells | public/js/fishman-web.js:7-15 | a cell of the bar is taken exactly when it is among the first `size` |
| WebClient.JoinChunks | public/js/fishman-web.js:52-63 | the filled array is the concatenation of the chunks, as long as their total length |

## Findings

| source | as written | input that shows it | evidently intended | confidence | as-written member | corrected member |
|---|---|---|---|---|---|---|
| lib/providers/pypi.js:35-37 | `return callback(err)` leaves only the first `.then`; the second announces a download of the version asked for, throws on `pack.urls` of `undefined`, and `.catch` calls the callback again | a PyPI document whose `info.version` is empty | fail once with the unpublished error and send nothing more | not executed | Pypi.CloneSingleAsWritten, Pypi.UnpublishedChainGoesOn | Pypi.CloneSingle |
| lib/providers/pypi.js:98 | `callback()` hands no version to the next step of the walk, which then throws | any published release whose distributions download | `callback(null, ver)` with the settled version | not executed | Pypi.CloneSingleAsWritten, Pypi.SuccessWithoutVersion | Pypi.CloneSingle |
| lib/provider.js:227 | `isModuleExist(dep, …)` checks the scoped name `@s/b` as given, while the fetch stores `@s%2fb-<ver>.tgz` (lib/providers/npm.js:195) and the PyPI log records the escaped name (lib/provider.js:180), so a scoped dependency is never found and is cloned again on every visit | `@s/a`@1.0.0 depends on `@s/b` "1.0.0" and `@s/b`@1.0.0 on `@s/a` "1.0.0", with dependencies included: the walk never ends | check the escaped name, `isModuleExist(dep.replace('/', '%2f'), …)` | not executed | Provider.CloneDepAsWritten, Provider.ScopedDepRecloned | Provider.CloneDep, Provider.DepPresent, Provider.DepTarballFound |

## Left out

- Network access. The npm and PyPI registries and the tarball servers are
  finite maps from name to response. A name that is missing answers 404.
  Timeouts, redirects and partial responses are not modelled.
- Concurrency. `async.each` and `Promise.all` are modelled as running one
  after the other, in list order.
  - `getDownloadStreamFromBasePath` packs siblings concurrently. The depth-first
    listing order of the model is one of the orders it may produce.
  - `lib/index.js` runs the modules concurrently. The model clones them in
    request order.
- Floating point. The progress percentage of `toFixed(2)` and the bar size
  of `Math.round` are not computed.
  - A progress update carries the bytes received and the content-length.
  - `printProgress` takes the percentage, its printed text and the rounded
    size as inputs.
- `JSON.stringify` and `JSON.parse`, and `semver.valid` and
  `semver.satisfies`, are abstract functions. Where a property needs the
  parse to give back what was stringified, it says so as an assumption.
- The tar encoding. An archive is its list of `(name, contents)` entries and
  the announced size. Headers, padding and the stream pipe are left out.
- The file system's own behaviour:
  - path normalisation of `.`, `..` and backslashes;
  - the exact error objects. Errors are their codes (ENOENT, EEXIST,
    ENOTDIR, EISDIR);
  - write streams: a download is written as one `writeFile` of its
    concatenated chunks.
- The registry client's error text. A registry failure keeps only the name
  and the status.
- `parse_command`, which converts numeric words to numbers. The arguments are
  modelled as the strings given. The DOM, the Blob download, the socket and
  the `criticalError`/`regularUpdate` handlers of the browser are not
  modelled.
- `clonePackageFile` (lib/provider.js:127-139) is not modelled. Nothing in
  the modelled core calls it, and it passes `clonePackage` unbound.
- The error callback `lib/index.js` hands to `getDownloadStreamFromBasePath`,
  and that method's own completion callback, are never called in the source.
  The model has no such paths.
- The wiring between the files is modelled as intended, not as written.
  - The provider constructors pass their arguments to `Provider` without the
    `fileSystem` argument (lib/providers/npm.js:33, lib/providers/pypi.js:9).
  - `bin/server.js` calls `cloneModule` with an extra file-system argument.
  - The model injects the storage and the options directly.
- `lib/providers/bower.js`, `bin/fishman.js`, `bin/schiffmann.js` and
  `bin/server.js` are not part of this model.
- Provider.CloneModule: the walk has no depth bound in the source.
  - The model carries a depth `fuel`. A dependency needing more depth fails
    with `OutOfFuel`, an error the source cannot produce.
  - `WalkBound.WalkBounded` and `Fishman.RequestBounded` show that a bound
    of one more than the number of published versions is never reached.
    They hold for npm requests of unscoped names, when the registry data
    meets the assumptions listed in `walkbound.dfy`.
  - In the source a dependency cycle through a scoped name never ends: the
    presence check looks for the name as given, the tarball carries the
    escaped name, so every visit clones the dependency again one level
    deeper (`Provider.ScopedDepRecloned`, and the Findings table). The model
    checks the escaped name instead (`Provider.DepPresent`).
  - A cycle through a pre-release version never ends either, in the source
    and in the corrected check alike: the last `-` of the tarball name falls
    inside the version, so the tarball is never recognised
    (`Npm.TaggedTarballNotRecognised`). Nor does a cycle through a `latest`
    constraint, which `semver.satisfies` accepts for no installed version. In the model these walks end with `OutOfFuel`.
  - Outside the assumptions of `walkbound.dfy`, for instance for scoped
    dependency names, the bound is not shown to suffice. A PyPI walk does not recurse when reading
    back a saved document gives that document again (`RoundTrip` in
    `walkbound.dfy`), since a PyPI document lists no dependencies
    (`Provider.PypiNotExpanded`). Without that assumption on `JSON.parse`
    the read-back document is not known to be a PyPI one.
  - Its own contract states only that storage, updates and log grow. Its
    steps are stated by `CloneModuleFetchFails` and `CloneModuleReads`.
- Provider.AfterFetch: its own contract states only growth. Its steps are
  stated by `AfterFetchReads`.
- Provider.ClonePackage: its own contract states only growth. Its steps are
  stated by `ClonePackageSerial`.
- Provider.CloneDeps: its own contract states only growth. Its steps are
  stated by `CloneDepsAppend` and `CloneDep`.
- Provider.TypesModuleIfExist: for a PyPI provider the source's inherited
  `getTypesModuleIfExist` throws `Abstract method!` (lib/provider.js:57-59),
  inside PyPI's promise chain, whose `.catch(callback)` then calls back a
  second time. The model returns the `AbstractMethod` error instead. The path
  is unreachable in the intended wiring: a PyPI provider is always built
  without types (lib/providers/pypi.js:9, `Fishman.ProviderFor`).
- Provider.CloneModuleFetchFails: its PyPI-with-types conjunct states the
  `AbstractMethod` error where the source throws and calls back twice, as
  for `Provider.TypesModuleIfExist`; the path is unreachable in the intended
  wiring.
- Npm.SaveFiles: it states a sufficient condition for success, not every
  case in which the save succeeds; any failure is a storage error.
- Npm.SaveVersion: the same, for names and versions without slashes.
- Npm.FetchSucceeds: names and versions holding a slash are not covered;
  their documents lie below `packages` in a folder nobody makes.
- Pypi.FetchSucceeds: the same, and distributions named `packages` or
  holding a slash are not covered.
- Pypi.CloneSingle: on success the source calls back with no arguments
  (lib/providers/pypi.js:98). The next step of the walk (lib/provider.js:186)
  then receives its own continuation as `ver` and no callback.
  - A PyPI provider never fetches types, so that step calls
    `callback(null, ver)` on `undefined` (lib/provider.js:190) and throws.
  - `.catch(callback)` (lib/providers/pypi.js:100) then calls the first
    continuation a second time. `readPackage` is never reached, and the
    module never completes, so `lib/index.js` neither packs nor reports.
  - The model hands on the settled version, as the npm provider does. The
    code as written is `Pypi.CloneSingleAsWritten`; see "## Findings".
- Provider.ReadPackageFromPath: when `readFile` fails, the source rethrows
  the error inside the file system's callback, and `JSON.parse` throws there
  on a document it cannot parse (lib/provider.js:109-110). Neither exception
  reaches the callback, so the request never completes. The model ends the
  read with the error.
- Npm.WritePayload: the tarball's write stream has no error listener, and
  only its `finish` event calls back (lib/providers/npm.js:195-211). A write
  that fails never reaches the callback, and the request never completes.
  The model ends the fetch with the storage error.
- Pypi.DownloadAll: it states growth and the progress reports only. The
  written files are stated by `DownloadAllWrites` and `DownloadAllFiles`.
  - A failed write stream has no error listener either
    (lib/providers/pypi.js:74-86), so its promise never settles,
    `Promise.all` never settles, and the module never completes. The model
    stops at the first failure with the storage error.
  - When a response fails, `Promise.all` rejects while the other downloads
    go on writing. The model writes no further distribution.
- Archive.ArchiveHoldsFiles: that each file is packed once assumes no entry
  name holds a slash (`Storage.PlainNames`). Every name written through
  `join` is slash-free, but the model does not prove that the walk keeps
  this.
- Fishman.CloneAll: it does not state how the modules' updates interleave,
  beyond `Fishman.CloneAllHead`.
- Fishman.CloneModules: it states the unsupported case and growth. The
  choice between packing and failing is stated by `Fishman.PackUnlessAllFailed`,
  which needs the root to be a directory.
