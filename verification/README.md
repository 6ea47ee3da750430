# CssBuilder: configuration resolution and file dispatch, in Dafny

CssBuilder is a command-line build tool for LESS, SASS and SCSS stylesheets. It is given source
paths. Each one is a stylesheet or a directory. It decides:

- which files to compile;
- which compiler compiles each file (by its extension);
- where each compiled CSS text goes:
  - next to the source;
  - appended to one aggregate file;
  - or into an output directory.

A directory may hold a `cssbuilder.config.json` file with a list of records. These records replace
the configuration the directory inherits. Each record either scans the directory for the three
extensions, with optional recursion, or selects files by glob patterns. An `output` ending in `.css`
is resolved against the directory. It is deleted once, when the record is loaded, and every
compiled file is then appended to it.

The model is split into these modules:

- `Options`: argument parsing.
- `Configs`: the configuration record (`Config`, a class whose fields normalisation updates in
  place) and `NormalizeConfig`. Only `NormalizeConfig` and `Process` update a record object. Every
  other operation only reads a record, so it is given the record's value (`ConfigValue`).
- `Excludes`: the pure half of the git exclusion lookup.
- `Dispatch`: `ProcessFile` and the loop over a file selection.
- `Walk`: `ProcessDirectory`, `Process` and `Main` (as `Run`).
- `Paths`: the .NET `Path` functions the program relies on, with the semantics of a Unix host,
  where the separator is `/`.
- `Ordering`: ordinal string order and sorted enumeration.
- `Fs`: the disk. `FsState` is a value with a map of files and a set of directories. `FileSystem`
  is the mutable disk the methods change.

Every method that changes the disk is proved equal to a specification function on `FsState`. The
result is an `Outcome`: the disk after the call, and the error that stopped it, if any. Earlier
effects stay in place when an error stops a run, as they do in the program. The lemmas state the
program's promises about those functions.

The model follows the code:

- The exclusion set is computed once per source directory, at `src/Program.cs:154`. The same set
  goes to every level of the recursion, at `src/Program.cs:246`. It is not recomputed for each
  subdirectory.
- Besides a configuration parse error, any compile error, unreadable source or missing source
  path also ends the run with an error.

## Model

| member | source | states |
|---|---|---|
| Options.ParseOptions | src/Program.cs:69-91 | The arguments are accepted exactly when each is non-empty and every dash argument is `-r` or `--recursive`. Otherwise the first rejected argument gives the error. On success, `recursive` holds exactly when a recursive flag is present, the sources are the full paths of the non-dash arguments in argument order, and no exclusion list is set. |
| Options.SourceArgsConcat | src/Program.cs:86-89 | The sources of concatenated argument lists are the concatenation of their sources: argument order is kept. |
| Options.SourcesComeFromArguments | src/Program.cs:72-89 | Every source is the full path of some non-dash argument. |
| Options.ArgumentsBecomeSources | src/Program.cs:72-89 | The full path of every non-dash argument is a source. |
| Configs.LeadingStrings | src/Program.cs:324-332 | The array loop collects the longest prefix of string elements, element by element, and stops at the first non-string. |
| Configs.NormalizeSrc | src/Program.cs:313-337 | An absent `src` leaves `_srcs` as it was. A string gives a one-element list. An array of strings gives the same strings in the same order. Any other array, or a value of another kind, is the format error. |
| Configs.NormalizeSpec | src/Program.cs:309-350 | The working directory is always set. An `output` ending in `.css` becomes `Combine(workdir, output)`. That file is removed and every other file is unchanged. The directories added are exactly the output's directory and its ancestors. Any other `output`, and the disk, are left alone. A format error leaves `output` and the disk untouched. |
| Configs.NormalizeConfig | src/Program.cs:309-350 | The record and the disk after the in-place update are those `NormalizeSpec` gives, and the result reports the format error. |
| Configs.Config.constructor | src/Program.cs:25-42 | A new record holds the given values of its four properties. |
| Excludes.LinesAreLines | src/Program.cs:293 | Every entry of the split is non-empty and holds no newline. |
| Excludes.LinesJoin | src/Program.cs:293 | Splitting at a newline and dropping empty entries splits the list of lines at that point. |
| Excludes.LineIsListed | src/Program.cs:293 | Every non-empty whole line of git's output is one of the split entries. |
| Excludes.GitExcludes | src/Program.cs:283-298 | A failed git call gives no exclusions. Otherwise the exclusions are exactly the non-empty lines joined to the directory. |
| Excludes.IgnoredDirectoryIsExcluded | src/Program.cs:293-298 | A directory git lists as `name/` yields exactly the `directory + separator` entry that the walk tests. |
| Ordering.SortedSeq | src/Program.cs:254 | The enumeration holds each element of the set once, in increasing ordinal order. |
| Fs.Write | src/Program.cs:179 | Writing creates or replaces one file and leaves every other file and all directories alone. |
| Fs.Append | src/Program.cs:183 | Appending extends one file, where a missing file counts as empty, and leaves the rest alone. |
| Fs.Remove | src/Program.cs:346 | Deleting removes one file, where a missing file is not an error, and leaves the rest alone. |
| Fs.MakeDirectory | src/Program.cs:188 | Creating a directory keeps every file and directory. It adds exactly the directory and its ancestors, each a prefix of it ending before a separator. |
| Fs.FilesInLists | src/Program.cs:233 | The listing holds exactly the files directly in the directory with the extension, in increasing order. |
| Fs.DirectoriesInLists | src/Program.cs:244 | The listing holds exactly the directories directly in the directory, in increasing order. |
| Fs.FileSystem.WriteAllText | src/Program.cs:179 | The disk changes as `Write` says. |
| Fs.FileSystem.AppendAllText | src/Program.cs:183 | The disk changes as `Append` says. |
| Fs.FileSystem.Delete | src/Program.cs:346 | The disk changes as `Remove` says. |
| Fs.FileSystem.CreateDirectory | src/Program.cs:188 | The disk changes as `MakeDirectory` says. |
| Fs.FileSystem.GetFiles | src/Program.cs:233 | The listing is `FilesIn` of the current disk. |
| Fs.FileSystem.GetDirectories | src/Program.cs:244 | The listing is `DirectoriesIn` of the current disk. |
| Dispatch.DialectOf | src/Program.cs:166-172 | A `.less` file goes to the LESS compiler and a `.sass` or `.scss` file to the Sass compiler. A file with none of the three extensions is not compiled. |
| Dispatch.StylesheetSuffix | src/Program.cs:166-172 | A file with a compiler ends in a dot and one of the three four-letter extensions. |
| Dispatch.StylesheetIsNotCss | src/Program.cs:166-172 | No file with a compiler is a `.css` file. |
| Dispatch.RouteOf | src/Program.cs:177-187 | Without `output` the CSS replaces the source's path with its extension changed to `.css`. With an `output` ending in `.css` it is appended to exactly that file. Any other `output` goes into a directory. That last case fails exactly when no working directory is known. |
| Dispatch.RouteIsCss | src/Program.cs:177-190 | Every destination of compiled CSS is a `.css` file. |
| Dispatch.Deliver | src/Program.cs:177-190 | Delivering the CSS writes only the destination. The destination then holds the CSS, after its old text when appending. Replacing or appending leaves the directories alone. Writing into an output directory adds exactly that directory and its ancestors. |
| Dispatch.FileSpec | src/Program.cs:163-192 | A file of another extension changes nothing. A stylesheet succeeds exactly when it exists, compiles and has a route. A missing file reports `ReadFailed`, a compile error reports `CompileFailed` with the compiler's message, and a directory `output` without a working directory reports `NoWorkingDirectory`. A failure writes nothing. Non-CSS files are never changed and directories are never removed. On success only the destination changes. It then holds the compiled CSS, after its old text when appending. Only an output directory and its ancestors can be added. |
| Dispatch.ProcessFile | src/Program.cs:163-192 | The disk and the error after the call are those `FileSpec` gives. |
| Dispatch.FilesSpec | src/Program.cs:233-239 | Processing a selection never changes a non-CSS file and never removes a directory. |
| Dispatch.ProcessFiles | src/Program.cs:233-239 | The loop over a selection skips excluded files and stops at the first failure. Its result is `FilesSpec`. |
| Dispatch.FilesSpecConcat | src/Program.cs:231-240 | Processing two selections in turn is processing their concatenation. |
| Dispatch.UnexcludedMembers | src/Program.cs:235-238 | The filtered selection holds exactly the selected files that are not excluded. |
| Dispatch.UnexcludedConcat | src/Program.cs:233-238 | Filtering keeps the selection's order: the filter of two selections in turn is their two filters in turn. |
| Dispatch.UnexcludedSingle | src/Program.cs:235-238 | A single file is kept exactly when it is not excluded. |
| Dispatch.ExcludedFilesAreSkipped | src/Program.cs:233-239 | An excluded file has the same effect as a file absent from the selection. |
| Paths.ChangeExtensionOf | src/Program.cs:179 | Changing the extension of a path that ends in an extension replaces that extension. |
| Paths.SwapExtensionKeepsDirectory | src/Program.cs:179 | Swapping one extension for another keeps the directory of the path. |
| Paths.SwapExtensionKeepsName | src/Program.cs:179 | Swapping one extension for another keeps the name of the path without its extension. |
| Paths.CombinePlain | src/Program.cs:187-188 | A name without separators joined under any directory is the file name of the result. The directory without its trailing separators is the result's directory name, and the result ends with the name. |
| Paths.CombineEndsWith | src/Program.cs:344 | A path joined onto a directory ends with that path. |
| Paths.NameBeforeExtension | src/Program.cs:187 | The name without extension of `name + ext` is `name`. |
| Paths.CombineFileWithExtension | src/Program.cs:187-188 | A file joined under a directory lies in that directory, without its trailing separators. It keeps its name and ends with its extension. |
| Dispatch.SiblingOutput | src/Program.cs:177-179 | Without `output`, the route replaces the file whose path is the source's with its five-character extension swapped for `.css`. That is a different file, in the same directory, with the same name. |
| Dispatch.DirectoryModeOutput | src/Program.cs:187-189 | With an `output` directory, the CSS goes into `Combine(workdir, output)`, without its trailing separators, with the source's name and the `.css` extension. |
| Dispatch.DeliverTwice | src/Program.cs:179-189 | Delivering the same CSS again, where it replaces its destination, changes nothing. |
| Dispatch.RecompileIsIdempotent | src/Program.cs:177-190 | When the output is replaced rather than appended to, compiling a file a second time changes nothing. |
| Dispatch.ConcatenatedReadsSources | src/Program.cs:166-172 | The compiled texts depend only on the non-CSS files. |
| Dispatch.AggregateStep | src/Program.cs:181-184 | Under an aggregate `output`, one compiled file extends that file by its CSS and writes nothing else. |
| Dispatch.AggregateCollects | src/Program.cs:181-184 | Under an aggregate `output`, a successful selection appends the CSS of its files, in selection order, to that file and writes no other. |
| Walk.NormalizeKeepsSources | src/Program.cs:340-348 | Normalisation deletes only a `.css` file. |
| Walk.NormalizeAll | src/Program.cs:210-213 | The records are normalised in file order. On success there is one result per record, each with the file's working directory. An error is always a `null` record or a bad `src`. |
| Walk.LoadSucceedsWhenAllValid | src/Program.cs:210-213 | Loading the records succeeds exactly when none is `null` and every `src` is absent, a string or an array of strings. |
| Walk.LoadStopsAtFirstInvalid | src/Program.cs:210-213 | A failed load reports the error of the first invalid record. |
| Walk.NormalizedDisk | src/Program.cs:340-348 | Normalising one record deletes its aggregate file, if it has one, and makes that file's directory and ancestors. Nothing else on the disk changes. |
| Walk.NormalizeAllDisk | src/Program.cs:210-213 | Normalising the records in order deletes every record's aggregate file and makes their directories. Every other file keeps its text. |
| Walk.LoadPreparesAggregates | src/Program.cs:204-213 | A configuration file that loads leaves the disk without the aggregate file of any of its records, with each one's directory made, and with every other file as it was. |
| Walk.LoadSpec | src/Program.cs:204-219 | Loading changes no non-CSS file. Invalid JSON and `null` give their errors with the disk unchanged. A list loads exactly when every record is valid. It then yields one record per entry, in file order, each the entry normalised in the directory of the configuration file. |
| Walk.LoadConfigs | src/Program.cs:204-219 | Deserialising and normalising the records gives the disk, the error and the records `LoadSpec` gives. |
| Walk.NormalizeConfigs | src/Program.cs:208-213 | The loop normalising the records one after the other, where a `null` record or a bad `src` stops it, gives the disk, the error and the records `NormalizeAll` gives. |
| Walk.DirSpec | src/Program.cs:194-263 | An excluded directory is left exactly as it was. No walk changes a non-CSS file or removes a directory. |
| Walk.ConfigsSpec | src/Program.cs:227-262 | Applying the records in order changes no non-CSS file. |
| Walk.ConfigSpec | src/Program.cs:229-261 | Applying one record changes no non-CSS file. |
| Walk.GroupsSpec | src/Program.cs:231-240 | Scanning the extension groups changes no non-CSS file. |
| Walk.SubdirsSpec | src/Program.cs:242-248 | Visiting the subdirectories changes no non-CSS file. |
| Walk.ExcludesFor | src/Program.cs:154 | Exclusions given in the options are used as they are. Otherwise the exclusions are the ones git gives for the source directory. |
| Walk.SourceSpec | src/Program.cs:146-159 | An existing file is compiled with the default record, which stays as it was. A directory becomes the record's working directory and is walked with that record and the exclusions for it. Anything else stops with `NotFound` and the disk unchanged. No source changes a non-CSS file. |
| Walk.ProcessSpec | src/Program.cs:142-161 | Processing the sources changes no non-CSS file and removes no directory. Only the default record's working directory ever changes. A first source that is neither a file nor a directory stops the run with `NotFound` before anything is written. |
| Walk.ProcessSpecConcat | src/Program.cs:145-160 | Two lists of sources in turn are their concatenation: an error in the first stops the run, and otherwise the second starts from the disk and the record the first left. |
| Walk.MissingSourceStops | src/Program.cs:157-160 | A source that is missing when its turn comes stops the run with `NotFound`, keeping exactly what the earlier sources wrote. |
| Walk.ProcessDirectory | src/Program.cs:194-263 | The disk and the error after the call are those `DirSpec` gives. |
| Walk.ApplyConfigs | src/Program.cs:227-262 | The loop over the records gives `ConfigsSpec`. |
| Walk.ApplyConfig | src/Program.cs:229-261 | One record gives `ConfigSpec`. |
| Walk.ScanDirectory | src/Program.cs:231-240 | The loop over the three extensions gives `GroupsSpec`. |
| Walk.ProcessSubdirectories | src/Program.cs:242-248 | The loop over the subdirectories gives `SubdirsSpec`. |
| Walk.Process | src/Program.cs:142-161 | The disk and the error after processing every source with the shared default record are those `ProcessSpec` gives. |
| Walk.Run | src/Program.cs:46-67 | A rejected argument gives exit code 1 with the disk unchanged. No sources gives exit code 0 with the disk unchanged. Otherwise the disk is the one `ProcessSpec` gives, and the exit code is 0 exactly when it reports no error. |
| Walk.IgnoredDirectoryIsSkipped | src/Program.cs:196-199 | A directory git lists as ignored, at any depth, is skipped whole and the disk is unchanged. |
| Walk.InheritedConfig | src/Program.cs:222-225 | Without a configuration file, the directory is processed with exactly the inherited record. |
| Walk.ConfigErrorAborts | src/Program.cs:204-219 | Invalid JSON, a `null` list, a `null` record or a bad `src` stops the walk with the load's error before anything is compiled. Invalid JSON or a `null` list leaves the disk unchanged. |
| Walk.LoadedConfigsReplaceInherited | src/Program.cs:202-227 | A configuration file that loads replaces the inherited record: its records are applied in file order, whatever record was inherited. |
| Walk.RecordsWorkInTheirDirectory | src/Program.cs:208-212 | Every record of a configuration file works in the directory holding it, without that directory's trailing separators. |
| Walk.FilesInKept | src/Program.cs:233 | Compiling does not change the listing of one extension's files. |
| Walk.FilesOfExtensionsKept | src/Program.cs:231-240 | Compiling does not change the listing of several extensions' files. |
| Walk.GroupsAreOneSelection | src/Program.cs:231-240 | Scanning extension by extension is processing the single selection of all their files. |
| Walk.ScanOrder | src/Program.cs:229-248 | Without patterns, a record compiles the `.less` files, then the `.sass` files, then the `.scss` files, each group in increasing order. Only after that, and only when recursive, does it visit the subdirectories. |
| Walk.AggregateOutput | src/Program.cs:340-348 | With patterns and an aggregate `output`, a successful record leaves that file holding exactly the concatenated CSS of the selected files, in increasing order, whatever it held before. No other file is written. |

## Left out

- `DetectRuntime` is not modelled. It detects the platform and edits `PATH`.
- `PrintHelp`, `LogDebug` and console output are not modelled. `Run` keeps only the exit code and "no sources, no processing".
- The LESS and SASS compilers are not modelled. They are the `compile` parameter, which sees the dialect, the path and the file's text. Imports that read other files are not modelled.
- The glob matcher's pattern semantics are not modelled. The matcher is the `glob` parameter, which sees the patterns, the directory and the files present. Only the sort and the exclusion filter are modelled.
- JSON deserialisation is not modelled. It is the `parse` parameter. The model gets invalid JSON, `null`, or a list of already-parsed records with `null` entries allowed. `src` is `Absent`, a string, an array or some other value. The other three properties come straight from the JSON.
- Starting git and checking its exit code are not modelled. The `git` parameter gives its output, or None when the call fails or throws. Only the text-to-paths mapping is modelled.
- Walk.DirSpec: recursion into subdirectories is bounded by a depth budget. Running out of it is the error `DepthExceeded`, which the program does not have. Output directories created during the walk can add directories, so the model needs this bound to terminate.
- Ordering.SortedSeq: `Directory.GetFiles` and `Directory.GetDirectories` enumerate in an order the file system chooses. `OrderBy` uses the current culture's string comparison. Both are modelled as ordinal order.
- Options.ParseOptions: `Path.GetFullPath` is modelled as joining the argument to the current directory. `.` and `..` segments are not folded, and separators are not normalised.
- Paths: only a Unix host is modelled, with `/` as the separator. On that host git's `/` is already the separator, so no replacement happens.
- `Path.GetDirectoryName` returning null is modelled as the empty path.
- Paths are compared as plain strings. `.`, `..` and repeated separators are not folded, so an `output` such as `../css/site.css` names a different disk entry than the folded path does. Creating its directory can then add an entry such as `/w/..`, which a recursive walk visits. Deleting the aggregate file then leaves the file at the folded path in place.
- Paths.DirectoryName: .NET also collapses repeated separators inside the directory it returns; the model keeps them.
- `Directory.CreateDirectory` over an existing file, and `File.Delete` on a directory, throw in the program and so end the run. In the model they succeed.
- Options.ParseOptions: a directory argument that ends in a separator, such as `src/`, keeps it after `Path.GetFullPath`. .NET still finds that directory and lists its files, but the model compares paths as strings. `Process` then reports `NotFound` for it, and its listings are empty.
- Dispatch.DialectOf: `String.EndsWith(string)` in .NET compares with the current culture, which ignores some code points such as the soft hyphen. The model's `EndsWith` is ordinal. The same holds for the `.css` test on `output`.
- `Directory.CreateDirectory` of an empty path throws in the program. In the model it does nothing. The working directory is always a full path, so that case needs an empty working directory.
- Fs.Write and Fs.Append do not model the failure of writing into a directory that does not exist.
- Reading a file that exists but is not readable is not modelled. Only a missing file fails to read.
- The exception types and messages are not modelled. Each failure is one `Error` case that names the path involved.
