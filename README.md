# installed_pkg, modelled in Dafny

`installed_pkg` lists the applications installed on a Windows machine. It does this
by reading the registry's uninstall subtrees. This project models two parts of it
and proves properties of the model.

**The discovery binary (`src/main.rs`).** For each uninstall subtree it:

- collects the executables registered under the sibling `App Paths` subtree;
- builds one record (name, install root, matched executable, icon) per uninstall
  subkey that has a display name and an install location;
- binds each record to the *first* executable whose path contains its install root;
- keeps the icon only when it names a `.ico` file.

The four subtrees (machine/user × native/32-bit) are concatenated in a fixed order.
A second pass walks the start-menu tree and collects the targets of `.lnk` shortcuts.
Shortcuts whose path mentions `Windows PowerShell` are skipped, because the link
parser mishandles them. `AppList` implements `Iterator` by popping records from the
back (`src/main.rs:25-27`). `main` does not use it: it moves each list out with
`extend` (`src/main.rs:226-230`).

**The Windows library lister (`src/platform/windows.rs`).** For every uninstall
subkey it reads name, version and publisher, skips entries with an empty name, and
concatenates the same four subtrees into an `Ok` result. This lister unwraps every
read. So one subkey that cannot be opened, or that lacks one of the three values,
aborts the whole listing.

Modules:

- `Wrappers`: the `Option` and `Result` types.
- `Strings`:
  - `str::contains`, with a proof that it agrees with "occurs at some index";
  - `str::replace` (non-overlapping, left to right), with the lemmas needed to
    compute the `Uninstall` → `App Paths` substitution on the two real roots.
- `Registry`: the registry as data.
  - A hive maps a subtree path to its list of subkeys, in enumeration order.
  - A subkey is either unreadable or a map from value names to string values. The
    default value is the one named `""`.
  - A Rust `unwrap` that fails becomes a `Panic` carrying the fault. `Then` sequences
    two computations that may abort.
- `Discovery`: `src/main.rs`'s registry half.
  - `GetAppsPath`, `FindBin` and `BuildRecords` are methods with loops.
    `NewAppList` and `DiscoverAll` are straight-line methods that call them. Each of
    the five is proved equal to a specification function, and the promised
    properties are proved about that function.
  - `AppList` is a class whose `Next` pops the last record.
- `Shortcuts`: `src/main.rs`'s start-menu half.
  - The directory tree is a datatype, and the shortcut parser is a function parameter.
  - `TraverseDir` is a recursive method that appends to a shared `PathSink`, as the
    source appends to a `&mut Vec`. It is proved to append exactly `NodeTargets`.
  - `NodeTargets` is proved to hold exactly the resolved targets of the tree's `.lnk`
    files.
- `WindowsPlatform`: `src/platform/windows.rs`.

A missing uninstall root is meant to contribute nothing. The code does otherwise: it
`unwrap`s the subtree it opens (`src/main.rs:68`, `src/platform/windows.rs:19`), so
a missing root aborts the run. This model follows
the code. `AppListOf` reports `Panic(KeyNotFound(path))`, and the combined list
exists only when all four roots open cleanly.

## Model

| member | source | states |
|---|---|---|
| Registry.GetValue | src/main.rs:82-91 | a named value is found exactly when the subkey holds it, and the string found is that value |
| Registry.Then | src/main.rs:206-230 | sequencing two scans completes exactly when both complete and then yields their concatenation; otherwise the fault reported is the first one that occurred |
| Registry.ThenAssoc | src/platform/windows.rs:75-79 | how the successive appends of the four lists are grouped does not change the result or the fault |
| Strings.ContainsIffOccurs | src/main.rs:103 | `contains` holds exactly when the pattern occurs at some index of the text |
| Strings.MissingCharNotContained | src/main.rs:103 | a text without one of the pattern's characters does not contain the pattern |
| Strings.EmptyContainsOnlyEmpty | src/main.rs:103 | the empty text contains only the empty pattern |
| Strings.ReplaceAllAbsent | src/main.rs:34 | replacing a pattern that does not occur leaves the text unchanged |
| Strings.ReplaceAllSkips | src/main.rs:34 | a prefix without the pattern's first character is copied unchanged and the replacement continues after it |
| Strings.ReplaceAllAtFront | src/main.rs:34 | an occurrence at the front is replaced, and the scan resumes after that occurrence |
| Discovery.UninstallToAppPaths | src/main.rs:34 | a trailing `Uninstall` after a prefix without `U` becomes `App Paths`, and the prefix is kept |
| Discovery.AppPathsOfNativeRoot | src/main.rs:34 | the native uninstall root maps to `SOFTWARE\Microsoft\Windows\CurrentVersion\App Paths` |
| Discovery.AppPathsOfWowRoot | src/main.rs:34 | the 32-bit uninstall root maps to `SOFTWARE\Wow6432Node\Microsoft\Windows\CurrentVersion\App Paths` |
| Discovery.DefaultValuesOf | src/main.rs:44-51 | a subkey contributes at most one executable |
| Discovery.GetAppsPath | src/main.rs:31-60 | the loop returns the default values of the App Paths subkeys that open and have a default value, in enumeration order; an absent App Paths subtree gives the empty list |
| Discovery.DefaultValuesMember | src/main.rs:44-51 | a path is collected exactly when some subkey opens and its default value is that path |
| Discovery.DefaultValuesAppend | src/main.rs:44-51 | collection follows subkey order: splitting the subkeys splits the result |
| Discovery.IconOf | src/main.rs:114 | the icon kept is empty or ends in `.ico`; a `.ico` icon is kept unchanged, and any other icon becomes empty |
| Discovery.FirstContaining | src/main.rs:98-107 | the index found points at a candidate containing the root, no earlier candidate contains it, and no index is found exactly when no candidate contains it |
| Discovery.BinForIsFirstMatch | src/main.rs:98-107 | for a non-empty root, the bin is empty exactly when no candidate contains the root; otherwise the bin is the first candidate that contains it |
| Discovery.FindBin | src/main.rs:98-107 | the loop with `break` returns the first candidate containing the root, or `""` |
| Discovery.FirstMatchExample | src/main.rs:98-107 | with two candidates that both name `foo.exe`, the one under the install root is chosen in either order; no candidates gives `""` |
| Discovery.RecordOfFields | src/main.rs:82-115 | a subkey gives a record exactly when its name and install location are present and non-empty; the record copies them, binds the first matching executable, and keeps only a `.ico` icon |
| Discovery.RecordsOf | src/main.rs:79-116 | no more records than subkeys |
| Discovery.AppListOf | src/main.rs:61-81 | building a subtree's list aborts exactly when the subtree is missing or one of its subkeys cannot be opened; a missing subtree reports that path |
| Discovery.BuildRecords | src/main.rs:73-118 | the subkey loop aborts at the first unreadable subkey; otherwise it returns the records of all subkeys, in order |
| Discovery.NewAppList | src/main.rs:61-119 | `AppList::new` opens the subtree, collects its App Paths executables, and builds its records |
| Discovery.RecordsOfMember | src/main.rs:79-116 | an app is listed exactly when some subkey's values produce it |
| Discovery.RecordsOfAppend | src/main.rs:79-116 | records follow subkey order: splitting the subkeys splits the records |
| Discovery.AppListRecords | src/main.rs:61-119 | every listed app is well formed (name and root non-empty, icon empty or `.ico`), its bin is the first of this subtree's App Paths executables containing its root, and some subkey holds its name and install location |
| Discovery.PopOrderReverses | src/main.rs:25-27 | draining by pops yields the records in reverse order, each exactly once |
| Discovery.AppList.constructor | src/main.rs:118 | the iterator starts with exactly the records built |
| Discovery.AppList.Next | src/main.rs:25-27 | `next` removes and returns the last record, or returns `None` when empty and changes nothing; what was returned followed by what is left to drain is what was left to drain before |
| Discovery.DiscoverAll | src/main.rs:206-230 | the combined list exists exactly when all four subtree lists exist, and it is their concatenation in the order machine native, machine 32-bit, user native, user 32-bit |
| Shortcuts.ResolveLnkTarget | src/main.rs:123-144 | a path mentioning `Windows PowerShell` resolves to nothing; any other path resolves to what the parser says |
| Shortcuts.GuardIgnoresParser | src/main.rs:125-127 | for a guarded path, the parser's answer is irrelevant |
| Shortcuts.LastIndexIn | src/main.rs:156 | the index found is the last position holding one of the characters, and none is found exactly when the text holds none of them |
| Shortcuts.LnkSuffixIsExtension | src/main.rs:156-158 | a file name ending in `.lnk` with something before the dot has extension `lnk` |
| Shortcuts.LnkExtensionIsSuffix | src/main.rs:156-158 | a file name with extension `lnk` ends in `.lnk` and has something before the dot |
| Shortcuts.LnkExtension | src/main.rs:156-158 | the walker treats a path as a shortcut exactly when its file name ends in `.lnk` and is longer than `.lnk` |
| Shortcuts.PathSink.constructor | src/main.rs:200 | the collected-paths vector starts empty |
| Shortcuts.TraverseDir | src/main.rs:146-174 | the walk appends to the shared vector exactly the targets of the tree, in walk order, and keeps what was there before |
| Shortcuts.StartMenuTargets | src/main.rs:197-203 | the start-menu pass returns exactly the targets of the start-menu tree |
| Shortcuts.NodeTargetsMember | src/main.rs:146-174 | a path is collected exactly when some non-directory entry in the tree is a `.lnk` file that resolves to it |
| Shortcuts.EntryTargetsMember | src/main.rs:148-174 | a path is collected from a directory's first entries exactly when one of those entries yields it |
| Shortcuts.CollectedTargetsSkipBrokenVendor | src/main.rs:123-174 | every collected target comes from a `.lnk` file in the tree whose path avoids `Windows PowerShell`, and it is the parser's answer for that file |
| WindowsPlatform.App.Name | src/platform/windows.rs:42-44 | returns the stored name |
| WindowsPlatform.App.Version | src/platform/windows.rs:46-48 | returns the stored version |
| WindowsPlatform.App.Publisher | src/platform/windows.rs:50-52 | returns the stored publisher |
| WindowsPlatform.ReadApp | src/platform/windows.rs:23-34 | one subkey is read without aborting exactly when it opens and has all three values; an unreadable subkey or a missing name reports that fault; an empty name skips the entry, and otherwise the three values are copied |
| WindowsPlatform.NewAppList | src/platform/windows.rs:18-38 | `AppList::new` aborts on a missing subtree or on the first subkey it cannot read in full; otherwise it lists the named entries in subkey order |
| WindowsPlatform.ScanDone | src/platform/windows.rs:22-35 | the scan completes exactly when every subkey opens and has all three values |
| WindowsPlatform.ScanFaultIsFirst | src/platform/windows.rs:22-35 | an aborted scan reports the fault of a subkey every earlier one of which read cleanly |
| WindowsPlatform.ScanAppend | src/platform/windows.rs:22-35 | entries follow subkey order: scanning a split list equals scanning the parts in sequence |
| WindowsPlatform.ScanMember | src/platform/windows.rs:22-35 | an entry is listed exactly when some subkey reads to it, and every listed entry has a non-empty name |
| WindowsPlatform.ListedAccessors | src/platform/windows.rs:24-52 | through the accessors, a listed entry shows a non-empty name and exactly the three values of the subkey it came from |
| WindowsPlatform.IncompleteEntryAbortsAll | src/platform/windows.rs:22-26 | one subkey that cannot be read in full, wherever it sits, aborts the whole list |
| WindowsPlatform.NewApps | src/platform/windows.rs:54-82 | `App::new` never returns `Err`; it completes exactly when all four subtree lists complete, and the result is their concatenation in order; an abort carries the first fault |
| WindowsPlatform.AllAppsConcatenates | src/platform/windows.rs:75-79 | when the combined list exists, it is the four lists one after the other, and its length is the sum of theirs |

## Left out

- Registry access through `winreg`: predefined hives, `open_subkey_with_flags`, access
  rights and handles. A hive is a value passed in as a parameter. HKLM and HKCU are
  two such values.
- Registry key names are compared exactly. The real registry compares them
  case-insensitively.
- Value types: every value is a string. For the named values read with `get_value`
  (`src/main.rs:82-91`, `src/platform/windows.rs:24-26`), a value of another type is
  an error, and the model treats it as absent.
- Discovery.DefaultValueOf covers only string default values. `get_raw_value("")`
  (`src/main.rs:47-48`) succeeds for a default value of any registry type and pushes
  its `to_string()` form. The model instead drops a subkey whose default value is
  not a string from the App Paths candidates, where the source would collect it.
- `enum_keys().map(|x| x.unwrap())` (`src/main.rs:41`, `src/main.rs:73`,
  `src/platform/windows.rs:22`): enumeration is assumed to succeed. A subkey's
  listing is an ordered sequence.
- `PathBuf::from(...)` followed by `display().to_string()` is treated as the identity
  on the stored string. The `to_string()` of a raw registry value is treated the same
  way.
- The `lnk` crate's parsing of `.lnk` files (`ShellLink::open`, `link_info`,
  `local_base_path`). It is replaced by the `parse` parameter, an arbitrary function
  from a path to an optional target.
- Shortcuts.TraverseDir requires a directory. The branch taken when `read_dir` fails
  (`src/main.rs:175-195`, `read_link` with `expect`) is not modelled. The walk's input
  is a tree whose directories are already listed.
- Symlinked directories, and entries whose type changes during the walk, are not
  modelled. `is_dir` is taken from the tree's shape.
- The `APPDATA` environment variable and the join with
  `Microsoft\Windows\Start Menu\Programs` (`src/main.rs:198-199`). The start-menu
  tree is passed in as a parameter.
- Console output (`println!` at `src/main.rs:162`, `166`, `189` and `245`) and the
  `serde` derives.
- The start-menu targets are printed and are never merged into the App Paths
  candidates (`src/main.rs:243-246`). The model does the same.
- Strings.ReplaceAll requires a non-empty pattern. Rust's `replace` with an empty
  pattern inserts the replacement between characters. The code only calls it with
  `Uninstall`.
- `src/platform/macos.rs` is a stub whose `AppList::new` and `App::new` always
  return an empty list (`src/platform/macos.rs:11-15`, `31-34`). It is not part of
  this model, and neither are `src/platform/mod.rs` and `src/lib.rs` (module wiring).
