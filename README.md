# apps-helper: the record store and its lookups, in Dafny

`apps-helper` is a command-line registry of applications. It keeps each
application's profiles (a development checkout, an installed copy, a binary,
a configuration location) in a JSON file and finds applications by fuzzy
name. This project models the core of `src/main.rs` and proves properties of
that model:

- the name normalisation and the three-tier fuzzy lookup (`find_app_by_name`
  and `find_app_by_name_mut`);
- the lookup by working directory (`find_app_by_current_dir`);
- the three profile operations (`add_profile`, `activate_profile`,
  `remove_profile`) on an application record;
- the migration of the legacy `directory` field that every load performs;
- `add_app` and `remove_app` (without printing or I/O);
- `handle_profile_command`, which saves only after a changing sub-command
  succeeds;
- the selector checks of `handle_app_command`.

Modules, in dependency order:

- `Wrappers` (wrappers.dfy): `Option`, `Outcome` and `Result`.
- `Names` (names.dfy): string operations on `seq<char>`:
  - ASCII lower-casing and `normalize_name`;
  - `str::contains`, `str::trim` and `str::split`, where `trim` drops the
    complete Unicode White_Space set, written out as a finite list;
  - `Path::file_name`, and `Path` equality as component-list equality.
- `Records` (records.dfy): `ProfileType`, `AppProfile` (named `Profile`) and
  the error kinds.
- `Profiles` (profiles.dfy):
  - specification functions on profile lists, with their lemmas;
  - the invariant `ProfilesValid`: one profile per type, and exactly one
    active profile in a non-empty list;
  - `class App`, whose methods `AddProfile`, `ActivateProfile` and
    `RemoveProfile` update `profiles` and `updatedAt` in place.
- `Matcher` (matcher.dfy): the tier predicates, `find_app_by_name` as a
  function, `find_app_by_name_mut` as a method with loops, and
  `find_app_by_current_dir`.
- `Store` (store.dfy):
  - `class AppsData`, with the migration loop, `add_app`, `remove_app` and
    `handle_profile_command` as methods;
  - the pure pieces they use: tag splitting, name choice, the confirmation
    test and the command selector checks.

The model turns the program's environment into parameters or assumptions:

- Traversal order: a `HashMap` hands out its keys in an unspecified order.
  Every lookup takes that order as a parameter `order`, constrained by
  `IsTraversal` to list each key exactly once. Contracts say which tier the
  found key satisfies, never which of several tied keys wins.
- Inputs: the working directory (`cwd`), the detected machine name, the
  current time (`now`) and the line read at the confirmation prompt are
  parameters.
- Loading and saving: these are not modelled. An `AppsData` object stands for
  the store between load and save.
- Saving: `handle_profile_command` returns `saved`, which is true exactly when
  the code reaches `save_data`. `add_app` saves exactly when it returns
  `Pass`. `remove_app` saves exactly when it returns `Removed`.

Behaviours of the code the model reproduces:

- A failed `activate_profile` has already set every profile's `active` flag
  to false before it reports `ProfileTypeNotFound` (src/main.rs:496-505), so
  the flags are not left as they were. `handle_profile_command` never saves
  that state.
- `add_app` writes the legacy `directory` field for new records.
- An explicit name given to `add_app` wins over `--current-dir`; the directory
  name is only used when no name is given.
- Searching "MyProj" against a store holding "My-Project" does not find it
  through the normalised-equality tier. "myproj" differs from "myproject". It
  is found by the containment tier (`Matcher.MyProjectFoundByContainment`).
- `remove_app` on an empty store reports "no apps" before it checks that a
  selector was given.
- When both `--current-dir` and a search term are given, `--current-dir`
  wins. The two options are not rejected as exclusive.
- `remove_app` deletes the entry whose key is the found record's `name`
  field. When every record is stored under its own name (`Keyed`), this is the
  entry found.
- The key check of `add_app` is exact (case-sensitive). The lookups ignore
  case. So "app" can be added beside "App", and a later search for either
  name has two exact-tier candidates.

## Model

| member | source | states |
|---|---|---|
| Names.LowerEqualIffSameIgnoringCase | src/main.rs:566-570 | two names are equal after `to_lowercase` exactly when they have the same length and agree letter by letter up to ASCII case |
| Names.Lower | src/main.rs:566-570 | lower-casing keeps the length, leaves no upper-case letter, and changes each character only up to ASCII case |
| Names.LowerIdempotent | src/main.rs:566 | lower-casing a lower-cased name changes nothing |
| Names.Normalize | src/main.rs:651-656 | the normalised name consists of ASCII letters and digits only, none upper-case, and is no longer than the input |
| Names.NormalizeOfNormal | src/main.rs:651-656 | a name of lower-case letters and digits is kept whole, so with `NormalizeAppend`, `NormalizeIgnoresSeparator` and `NormalizeLower` every letter and digit survives, lower-cased and in order |
| Names.NormalizeIdempotent | src/main.rs:651-656 | normalising a normalised name returns it unchanged |
| Names.NormalizeLower | src/main.rs:651-656 | lower-casing before normalising, as the lookups do, does not change the normalised form |
| Names.NormalizeAppend | src/main.rs:651-656 | normalising a concatenation concatenates the normalised parts |
| Names.NormalizeIgnoresSeparator | src/main.rs:651-656 | a space, hyphen, underscore or any other non-alphanumeric character between two parts is dropped |
| Names.KeepAlnumLower | src/main.rs:651-656 | filtering alphanumerics and lower-casing commute |
| Names.Contains | src/main.rs:588 | definition of `str::contains`: the needle is a prefix of the haystack or of one of its suffixes; `ContainsIffOccurs` ties it to an occurrence index |
| Names.ContainsIffOccurs | src/main.rs:586 | `contains` holds exactly when the needle occurs at some index of the haystack |
| Names.Trim | src/main.rs:226 | the trimmed string is a slice of the input, starts and ends with non-whitespace, and only whitespace was dropped on either side |
| Names.TrimIgnoresPadding | src/main.rs:226 | whitespace added on either side does not change the trimmed string |
| Names.Split | src/main.rs:226 | splitting gives at least one piece and no piece holds the separator |
| Names.SplitCount | src/main.rs:226 | there is one more piece than there are separators |
| Names.JoinSplit | src/main.rs:226 | joining the pieces with the separator gives back the string |
| Names.SplitJoin | src/main.rs:226 | splitting a join of separator-free pieces gives back the pieces |
| Names.SplitAtSeparator | src/main.rs:226 | splitting at a separator splits the two sides independently |
| Names.FileName | src/main.rs:240-243 | a file name, when there is one, is a non-empty component other than "." and "..", free of '/' |
| Names.FileNameOfChild | src/main.rs:240-243 | the file name of `parent/name` is `name` |
| Names.SamePath | src/main.rs:635-642 | definition of `PathBuf` equality: both paths are rooted or neither, both start with "." or neither, and their lists of components other than empty pieces and "." are equal |
| Names.SamePathTrailingSeparator | src/main.rs:635 | path equality ignores a trailing separator |
| Names.SamePathDistinctChildren | src/main.rs:635 | two different plain names under the same parent are different paths |
| Profiles.AddedKeepsValid | src/main.rs:452-470 | appending a profile of a new type, active exactly when the list was empty, keeps one profile per type and one active profile |
| Profiles.App.AddProfile | src/main.rs:452-470 | a duplicate type fails and changes nothing; otherwise the list grows by the new profile at the end, active iff the list was empty, earlier profiles untouched, the update time is stamped, and a valid list stays valid |
| Profiles.Activated | src/main.rs:496-503 | the walk keeps the length, makes each profile active exactly when its type is the one asked for, and changes nothing but the active flags |
| Profiles.ActivatedActiveCount | src/main.rs:496-503 | after the walk the number of active profiles is the number of profiles of the type |
| Profiles.ActivateSelectsOne | src/main.rs:494-511 | with distinct types, activating a held type leaves exactly that profile active and changes nothing but flags |
| Profiles.ActivateMissingClearsAll | src/main.rs:496-506 | activating a missing type leaves no profile active, so a non-empty list breaks the invariant |
| Profiles.App.ActivateProfile | src/main.rs:494-511 | the list becomes the walked list whether or not the type is held; the call fails exactly when the type is missing, leaving no profile active; the time is stamped only on success, and a successful call keeps a valid list valid |
| Profiles.Retained | src/main.rs:515 | `retain` keeps no more profiles than there were, and none of the removed type |
| Profiles.RetainedMembers | src/main.rs:515 | a profile is kept by `retain` exactly when it is in the list and of another type |
| Profiles.RetainedLength | src/main.rs:514-519 | the length drops by the number of profiles of the type, so it is unchanged exactly when the type is missing, in which case the list is unchanged |
| Profiles.RetainedDistinct | src/main.rs:515 | `retain` keeps types distinct |
| Profiles.RetainedDeletesIndex | src/main.rs:515 | with distinct types, `retain` deletes precisely the profile of the type and keeps the others in order |
| Profiles.RemovedKeepsValid | src/main.rs:513-528 | removal and reactivation keep the invariant and leave no profile of the type |
| Profiles.Reactivated | src/main.rs:521-524 | reactivation keeps the length, changes nothing when some profile is active, leaves a non-empty list with an active profile, activates `profiles[0]` and touches no other profile when none was active, and changes nothing but active flags |
| Profiles.ReactivatedValid | src/main.rs:521-524 | activating the first profile of a list without an active one yields exactly one active profile and changes no type |
| Profiles.RemoveActiveActivatesFirst | src/main.rs:521-524 | removing the active profile of a longer valid list makes the first remaining profile the only active one |
| Profiles.RemoveOnlyProfile | src/main.rs:513-528 | removing the only profile leaves an empty list |
| Profiles.AddThenRemove | src/main.rs:513-528 | removing the type just added restores the valid list it was added to |
| Profiles.App.RemoveProfile | src/main.rs:513-528 | the call fails, with the list unchanged, exactly when the type is missing; otherwise the list is the retained list with the first profile reactivated if needed, the time is stamped and validity is kept |
| Profiles.Migrated | src/main.rs:540-550 | an empty list with a legacy directory becomes one active `Dev` profile at that directory with no machine or notes; any other list is unchanged |
| Profiles.MigratedValid | src/main.rs:540-550 | migration keeps the invariant |
| Matcher.TiersNested | src/main.rs:565-594 | an exact-tier hit is a normalised-tier hit, which is a containment-tier hit |
| Matcher.ExactHit | src/main.rs:570 | definition of the first tier: the key and the search term are equal after lower-casing |
| Matcher.NormalizedHit | src/main.rs:576-580 | definition of the second tier: the normalised lower-cased key equals the normalised lower-cased search term |
| Matcher.ContainmentHit | src/main.rs:586-588 | definition of the third tier: either normalised form contains the other |
| Matcher.NormalizedHitIgnoresCase | src/main.rs:575-579 | the normalised tier compares the normalised names, ignoring case |
| Matcher.FirstHit | src/main.rs:568-572 | a scan returns a key that hits the tier, and finds nothing only when no key hits it |
| Matcher.FirstHitIsEarliest | src/main.rs:568-572 | a scan returns the first key in traversal order that hits the tier |
| Matcher.FindAppByName | src/main.rs:565-594 | nothing is found exactly when no key hits any tier; the key found is stored and hits the containment tier; if some key hits the exact tier the key found does, and likewise for the normalised tier |
| Matcher.EmptyTermMatchesAny | src/main.rs:584-590 | a search term with no letters or digits finds something in any non-empty store |
| Matcher.KeyFindsExactHit | src/main.rs:568-572 | searching for a stored key finds a key equal to it up to case |
| Matcher.MyProjectFoundByContainment | src/main.rs:575-590 | "MyProj" misses "My-Project" on the normalised tier and finds it on the containment tier |
| Matcher.FindAppByNameMut | src/main.rs:596-627 | the three loops over the collected keys return exactly what `find_app_by_name` returns for the same traversal order |
| Matcher.LocatedAt | src/main.rs:634-645 | definition: some profile location, or the legacy directory, is the same path as the one searched for |
| Matcher.DirScan | src/main.rs:632-646 | the scan returns a key whose record is located at the path, and nothing only when no remaining record is |
| Matcher.FindAppByCurrentDir | src/main.rs:629-649 | a record is found exactly when some profile location or the legacy directory equals the path, and the record found is located there |
| Store.TagList | src/main.rs:224-227 | no option gives no tags; otherwise there is one tag per comma plus one, none holding a comma, each trimmed |
| Store.TagListOfJoined | src/main.rs:224-227 | reading comma-joined pieces back as tags gives each piece trimmed |
| Store.TagListRoundTrip | src/main.rs:224-227 | trimmed comma-free tags round-trip through their comma-joined text |
| Store.ChosenName | src/main.rs:235-249 | an explicit name wins; the name is required exactly when there is neither a name nor `--current-dir`; a derived name is "unknown" or one free of '/' |
| Store.ChosenDirectory | src/main.rs:229-233 | definition of the directory `add_app` records: the working directory under `--current-dir`, otherwise `--dir` |
| Store.CurrentDirRecord | src/main.rs:229-271 | `add --current-dir` without a name, run in `parent/leaf`, names the application `leaf` and records the working directory both as its directory and as the location of its one active `Dev` profile, whatever `--dir` says |
| Store.NameFromCurrentDirectory | src/main.rs:238-244 | run in `parent/dir`, the derived name is `dir` |
| Store.RootDirectoryIsUnknown | src/main.rs:238-244 | run in the root directory, the derived name is "unknown" |
| Store.InitialProfiles | src/main.rs:262-271 | a new record has one active `Dev` profile at the directory, with the machine name, exactly when a directory is given, and the list is valid |
| Store.IsNewRecord | src/main.rs:273-281 | definition of the record `add_app` builds: the chosen name, the initial profiles, the legacy directory, the tag list, no repository, and both timestamps equal to the current time |
| Store.Confirmed | src/main.rs:429-431 | definition of the confirmation test: the trimmed, lower-cased answer is "y" or "yes" |
| Store.ConfirmedIff | src/main.rs:429-431 | the answer confirms exactly when, trimmed, it is "y" or "yes" in any mix of cases |
| Store.ConfirmedIgnoresPadding | src/main.rs:429 | surrounding whitespace, such as the newline `read_line` keeps, does not change the decision |
| Store.Dispatch | src/main.rs:131-168 | `get`, `profile` and no sub-command fail exactly when the outer `--get` is missing; given `--get x`, `get` and no sub-command show `x` and `profile` runs its command on `x`, and a shown or profiled term is always the outer `--get`; `add` and `list` always proceed; `remove` takes its own `--get`, else the outer one |
| Store.RemoveSelectorPrecedence | src/main.rs:146-149 | `remove`'s own `--get` wins over the outer one |
| Store.AppsData.MigrateLegacy | src/main.rs:540-550 | every record's list becomes its migrated list, no timestamp or other field changes, a second run would change nothing, and validity is kept |
| Store.AppsData.AddApp | src/main.rs:221-305 | no name and no `--current-dir` fails; a chosen name that is already a key fails; neither failure changes the store; otherwise exactly that key is added, mapped to a fresh record built from the arguments, and validity and keying are kept |
| Store.AppsData.RemovalTarget | src/main.rs:400-407 | under `--current-dir` the target is what `find_app_by_current_dir` finds, otherwise what `find_app_by_name` finds for the search term; a target is always a stored key |
| Store.AppsData.RemoveApp | src/main.rs:392-450 | an empty store, a missing selector, a failed lookup and a declined answer change nothing; a confirmed answer deletes exactly the entry under the found record's name |
| Store.AppsData.Delete | src/main.rs:433 | exactly the entry under the name is dropped, and every other entry stays, so validity and keying are kept |
| Store.AppsData.HandleProfileCommand | src/main.rs:170-219 | the record is found as `find_app_by_name` finds it and is alone in changing; each sub-command has the effect of its profile operation; `saved` holds exactly when a changing sub-command succeeded, and a saved store keeps validity |

## Left out

- Unicode case and character classes. `to_lowercase` and `is_alphanumeric`
  are limited to ASCII; non-ASCII characters are kept as they are and count as
  not alphanumeric. Full Unicode lower-casing can emit combining marks, which
  would break idempotence.
- Paths: only Unix paths, as strings. Windows prefixes and the
  `OsStr::to_str` failure on non-UTF-8 names are not modelled. Path equality
  compares the root, a leading "." and the list of components other than
  empty pieces and "." (".." pieces are kept), as `Path::components` does.
- The file system and JSON: `get_data_file_path`, reading, parsing,
  serialising and writing the data file (src/main.rs:114-117, 530-537,
  555-563). The errors they raise are not modelled either.
- `std::env::current_dir`, `get_machine_name` and `chrono::Utc::now`: their
  results are parameters, and their failures are not modelled.
- Prompting and `read_line` in `remove_app`: the line read is a parameter.
- Printing: `list_apps`, `get_app_info`, `list_profiles`, the preview in
  `add_app` and every message. The `list` sub-commands are modelled only as
  changing nothing.
- The `HashMap` order: a parameter, so tie-breaking between keys is not
  modelled.
- `main` and the clap argument parsing: not modelled. Three "--get is
  required" messages in `handle_app_command` become the single
  `GetRequired` error.
- The profile-list invariant (`Valid`) for loaded data. Migration, `add_app`,
  `remove_app` and saved profile commands are proved to keep it, but nothing
  establishes it for a file read from disk, because the code does not check it.
