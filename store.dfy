/**
 * The application store (`AppsData`) and the commands that change it: the
 * legacy migration run by `load_data`, `add_app`, `remove_app`,
 * `handle_profile_command` and the selector checks of `handle_app_command`.
 *
 * Loading and saving are left out: the store object stands for the data
 * between the two, and each command reports whether it would have saved.
 * The working directory, the machine name, the clock and the answer read
 * from standard input are parameters.
 */
module Store {
  import opened Wrappers
  import opened Names
  import opened Records
  import opened Profiles
  import opened Matcher

  // ---------------------------------------------------------------------
  // Pieces of add_app
  // ---------------------------------------------------------------------

  /** `--tags`: the comma-separated pieces, each trimmed; no tags at all without the option. */
  function TagList(tags: Option<string>): (r: seq<string>)
    ensures tags.None? ==> r == []
    ensures tags.Some? ==> |r| == CountChar(tags.value, ',') + 1
    ensures forall i :: 0 <= i < |r| ==> ',' !in r[i]
    ensures forall i :: 0 <= i < |r| ==> r[i] == [] || (!IsWhitespace(r[i][0]) && !IsWhitespace(r[i][|r[i]| - 1]))
  {
    match tags
    case None => []
    case Some(t) =>
      var pieces := Split(t, ',');
      SplitCount(t, ',');
      seq(|pieces|, i requires 0 <= i < |pieces| => Trim(pieces[i]))
  }

  /** Joining comma-free pieces with commas and reading them back as tags trims each piece. */
  lemma TagListOfJoined(parts: seq<string>)
    requires |parts| >= 1
    requires forall i :: 0 <= i < |parts| ==> ',' !in parts[i]
    ensures TagList(Some(Join(parts, ','))) == seq(|parts|, i requires 0 <= i < |parts| => Trim(parts[i]))
  {
    SplitJoin(parts, ',');
  }

  /** Tags that are already trimmed and comma-free round-trip through the option's text. */
  lemma TagListRoundTrip(tags: seq<string>)
    requires |tags| >= 1
    requires forall i :: 0 <= i < |tags| ==> ',' !in tags[i] && Trim(tags[i]) == tags[i]
    ensures TagList(Some(Join(tags, ','))) == tags
  {
    TagListOfJoined(tags);
  }

  /**
   * The name `add_app` stores under: an explicit name always wins; without
   * one, `--current-dir` names the application after the last component of
   * the working directory ("unknown" when there is none); otherwise the
   * name is required.
   */
  function ChosenName(name: Option<string>, useCurrentDir: bool, cwd: Path): (r: Result<string, Error>)
    ensures r.Err? <==> name.None? && !useCurrentDir
    ensures r.Err? ==> r.error == NameRequired
    ensures name.Some? ==> r == Ok(name.value)
    ensures r.Ok? && name.None? ==> r.value == "unknown" || '/' !in r.value
  {
    match name
    case Some(n) => Ok(n)
    case None =>
      if useCurrentDir then Ok(FileName(cwd).GetOr("unknown"))
      else Err(NameRequired)
  }

  /** Run inside `<parent>/<dir>` without a name, `add_app` names the application `<dir>`. */
  lemma NameFromCurrentDirectory(parent: Path, dir: string)
    requires '/' !in dir && dir != [] && dir != "." && dir != ".."
    ensures ChosenName(None, true, parent + "/" + dir) == Ok(dir)
  {
    FileNameOfChild(parent, dir);
  }

  /** The root directory has no last component, so the application is called "unknown". */
  lemma RootDirectoryIsUnknown()
    ensures ChosenName(None, true, "/") == Ok("unknown")
  {
    assert "/" == [] + ['/'] + [];
    SplitAtSeparator([], '/', []);
    assert Split("/", '/') == [[], []];
  }

  /** The directory `add_app` records: the working directory under `--current-dir`, else `--dir`. */
  function ChosenDirectory(dir: Option<Path>, useCurrentDir: bool, cwd: Path): (r: Option<Path>)
    ensures useCurrentDir ==> r == Some(cwd)
    ensures !useCurrentDir ==> r == dir
  {
    if useCurrentDir then Some(cwd) else dir
  }

  /**
   * `add --current-dir` run in `<parent>/<leaf>` without a name records an
   * application called `<leaf>`, whose directory and only (`Dev`) profile
   * are that working directory, whatever `--dir` says.
   */
  lemma CurrentDirRecord(dir: Option<Path>, parent: Path, leaf: string, machine: Option<string>)
    requires '/' !in leaf && leaf != [] && leaf != "." && leaf != ".."
    ensures var cwd := parent + "/" + leaf;
      var d := ChosenDirectory(dir, true, cwd);
      && ChosenName(None, true, cwd) == Ok(leaf)
      && d == Some(cwd)
      && InitialProfiles(d, machine) == [Profile(Dev, cwd, machine, None, true)]
  {
    NameFromCurrentDirectory(parent, leaf);
  }

  /** The profiles of a new application: one active `Dev` profile at the directory, if there is one. */
  function InitialProfiles(directory: Option<Path>, machine: Option<string>): (r: seq<Profile>)
    ensures directory.None? <==> r == []
    ensures directory.Some? ==> r == [Profile(Dev, directory.value, machine, None, true)]
    ensures ProfilesValid(r)
  {
    if directory.Some? then
      assert ActiveCount([Profile(Dev, directory.value, machine, None, true)]) == 1;
      [Profile(Dev, directory.value, machine, None, true)]
    else []
  }

  /** `app` is the record `add_app` builds from its arguments. */
  predicate IsNewRecord(app: App, name: string, directory: Option<Path>, tags: Option<string>,
                        machine: Option<string>, now: string)
    reads app
  {
    && app.name == name
    && app.profiles == InitialProfiles(directory, machine)
    && app.directory == directory
    && app.tags == TagList(tags)
    && app.githubRepo == None
    && app.createdAt == now
    && app.updatedAt == now
  }

  // ---------------------------------------------------------------------
  // Pieces of remove_app
  // ---------------------------------------------------------------------

  /** The confirmation prompt accepts "y" or "yes" in any case, with surrounding whitespace. */
  predicate Confirmed(answer: string) {
    var a := Lower(Trim(answer));
    a == "y" || a == "yes"
  }

  /** Only a one-letter `y`/`Y` or a three-letter `yes` in any mix of cases confirms. */
  lemma ConfirmedIff(answer: string)
    ensures Confirmed(answer) <==>
      var t := Trim(answer);
      || (|t| == 1 && SameIgnoringCase(t[0], 'y'))
      || (|t| == 3 && SameIgnoringCase(t[0], 'y') && SameIgnoringCase(t[1], 'e') && SameIgnoringCase(t[2], 's'))
  {
    LowersToY(Trim(answer));
    LowersToYes(Trim(answer));
  }

  lemma LowersToY(t: string)
    ensures Lower(t) == "y" <==> |t| == 1 && SameIgnoringCase(t[0], 'y')
  {
    assert Lower("y") == "y";
    LowerEqualIffSameIgnoringCase(t, "y");
  }

  lemma LowersToYes(t: string)
    ensures Lower(t) == "yes" <==>
      |t| == 3 && SameIgnoringCase(t[0], 'y') && SameIgnoringCase(t[1], 'e') && SameIgnoringCase(t[2], 's')
  {
    assert Lower("yes") == "yes";
    LowerEqualIffSameIgnoringCase(t, "yes");
  }

  /** The newline `read_line` leaves, and any other surrounding whitespace, does not matter. */
  lemma ConfirmedIgnoresPadding(pre: string, answer: string, post: string)
    requires forall i :: 0 <= i < |pre| ==> IsWhitespace(pre[i])
    requires forall i :: 0 <= i < |post| ==> IsWhitespace(post[i])
    ensures Confirmed(pre + answer + post) <==> Confirmed(answer)
  {
    TrimIgnoresPadding(pre, answer, post);
  }

  /** What `remove_app` ends with when it does not fail. */
  datatype Removal =
    | NoApps                  // the store is empty
    | NotFound                // no application matches
    | Cancelled(key: string)  // the confirmation was declined
    | Removed(name: string)   // the entry under this name was deleted and the store saved

  // ---------------------------------------------------------------------
  // The selector checks of handle_app_command and the profile sub-commands
  // ---------------------------------------------------------------------

  /** The `profile` sub-commands, with their options. */
  datatype ProfileCommand =
    | AddCommand(profileType: ProfileType, location: Option<Path>, currentDir: bool,
                 machine: Option<string>, notes: Option<string>)
    | ListCommand
    | ActivateCommand(profileType: ProfileType)
    | RemoveCommand(profileType: ProfileType)

  /** The `app` sub-commands as far as the selector checks look at them. */
  datatype AppCommand =
    | AddSub
    | ListSub
    | GetSub
    | RemoveSub(get: Option<string>, currentDir: bool)
    | ProfileSub(command: ProfileCommand)

  /** What `handle_app_command` goes on to do. */
  datatype Action =
    | DoAdd
    | DoList
    | DoShow(term: string)
    | DoRemove(searchTerm: Option<string>, currentDir: bool)
    | DoProfile(term: string, command: ProfileCommand)

  /**
   * `handle_app_command`: `get`, `profile` and no sub-command at all need
   * the outer `--get`; `remove` prefers its own `--get` to the outer one
   * and leaves the check of its selector to `remove_app`.
   */
  function Dispatch(get: Option<string>, sub: Option<AppCommand>): (r: Result<Action, Error>)
    ensures r.Err? <==> get.None? && (sub.None? || sub.value.GetSub? || sub.value.ProfileSub?)
    ensures r.Err? ==> r.error == GetRequired
    ensures r.Ok? && r.value.DoShow? ==> get == Some(r.value.term) && (sub.None? || sub.value.GetSub?)
    ensures r.Ok? && r.value.DoProfile? ==> get == Some(r.value.term) && sub == Some(ProfileSub(r.value.command))
    ensures sub.Some? && sub.value.RemoveSub? ==>
      r == Ok(DoRemove(sub.value.get.Or(get), sub.value.currentDir))
    ensures get.Some? && (sub.None? || sub.value.GetSub?) ==> r == Ok(DoShow(get.value))
    ensures get.Some? && sub.Some? && sub.value.ProfileSub? ==> r == Ok(DoProfile(get.value, sub.value.command))
    ensures sub == Some(AddSub) ==> r == Ok(DoAdd)
    ensures sub == Some(ListSub) ==> r == Ok(DoList)
  {
    match sub
    case Some(AddSub) => Ok(DoAdd)
    case Some(ListSub) => Ok(DoList)
    case Some(GetSub) => if get.Some? then Ok(DoShow(get.value)) else Err(GetRequired)
    case Some(RemoveSub(ownGet, currentDir)) => Ok(DoRemove(ownGet.Or(get), currentDir))
    case Some(ProfileSub(command)) => if get.Some? then Ok(DoProfile(get.value, command)) else Err(GetRequired)
    case None => if get.Some? then Ok(DoShow(get.value)) else Err(GetRequired)
  }

  /** The `--get` given to `remove` itself wins over the outer one; either one will do. */
  lemma RemoveSelectorPrecedence(ownGet: Option<string>, get: Option<string>, currentDir: bool)
    ensures var r := Dispatch(get, Some(RemoveSub(ownGet, currentDir)));
      && r.Ok?
      && (ownGet.Some? ==> r.value.searchTerm == ownGet)
      && (ownGet.None? ==> r.value.searchTerm == get)
  {
  }

  // ---------------------------------------------------------------------
  // The store
  // ---------------------------------------------------------------------

  /** `AppsData`: the applications by key. */
  class AppsData {
    var apps: map<string, App>

    /** A fresh store, as when the data file does not exist yet. */
    constructor ()
      ensures apps == map[]
    {
      apps := map[];
    }

    /** Every application's profile list has distinct types and, when non-empty, exactly one active profile. */
    ghost predicate Valid()
      reads this, apps.Values
    {
      forall k :: k in apps ==> ProfilesValid(apps[k].profiles)
    }

    /** Every application is stored under its own name, as `add_app` stores it. */
    predicate Keyed()
      reads this, apps.Values
    {
      forall k :: k in apps ==> apps[k].name == k
    }

    /**
     * The migration loop of `load_data`: each application without profiles
     * but with a legacy directory gains one active `Dev` profile there; the
     * directory is kept and no other record changes.
     */
    method MigrateLegacy(order: seq<string>)
      requires IsTraversal(order, apps)
      modifies apps.Values
      ensures apps == old(apps)
      ensures forall k :: k in apps ==>
        apps[k].profiles == Migrated(old(apps[k].profiles), apps[k].directory)
      ensures forall k :: k in apps ==> apps[k].updatedAt == old(apps[k].updatedAt)
      ensures forall k :: k in apps ==> Migrated(apps[k].profiles, apps[k].directory) == apps[k].profiles
      ensures old(Valid()) ==> Valid()
    {
      var i := 0;
      while i < |order|
        invariant 0 <= i <= |order|
        invariant forall k :: k in apps ==>
          || apps[k].profiles == old(apps[k].profiles)
          || apps[k].profiles == Migrated(old(apps[k].profiles), apps[k].directory)
        invariant forall j :: 0 <= j < i ==>
          apps[order[j]].profiles == Migrated(old(apps[order[j]].profiles), apps[order[j]].directory)
        invariant forall k :: k in apps ==> apps[k].updatedAt == old(apps[k].updatedAt)
      {
        var app := apps[order[i]];
        if app.profiles == [] && app.directory.Some? {
          app.profiles := app.profiles + [Profile(Dev, app.directory.value, None, None, true)];
        }
        i := i + 1;
      }
      if old(Valid()) {
        forall k | k in apps
          ensures ProfilesValid(apps[k].profiles)
        {
          MigratedValid(old(apps[k].profiles), apps[k].directory);
        }
      }
    }

    /**
     * `add_app`: picks the name and the directory, refuses a name that is
     * already a key (compared exactly, unlike the lookups), and otherwise
     * inserts a new record under that name and nothing else.
     */
    method AddApp(name: Option<string>, dir: Option<Path>, tags: Option<string>, useCurrentDir: bool,
                  cwd: Path, machine: Option<string>, now: string) returns (res: Outcome<Error>)
      modifies this
      ensures ChosenName(name, useCurrentDir, cwd).Err? ==>
        res == Fail(NameRequired) && apps == old(apps)
      ensures ChosenName(name, useCurrentDir, cwd).Ok? ==>
        var key := ChosenName(name, useCurrentDir, cwd).value;
        if key in old(apps) then
          res == Fail(DuplicateName(key)) && apps == old(apps)
        else
          && res == Pass
          && key in apps
          && apps.Keys == old(apps).Keys + {key}
          && (forall k :: k in old(apps) ==> apps[k] == old(apps)[k])
          && fresh(apps[key])
          && IsNewRecord(apps[key], key, ChosenDirectory(dir, useCurrentDir, cwd), tags, machine, now)
      ensures old(Valid()) ==> Valid()
      ensures old(Keyed()) ==> Keyed()
    {
      var tagList := TagList(tags);
      var directory := ChosenDirectory(dir, useCurrentDir, cwd);
      var chosen := ChosenName(name, useCurrentDir, cwd);
      if chosen.Err? {
        return Fail(chosen.error);
      }
      var appName := chosen.value;
      if appName in apps {
        return Fail(DuplicateName(appName));
      }
      var profiles := InitialProfiles(directory, machine);
      var app := new App(appName, profiles, directory, tagList, None, now, now);
      apps := apps[appName := app];
      res := Pass;
    }

    /** The application `remove_app` asks about, once its selectors are checked. */
    function RemovalTarget(order: seq<string>, searchTerm: Option<string>, useCurrentDir: bool,
                           cwd: Path): (r: Option<string>)
      requires IsTraversal(order, apps)
      requires useCurrentDir || searchTerm.Some?
      reads this, apps.Values
      ensures r.Some? ==> r.value in apps
      ensures useCurrentDir ==> r == FindAppByCurrentDir(apps, order, cwd)
      ensures !useCurrentDir ==> r == FindAppByName(apps, order, searchTerm.value)
    {
      if useCurrentDir then FindAppByCurrentDir(apps, order, cwd)
      else FindAppByName(apps, order, searchTerm.value)
    }

    /** `data.apps.remove(name)`: drops the entry under `name` and keeps every other one. */
    method Delete(name: string)
      modifies this
      ensures apps == old(apps) - {name}
      ensures old(Valid()) ==> Valid()
      ensures old(Keyed()) ==> Keyed()
    {
      apps := apps - {name};
    }

    /**
     * `remove_app`: an empty store is reported before the selectors are
     * looked at; `--current-dir` wins over a search term; the application
     * found is deleted, by its `name`, only when the answer confirms.
     */
    method RemoveApp(searchTerm: Option<string>, useCurrentDir: bool, cwd: Path,
                     order: seq<string>, answer: string) returns (res: Result<Removal, Error>)
      requires IsTraversal(order, apps)
      modifies this
      ensures old(apps) == map[] ==> res == Ok(NoApps) && apps == old(apps)
      ensures old(apps) != map[] && !useCurrentDir && searchTerm.None? ==>
        res == Err(SelectorRequired) && apps == old(apps)
      ensures old(apps) != map[] && (useCurrentDir || searchTerm.Some?) ==>
        var target := old(RemovalTarget(order, searchTerm, useCurrentDir, cwd));
        if target.None? then
          res == Ok(NotFound) && apps == old(apps)
        else if !Confirmed(answer) then
          res == Ok(Cancelled(target.value)) && apps == old(apps)
        else
          var name := old(apps[target.value].name);
          res == Ok(Removed(name)) && apps == old(apps) - {name}
      ensures res.Ok? && res.value.Removed? && old(Keyed()) ==> res.value.name in old(apps)
      ensures old(Valid()) ==> Valid()
      ensures old(Keyed()) ==> Keyed()
    {
      if apps == map[] {
        return Ok(NoApps);
      }
      if !useCurrentDir && searchTerm.None? {
        return Err(SelectorRequired);
      }
      var target := RemovalTarget(order, searchTerm, useCurrentDir, cwd);
      if target.None? {
        return Ok(NotFound);
      }
      if !Confirmed(answer) {
        return Ok(Cancelled(target.value));
      }
      var appName := apps[target.value].name;
      Delete(appName);
      res := Ok(Removed(appName));
    }

    /**
     * `handle_profile_command`: looks the application up with
     * `find_app_by_name_mut`, runs the sub-command on that record only, and
     * saves exactly when a changing sub-command succeeded. A failed
     * `activate` has already cleared every active flag in memory, but that
     * state is never saved.
     */
    method HandleProfileCommand(appName: string, command: ProfileCommand, order: seq<string>,
                                cwd: Path, hostMachine: Option<string>, now: string)
      returns (res: Outcome<Error>, target: Option<string>, saved: bool)
      requires IsTraversal(order, apps)
      modifies apps.Values
      ensures apps == old(apps)
      ensures target == FindAppByName(apps, order, appName)
      ensures saved <==> res.Pass? && target.Some? && !command.ListCommand?
      ensures target.None? ==> res == Pass
      ensures forall k :: k in apps && (target.None? || apps[k] != apps[target.value]) ==>
        apps[k].profiles == old(apps[k].profiles) && apps[k].updatedAt == old(apps[k].updatedAt)
      ensures target.Some? ==>
        var app := apps[target.value];
        var before := old(app.profiles);
        match command
        case AddCommand(t, location, currentDir, machine, notes) =>
          var at := if currentDir then Some(cwd) else location;
          if at.None? then
            res == Fail(LocationRequired) && app.profiles == before && app.updatedAt == old(app.updatedAt)
          else if HasType(before, t) then
            res == Fail(DuplicateProfileType(t)) && app.profiles == before && app.updatedAt == old(app.updatedAt)
          else
            && res == Pass
            && app.profiles == before + [Profile(t, at.value, machine.Or(hostMachine), notes, before == [])]
            && app.updatedAt == now
        case ListCommand =>
          res == Pass && app.profiles == before && app.updatedAt == old(app.updatedAt)
        case ActivateCommand(t) =>
          && res == (if HasType(before, t) then Pass else Fail(ProfileTypeNotFound(t)))
          && app.profiles == Activated(before, t)
          && app.updatedAt == (if res.Pass? then now else old(app.updatedAt))
        case RemoveCommand(t) =>
          && res == (if HasType(before, t) then Pass else Fail(ProfileTypeNotFound(t)))
          && app.profiles == (if res.Pass? then Reactivated(Retained(before, t)) else before)
          && app.updatedAt == (if res.Pass? then now else old(app.updatedAt))
      ensures saved && old(Valid()) ==> Valid()
    {
      target := FindAppByNameMut(apps, order, appName);
      saved := false;
      if target.None? {
        return Pass, target, saved;
      }
      var app := apps[target.value];
      ghost var before := app.profiles;
      match command {
        case AddCommand(t, location, currentDir, machine, notes) =>
          var at := if currentDir then Some(cwd) else location;
          if at.None? {
            return Fail(LocationRequired), target, saved;
          }
          res := app.AddProfile(t, at.value, machine.Or(hostMachine), notes, now);
        case ListCommand =>
          return Pass, target, saved;
        case ActivateCommand(t) =>
          res := app.ActivateProfile(t, now);
          if res.Pass? && ProfilesValid(before) {
            ActivateSelectsOne(before, t);
          }
        case RemoveCommand(t) =>
          res := app.RemoveProfile(t, now);
      }
      saved := res.Pass?;
      if saved && old(Valid()) {
        assert ProfilesValid(app.profiles);
        forall k | k in apps
          ensures ProfilesValid(apps[k].profiles)
        {
          if apps[k] != app {
            assert apps[k].profiles == old(apps[k].profiles);
          }
        }
      }
    }
  }
}
