/** The value types of the registry: profile kinds, profiles and the errors operations report. */
module Records {
  import opened Wrappers
  import opened Names

  /** The kind of a profile; an application holds at most one profile of each kind. */
  datatype ProfileType = Dev | Installed | Binary | Config

  /** `AppProfile`: one typed location of an application, optionally tied to a machine. */
  datatype Profile = Profile(
    profileType: ProfileType,
    location: Path,
    machineName: Option<string>,
    notes: Option<string>,
    active: bool)

  /** The failures the operations of the core return instead of a value. */
  datatype Error =
    | NameRequired                              // add without a name and without --current-dir
    | DuplicateName(name: string)               // add with a name that is already a key
    | SelectorRequired                          // remove without --get and without --current-dir
    | GetRequired                               // get, profile or no sub-command without --get
    | LocationRequired                          // profile add without --location and without --current-dir
    | DuplicateProfileType(profileType: ProfileType)
    | ProfileTypeNotFound(profileType: ProfileType)
}
