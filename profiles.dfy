/**
 * The profile manager: the profile list of an application, the invariant
 * its operations keep (one profile per type, exactly one active profile in
 * a non-empty list), and the `App` record whose profile list the
 * operations `add_profile`, `activate_profile` and `remove_profile` update
 * in place.
 */
module Profiles {
  import opened Wrappers
  import opened Names
  import opened Records

  // ---------------------------------------------------------------------
  // Queries on a profile list
  // ---------------------------------------------------------------------

  /** Some profile of the list has type `t` (`profiles.iter().any(|p| p.profile_type == t)`). */
  predicate HasType(ps: seq<Profile>, t: ProfileType) {
    exists i :: 0 <= i < |ps| && ps[i].profileType == t
  }

  /** Some profile of the list is active (`profiles.iter().any(|p| p.active)`). */
  predicate AnyActive(ps: seq<Profile>) {
    exists i :: 0 <= i < |ps| && ps[i].active
  }

  /** No two profiles of the list share a type. */
  predicate DistinctTypes(ps: seq<Profile>) {
    forall i, j :: 0 <= i < j < |ps| ==> ps[i].profileType != ps[j].profileType
  }

  /** The number of active profiles. */
  function ActiveCount(ps: seq<Profile>): nat {
    if ps == [] then 0 else (if ps[0].active then 1 else 0) + ActiveCount(ps[1..])
  }

  /** The number of profiles of type `t`. */
  function TypeCount(ps: seq<Profile>, t: ProfileType): nat {
    if ps == [] then 0 else (if ps[0].profileType == t then 1 else 0) + TypeCount(ps[1..], t)
  }

  /**
   * The invariant of a stored profile list: one profile per type, and
   * exactly one active profile whenever the list is not empty.
   */
  predicate ProfilesValid(ps: seq<Profile>) {
    DistinctTypes(ps) && ActiveCount(ps) == (if ps == [] then 0 else 1)
  }

  lemma {:induction false} ActiveCountZero(ps: seq<Profile>)
    ensures ActiveCount(ps) == 0 <==> !AnyActive(ps)
  {
    if ps != [] {
      ActiveCountZero(ps[1..]);
      if AnyActive(ps[1..]) {
        var i :| 0 <= i < |ps[1..]| && ps[1..][i].active;
        assert ps[i + 1].active;
      }
      if AnyActive(ps) && !ps[0].active {
        var i :| 0 <= i < |ps| && ps[i].active;
        assert ps[1..][i - 1].active;
      }
    }
  }

  lemma {:induction false} TypeCountZero(ps: seq<Profile>, t: ProfileType)
    ensures TypeCount(ps, t) == 0 <==> !HasType(ps, t)
  {
    if ps != [] {
      TypeCountZero(ps[1..], t);
      if HasType(ps[1..], t) {
        var i :| 0 <= i < |ps[1..]| && ps[1..][i].profileType == t;
        assert ps[i + 1].profileType == t;
      }
      if HasType(ps, t) && ps[0].profileType != t {
        var i :| 0 <= i < |ps| && ps[i].profileType == t;
        assert ps[1..][i - 1].profileType == t;
      }
    }
  }

  lemma {:induction false} TypeCountDistinct(ps: seq<Profile>, t: ProfileType)
    requires DistinctTypes(ps)
    ensures TypeCount(ps, t) <= 1
  {
    if ps != [] {
      TypeCountDistinct(ps[1..], t);
      if ps[0].profileType == t {
        assert !HasType(ps[1..], t);
        TypeCountZero(ps[1..], t);
      }
    }
  }

  lemma {:induction false} ActiveCountAppend(a: seq<Profile>, b: seq<Profile>)
    ensures ActiveCount(a + b) == ActiveCount(a) + ActiveCount(b)
  {
    if a == [] {
      assert a + b == b;
    } else {
      assert (a + b)[1..] == a[1..] + b;
      ActiveCountAppend(a[1..], b);
    }
  }

  // ---------------------------------------------------------------------
  // add_profile
  // ---------------------------------------------------------------------

  /**
   * Appending a profile of a new type, active exactly when the list was
   * empty, keeps the invariant, and the list then has that type.
   */
  lemma AddedKeepsValid(ps: seq<Profile>, p: Profile)
    requires ProfilesValid(ps) && !HasType(ps, p.profileType)
    requires p.active == (ps == [])
    ensures ProfilesValid(ps + [p]) && HasType(ps + [p], p.profileType)
  {
    var qs := ps + [p];
    assert qs[|ps|] == p;
    ActiveCountAppend(ps, [p]);
    assert ActiveCount([p]) == (if p.active then 1 else 0);
    forall i, j | 0 <= i < j < |qs| ensures qs[i].profileType != qs[j].profileType {
      if j == |ps| {
        assert qs[i] == ps[i];
      }
    }
  }

  // ---------------------------------------------------------------------
  // activate_profile
  // ---------------------------------------------------------------------

  /**
   * The list `activate_profile` leaves behind, whether it succeeds or not:
   * each profile is active exactly when its type is `t`.
   */
  function Activated(ps: seq<Profile>, t: ProfileType): (r: seq<Profile>)
    ensures |r| == |ps|
    ensures forall i :: 0 <= i < |r| ==> (r[i].active <==> ps[i].profileType == t)
    ensures forall i :: 0 <= i < |r| ==> r[i].(active := ps[i].active) == ps[i]
  {
    seq(|ps|, i requires 0 <= i < |ps| => ps[i].(active := ps[i].profileType == t))
  }

  lemma {:induction false} ActivatedActiveCount(ps: seq<Profile>, t: ProfileType)
    ensures ActiveCount(Activated(ps, t)) == TypeCount(ps, t)
  {
    if ps != [] {
      assert Activated(ps, t)[1..] == Activated(ps[1..], t);
      ActivatedActiveCount(ps[1..], t);
    }
  }

  /**
   * Activating a type the list holds makes that profile the only active
   * one, touches nothing but the active flags, and keeps the list valid.
   */
  lemma ActivateSelectsOne(ps: seq<Profile>, t: ProfileType)
    requires DistinctTypes(ps) && HasType(ps, t)
    ensures var r := Activated(ps, t);
      && ProfilesValid(r)
      && ActiveCount(r) == 1
      && (forall i :: 0 <= i < |r| ==> (r[i].active <==> r[i].profileType == t))
      && (forall i :: 0 <= i < |r| ==> r[i].(active := ps[i].active) == ps[i])
  {
    ActivatedActiveCount(ps, t);
    TypeCountDistinct(ps, t);
    TypeCountZero(ps, t);
  }

  /**
   * Activating a type the list does not hold leaves no profile active, so
   * a non-empty list no longer satisfies the invariant.
   */
  lemma ActivateMissingClearsAll(ps: seq<Profile>, t: ProfileType)
    requires !HasType(ps, t)
    ensures !AnyActive(Activated(ps, t))
    ensures ps != [] ==> !ProfilesValid(Activated(ps, t))
  {
    ActiveCountZero(Activated(ps, t));
  }

  // ---------------------------------------------------------------------
  // remove_profile
  // ---------------------------------------------------------------------

  /** `profiles.retain(|p| p.profile_type != t)`: the profiles of other types, in their order. */
  function Retained(ps: seq<Profile>, t: ProfileType): (r: seq<Profile>)
    ensures |r| <= |ps|
    ensures forall i :: 0 <= i < |r| ==> r[i].profileType != t
  {
    if ps == [] then []
    else (if ps[0].profileType != t then [ps[0]] else []) + Retained(ps[1..], t)
  }

  /** A list seen as its first profile and the rest. */
  lemma HasTypeCons(x: Profile, tail: seq<Profile>, u: ProfileType)
    ensures HasType([x] + tail, u) <==> x.profileType == u || HasType(tail, u)
  {
    var ps := [x] + tail;
    assert ps[0] == x;
    if HasType(tail, u) {
      var k :| 0 <= k < |tail| && tail[k].profileType == u;
      assert ps[k + 1] == tail[k];
    }
    if HasType(ps, u) && x.profileType != u {
      var k :| 0 <= k < |ps| && ps[k].profileType == u;
      assert tail[k - 1] == ps[k];
    }
  }

  lemma DistinctCons(x: Profile, tail: seq<Profile>)
    ensures DistinctTypes([x] + tail) <==> DistinctTypes(tail) && !HasType(tail, x.profileType)
  {
    var ps := [x] + tail;
    assert forall k :: 0 <= k < |tail| ==> tail[k] == ps[k + 1];
    if DistinctTypes(ps) {
      forall k | 0 <= k < |tail| ensures tail[k].profileType != x.profileType {
        assert ps[0] == x && ps[k + 1] == tail[k];
      }
    }
    if DistinctTypes(tail) && !HasType(tail, x.profileType) {
      forall i, j | 0 <= i < j < |ps| ensures ps[i].profileType != ps[j].profileType {
        if i == 0 {
          assert ps[j] == tail[j - 1];
        } else {
          assert ps[i] == tail[i - 1] && ps[j] == tail[j - 1];
        }
      }
    }
  }

  /** A profile kept by `retain` is a profile of the list of another type. */
  lemma {:induction false} RetainedMembers(ps: seq<Profile>, t: ProfileType)
    ensures forall p :: p in Retained(ps, t) <==> p in ps && p.profileType != t
  {
    if ps != [] {
      RetainedMembers(ps[1..], t);
      assert ps == [ps[0]] + ps[1..];
    }
  }

  /** `retain` only drops types. */
  lemma {:induction false} RetainedKeepsTypes(ps: seq<Profile>, t: ProfileType, u: ProfileType)
    ensures HasType(Retained(ps, t), u) ==> HasType(ps, u)
  {
    if ps != [] {
      RetainedKeepsTypes(ps[1..], t, u);
      assert ps == [ps[0]] + ps[1..];
      HasTypeCons(ps[0], ps[1..], u);
      if ps[0].profileType != t {
        HasTypeCons(ps[0], Retained(ps[1..], t), u);
      } else {
        assert Retained(ps, t) == Retained(ps[1..], t);
      }
    }
  }

  /**
   * `retain` shortens the list exactly when a profile of type `t` exists;
   * otherwise the list is unchanged.
   */
  lemma RetainedLength(ps: seq<Profile>, t: ProfileType)
    ensures |Retained(ps, t)| == |ps| - TypeCount(ps, t)
    ensures |Retained(ps, t)| == |ps| <==> !HasType(ps, t)
    ensures !HasType(ps, t) ==> Retained(ps, t) == ps
  {
    RetainedCount(ps, t);
    TypeCountZero(ps, t);
    if !HasType(ps, t) {
      RetainedNoType(ps, t);
    }
  }

  lemma {:induction false} RetainedCount(ps: seq<Profile>, t: ProfileType)
    ensures |Retained(ps, t)| == |ps| - TypeCount(ps, t)
  {
    if ps != [] {
      RetainedCount(ps[1..], t);
    }
  }

  lemma {:induction false} RetainedNoType(ps: seq<Profile>, t: ProfileType)
    requires !HasType(ps, t)
    ensures Retained(ps, t) == ps
  {
    if ps != [] {
      assert ps == [ps[0]] + ps[1..];
      HasTypeCons(ps[0], ps[1..], t);
      RetainedNoType(ps[1..], t);
    }
  }

  lemma {:induction false} RetainedActiveCount(ps: seq<Profile>, t: ProfileType)
    ensures ActiveCount(Retained(ps, t)) <= ActiveCount(ps)
  {
    if ps != [] {
      RetainedActiveCount(ps[1..], t);
      ActiveCountAppend(if ps[0].profileType != t then [ps[0]] else [], Retained(ps[1..], t));
    }
  }

  lemma {:induction false} RetainedDistinct(ps: seq<Profile>, t: ProfileType)
    requires DistinctTypes(ps)
    ensures DistinctTypes(Retained(ps, t))
  {
    if ps != [] {
      var x, tail := ps[0], ps[1..];
      assert ps == [x] + tail;
      DistinctCons(x, tail);
      RetainedDistinct(tail, t);
      var rest := Retained(tail, t);
      if x.profileType != t {
        RetainedKeepsTypes(tail, t, x.profileType);
        DistinctCons(x, rest);
      } else {
        assert Retained(ps, t) == rest;
      }
    }
  }

  /**
   * With one profile per type, `retain` deletes exactly the profile of type
   * `t` and keeps the others in their relative order.
   */
  lemma {:induction false} RetainedDeletesIndex(ps: seq<Profile>, t: ProfileType, i: int)
    requires DistinctTypes(ps) && 0 <= i < |ps| && ps[i].profileType == t
    ensures Retained(ps, t) == ps[..i] + ps[i + 1..]
  {
    if i == 0 {
      assert forall k :: 0 <= k < |ps[1..]| ==> ps[1..][k] == ps[k + 1];
      RetainedLength(ps[1..], t);
    } else {
      RetainedDeletesIndex(ps[1..], t, i - 1);
      assert ps[..i] + ps[i + 1..] == [ps[0]] + (ps[1..][..i - 1] + ps[1..][i..]);
    }
  }

  /** `profiles[0].active = true` when the list is non-empty and no profile is active. */
  function Reactivated(ps: seq<Profile>): (r: seq<Profile>)
    ensures |r| == |ps|
    ensures AnyActive(ps) ==> r == ps
    ensures ps != [] ==> AnyActive(r)
    ensures ps != [] && !AnyActive(ps) ==> r[0].active && r[1..] == ps[1..]
    ensures forall i :: 0 <= i < |r| ==> r[i].(active := ps[i].active) == ps[i]
  {
    if ps != [] && !AnyActive(ps) then
      var r := ps[0 := ps[0].(active := true)];
      assert r[0].active;
      r
    else ps
  }

  /**
   * Removing a type from a valid list leaves a valid list holding no
   * profile of that type, so the type can be added again.
   */
  lemma RemovedKeepsValid(ps: seq<Profile>, t: ProfileType)
    requires ProfilesValid(ps)
    ensures ProfilesValid(Reactivated(Retained(ps, t)))
    ensures !HasType(Reactivated(Retained(ps, t)), t)
  {
    RetainedDistinct(ps, t);
    RetainedActiveCount(ps, t);
    ReactivatedValid(Retained(ps, t));
  }

  /**
   * Activating the first profile of a list with no active profile changes
   * no type and leaves exactly one active profile in a non-empty list.
   */
  lemma ReactivatedValid(rs: seq<Profile>)
    requires DistinctTypes(rs) && ActiveCount(rs) <= 1
    ensures ProfilesValid(Reactivated(rs))
    ensures forall i :: 0 <= i < |rs| ==> Reactivated(rs)[i].profileType == rs[i].profileType
  {
    ActiveCountZero(rs);
    if rs != [] && !AnyActive(rs) {
      ActivateFirst(rs);
    }
  }

  /** Setting the first flag of a list without active profiles leaves exactly one active profile. */
  lemma ActivateFirst(rs: seq<Profile>)
    requires rs != [] && ActiveCount(rs) == 0
    ensures var r := rs[0 := rs[0].(active := true)];
      ActiveCount(r) == 1 && forall i :: 0 <= i < |rs| ==> r[i].profileType == rs[i].profileType
  {
    var r := rs[0 := rs[0].(active := true)];
    assert r[1..] == rs[1..];
  }

  /**
   * Removing the active profile of a valid list with other profiles makes
   * the first remaining profile the one active profile.
   */
  lemma RemoveActiveActivatesFirst(ps: seq<Profile>, t: ProfileType, i: int)
    requires ProfilesValid(ps) && 0 <= i < |ps| && ps[i].profileType == t && ps[i].active
    requires |ps| > 1
    ensures var r := Reactivated(Retained(ps, t));
      |r| == |ps| - 1 && r[0].active && ActiveCount(r) == 1
  {
    RetainedDeletesIndex(ps, t, i);
    ActiveCountWithout(ps, i);
    var rs := Retained(ps, t);
    ActiveCountZero(rs);
    ActivateFirst(rs);
  }

  /** Deleting one profile lowers the active count by its flag. */
  lemma ActiveCountWithout(ps: seq<Profile>, i: int)
    requires 0 <= i < |ps|
    ensures ActiveCount(ps[..i] + ps[i + 1..]) == ActiveCount(ps) - (if ps[i].active then 1 else 0)
  {
    var front, x, back := ps[..i], ps[i], ps[i + 1..];
    assert ps == (front + [x]) + back;
    ActiveCountAppend(front + [x], back);
    ActiveCountAppend(front, [x]);
    ActiveCountAppend(front, back);
    assert [x][1..] == [];
  }

  /** Removing the only profile leaves an empty list. */
  lemma RemoveOnlyProfile(p: Profile)
    ensures Reactivated(Retained([p], p.profileType)) == []
  {
  }

  /** Removing the type just added restores the valid list it was added to. */
  lemma AddThenRemove(ps: seq<Profile>, p: Profile)
    requires ProfilesValid(ps) && !HasType(ps, p.profileType)
    ensures Reactivated(Retained(ps + [p], p.profileType)) == ps
  {
    assert (ps + [p])[..|ps|] == ps && (ps + [p])[|ps| + 1..] == [];
    AddedKeepsValid(ps, p.(active := ps == []));
    assert DistinctTypes(ps + [p]) by {
      var qs := ps + [p];
      forall i, j | 0 <= i < j < |qs| ensures qs[i].profileType != qs[j].profileType {
        if j == |ps| {
          assert qs[i] == ps[i];
        }
      }
    }
    RetainedDeletesIndex(ps + [p], p.profileType, |ps|);
    if ps != [] {
      ActiveCountZero(ps);
    }
  }

  // ---------------------------------------------------------------------
  // The legacy migration of load_data
  // ---------------------------------------------------------------------

  /** The profile list after the load-time migration of the legacy `directory` field. */
  function Migrated(ps: seq<Profile>, directory: Option<Path>): (r: seq<Profile>)
    ensures ps == [] && directory.Some? ==> r == [Profile(Dev, directory.value, None, None, true)]
    ensures ps != [] || directory.None? ==> r == ps
  {
    if ps == [] && directory.Some? then [Profile(Dev, directory.value, None, None, true)] else ps
  }

  /** Migrating a migrated list changes nothing. */
  lemma MigratedIdempotent(ps: seq<Profile>, directory: Option<Path>)
    ensures Migrated(Migrated(ps, directory), directory) == Migrated(ps, directory)
  {
  }

  /** The migration keeps a valid list valid, and the list it creates is valid. */
  lemma MigratedValid(ps: seq<Profile>, directory: Option<Path>)
    requires ProfilesValid(ps)
    ensures ProfilesValid(Migrated(ps, directory))
  {
    assert ActiveCount([Profile(Dev, directory.GetOr([]), None, None, true)]) == 1;
  }

  // ---------------------------------------------------------------------
  // The application record
  // ---------------------------------------------------------------------

  /**
   * `App`: an application record. Only the profile list and the update
   * time are changed after creation; the other fields are constants.
   */
  class App {
    const name: string
    var profiles: seq<Profile>
    const directory: Option<Path>   // legacy single directory, kept for migration
    const tags: seq<string>
    const githubRepo: Option<string>
    const createdAt: string
    var updatedAt: string

    constructor (name: string, profiles: seq<Profile>, directory: Option<Path>, tags: seq<string>,
                 githubRepo: Option<string>, createdAt: string, updatedAt: string)
      ensures this.name == name && this.profiles == profiles && this.directory == directory
      ensures this.tags == tags && this.githubRepo == githubRepo
      ensures this.createdAt == createdAt && this.updatedAt == updatedAt
    {
      this.name := name;
      this.profiles := profiles;
      this.directory := directory;
      this.tags := tags;
      this.githubRepo := githubRepo;
      this.createdAt := createdAt;
      this.updatedAt := updatedAt;
    }

    /**
     * `add_profile`: fails, changing nothing, when a profile of the type
     * exists; otherwise appends the profile, active exactly when it is the
     * first one, and stamps the update time.
     */
    method AddProfile(profileType: ProfileType, location: Path, machine: Option<string>,
                      notes: Option<string>, now: string) returns (res: Outcome<Error>)
      modifies this
      ensures HasType(old(profiles), profileType) ==>
        res == Fail(DuplicateProfileType(profileType)) && profiles == old(profiles) && updatedAt == old(updatedAt)
      ensures !HasType(old(profiles), profileType) ==>
        && res == Pass
        && profiles == old(profiles) + [Profile(profileType, location, machine, notes, old(profiles) == [])]
        && updatedAt == now
      ensures res.Pass? && ProfilesValid(old(profiles)) ==> ProfilesValid(profiles)
    {
      if HasType(profiles, profileType) {
        return Fail(DuplicateProfileType(profileType));
      }
      var isFirstProfile := profiles == [];
      var added := Profile(profileType, location, machine, notes, isFirstProfile);
      if ProfilesValid(profiles) {
        AddedKeepsValid(profiles, added);
      }
      profiles := profiles + [added];
      updatedAt := now;
      res := Pass;
    }

    /**
     * `activate_profile`: walks the list setting each profile's flag to
     * whether its type is `profileType` (so on failure every flag has been
     * cleared), then fails if no profile had the type and otherwise stamps
     * the update time.
     */
    method ActivateProfile(profileType: ProfileType, now: string) returns (res: Outcome<Error>)
      modifies this
      ensures profiles == Activated(old(profiles), profileType)
      ensures res == if HasType(old(profiles), profileType) then Pass else Fail(ProfileTypeNotFound(profileType))
      ensures updatedAt == if res.Pass? then now else old(updatedAt)
      ensures res.Pass? && ProfilesValid(old(profiles)) ==> ProfilesValid(profiles)
      ensures res.Fail? ==> !AnyActive(profiles)
    {
      var found := false;
      var i := 0;
      while i < |profiles|
        invariant 0 <= i <= |profiles| == |old(profiles)|
        invariant forall j :: 0 <= j < i ==>
          profiles[j] == old(profiles)[j].(active := old(profiles)[j].profileType == profileType)
        invariant forall j :: i <= j < |profiles| ==> profiles[j] == old(profiles)[j]
        invariant found <==> exists j :: 0 <= j < i && old(profiles)[j].profileType == profileType
        invariant updatedAt == old(updatedAt)
      {
        if profiles[i].profileType == profileType {
          profiles := profiles[i := profiles[i].(active := true)];
          found := true;
        } else {
          profiles := profiles[i := profiles[i].(active := false)];
        }
        i := i + 1;
      }
      assert profiles == Activated(old(profiles), profileType);
      if !found {
        ActivateMissingClearsAll(old(profiles), profileType);
        return Fail(ProfileTypeNotFound(profileType));
      }
      if ProfilesValid(old(profiles)) {
        ActivateSelectsOne(old(profiles), profileType);
      }
      updatedAt := now;
      res := Pass;
    }

    /**
     * `remove_profile`: drops the profiles of the type; fails, with the list
     * unchanged, when there were none; otherwise activates the first
     * remaining profile if none is active and stamps the update time.
     */
    method RemoveProfile(profileType: ProfileType, now: string) returns (res: Outcome<Error>)
      modifies this
      ensures res == if HasType(old(profiles), profileType) then Pass else Fail(ProfileTypeNotFound(profileType))
      ensures profiles == if res.Pass? then Reactivated(Retained(old(profiles), profileType)) else old(profiles)
      ensures updatedAt == if res.Pass? then now else old(updatedAt)
      ensures ProfilesValid(old(profiles)) ==> ProfilesValid(profiles)
    {
      var initialLen := |profiles|;
      RetainedLength(profiles, profileType);
      if ProfilesValid(profiles) {
        RemovedKeepsValid(profiles, profileType);
      }
      profiles := Retained(profiles, profileType);
      if |profiles| == initialLen {
        return Fail(ProfileTypeNotFound(profileType));
      }
      if profiles != [] && !AnyActive(profiles) {
        profiles := profiles[0 := profiles[0].(active := true)];
      }
      updatedAt := now;
      res := Pass;
    }
  }
}
