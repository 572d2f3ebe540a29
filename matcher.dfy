/**
 * Name resolution: the three-tier fuzzy lookup of `find_app_by_name` and
 * `find_app_by_name_mut`, and the directory lookup of
 * `find_app_by_current_dir`. The order in which the `HashMap` hands out its
 * keys is not fixed, so every lookup takes that order as a parameter; the
 * contracts say which tier the result satisfies, never which of several
 * tied keys wins.
 */
module Matcher {
  import opened Wrappers
  import opened Names
  import opened Records
  import opened Profiles

  /** `order` is an enumeration of the keys of `m`: each key exactly once. */
  ghost predicate IsTraversal<V>(order: seq<string>, m: map<string, V>) {
    && (forall k :: k in order <==> k in m)
    && (forall i, j :: 0 <= i < j < |order| ==> order[i] != order[j])
  }

  // ---------------------------------------------------------------------
  // The three tiers
  // ---------------------------------------------------------------------

  /** Tier 1: the key equals the search term after lower-casing both. */
  predicate ExactHit(key: string, term: string) {
    Lower(key) == Lower(term)
  }

  /** Tier 2: the normalised forms of the key and the search term are equal. */
  predicate NormalizedHit(key: string, term: string) {
    Normalize(Lower(key)) == Normalize(Lower(term))
  }

  /** Tier 3: either normalised form contains the other. */
  predicate ContainmentHit(key: string, term: string) {
    var k, t := Normalize(Lower(key)), Normalize(Lower(term));
    Contains(k, t) || Contains(t, k)
  }

  datatype Tier = Exact | Normalized | Containment

  predicate Hits(tier: Tier, key: string, term: string) {
    match tier
    case Exact => ExactHit(key, term)
    case Normalized => NormalizedHit(key, term)
    case Containment => ContainmentHit(key, term)
  }

  /** The tiers are nested: an exact hit is a normalised hit, which is a containment hit. */
  lemma TiersNested(key: string, term: string)
    ensures ExactHit(key, term) ==> NormalizedHit(key, term)
    ensures NormalizedHit(key, term) ==> ContainmentHit(key, term)
  {
  }

  /** The tier-2 and tier-3 comparisons only see letters and digits, ignoring case. */
  lemma NormalizedHitIgnoresCase(key: string, term: string)
    ensures NormalizedHit(key, term) <==> Normalize(key) == Normalize(term)
  {
    NormalizeLower(key);
    NormalizeLower(term);
  }

  // ---------------------------------------------------------------------
  // find_app_by_name
  // ---------------------------------------------------------------------

  /** One scan of the keys in traversal order: the first key that hits the tier. */
  function FirstHit(order: seq<string>, term: string, tier: Tier): (r: Option<string>)
    ensures r.Some? ==> r.value in order && Hits(tier, r.value, term)
    ensures r.None? ==> forall k :: k in order ==> !Hits(tier, k, term)
  {
    if order == [] then None
    else if Hits(tier, order[0], term) then Some(order[0])
    else FirstHit(order[1..], term, tier)
  }

  /** The scan returns the earliest key in traversal order that hits the tier. */
  lemma {:induction false} FirstHitIsEarliest(order: seq<string>, term: string, tier: Tier, i: int)
    requires 0 <= i < |order| && Hits(tier, order[i], term)
    requires forall j :: 0 <= j < i ==> !Hits(tier, order[j], term)
    ensures FirstHit(order, term, tier) == Some(order[i])
  {
    if i > 0 {
      FirstHitIsEarliest(order[1..], term, tier, i - 1);
    }
  }

  /**
   * `find_app_by_name`: the key of the application found for `term`.
   * Nothing is found exactly when no key hits any tier; otherwise the key
   * found hits the highest tier that some key hits (which key among ties is
   * up to the traversal order).
   */
  function FindAppByName<V>(apps: map<string, V>, order: seq<string>, term: string): (r: Option<string>)
    requires IsTraversal(order, apps)
    ensures r.Some? ==> r.value in apps && ContainmentHit(r.value, term)
    ensures r.None? <==> forall k :: k in apps ==> !ContainmentHit(k, term)
    ensures (exists k :: k in apps && ExactHit(k, term)) ==> r.Some? && ExactHit(r.value, term)
    ensures (exists k :: k in apps && NormalizedHit(k, term)) ==> r.Some? && NormalizedHit(r.value, term)
  {
    var exact := FirstHit(order, term, Exact);
    if exact.Some? then exact
    else
      var normalized := FirstHit(order, term, Normalized);
      if normalized.Some? then normalized
      else FirstHit(order, term, Containment)
  }

  /** An empty normalised search term is contained in every name, so any non-empty store yields a match. */
  lemma EmptyTermMatchesAny<V>(apps: map<string, V>, order: seq<string>, term: string)
    requires IsTraversal(order, apps)
    requires Normalize(Lower(term)) == [] && apps != map[]
    ensures FindAppByName(apps, order, term).Some?
  {
    var k :| k in apps;
    assert Contains(Normalize(Lower(k)), []);
  }

  /** Searching for a stored key always finds a key equal to it up to case. */
  lemma KeyFindsExactHit<V>(apps: map<string, V>, order: seq<string>, key: string)
    requires IsTraversal(order, apps) && key in apps
    ensures var r := FindAppByName(apps, order, key);
      r.Some? && Lower(r.value) == Lower(key)
  {
    assert ExactHit(key, key);
  }

  /**
   * A search for "MyProj" in a store holding only "My-Project" finds it,
   * through the containment tier: "myproj" is a piece of "myproject", the
   * two normalised forms are not equal.
   */
  lemma MyProjectFoundByContainment<V>(app: V)
    ensures var apps := map["My-Project" := app];
      && !NormalizedHit("My-Project", "MyProj")
      && ContainmentHit("My-Project", "MyProj")
      && FindAppByName(apps, ["My-Project"], "MyProj") == Some("My-Project")
  {
    NormalizedMyProject();
    NormalizedMyProj();
    assert "myproj" <= "myproject";
    assert !ExactHit("My-Project", "MyProj") by {
      assert |Lower("My-Project")| != |Lower("MyProj")|;
    }
  }

  lemma NormalizedMyProject()
    ensures Normalize(Lower("My-Project")) == "myproject"
  {
    NormalizedMyHyphenProject();
    NormalizeLower("My-Project");
  }

  lemma NormalizedMyHyphenProject()
    ensures Normalize("My-Project") == "myproject"
  {
    DropHyphen();
    NormalizedMyProjectWord();
  }

  lemma NormalizedMyProjectWord()
    ensures Normalize("MyProject") == "myproject"
  {
    KeepAlnumOfAlnum("MyProject");
    LowerMyProject();
  }

  lemma LowerMyProject()
    ensures Lower("MyProject") == "myproject"
  {
  }

  lemma DropHyphen()
    ensures Normalize("My-Project") == Normalize("MyProject")
  {
    assert "My-Project" == "My" + ['-'] + "Project";
    NormalizeIgnoresSeparator("My", '-', "Project");
    assert "My" + "Project" == "MyProject";
  }

  lemma NormalizedMyProj()
    ensures Normalize(Lower("MyProj")) == "myproj"
  {
    assert Lower("MyProj") == "myproj";
    KeepAlnumOfAlnum("myproj");
    LowerOfLower("myproj");
  }

  /**
   * `find_app_by_name_mut`: collects the keys, then runs the same three
   * scans as `find_app_by_name` and returns the key whose record the caller
   * then borrows mutably.
   */
  method FindAppByNameMut<V>(apps: map<string, V>, order: seq<string>, term: string) returns (r: Option<string>)
    requires IsTraversal(order, apps)
    ensures r == FindAppByName(apps, order, term)
  {
    var searchLower := Lower(term);
    var keys := order;

    var i := 0;
    while i < |keys|
      invariant 0 <= i <= |keys|
      invariant forall j :: 0 <= j < i ==> !ExactHit(keys[j], term)
    {
      if Lower(keys[i]) == searchLower {
        FirstHitIsEarliest(keys, term, Exact, i);
        return Some(keys[i]);
      }
      i := i + 1;
    }

    var normalizedSearch := Normalize(searchLower);
    i := 0;
    while i < |keys|
      invariant 0 <= i <= |keys|
      invariant forall j :: 0 <= j < i ==> !NormalizedHit(keys[j], term)
    {
      var normalizedName := Normalize(Lower(keys[i]));
      if normalizedName == normalizedSearch {
        FirstHitIsEarliest(keys, term, Normalized, i);
        return Some(keys[i]);
      }
      i := i + 1;
    }

    i := 0;
    while i < |keys|
      invariant 0 <= i <= |keys|
      invariant forall j :: 0 <= j < i ==> !ContainmentHit(keys[j], term)
    {
      var normalizedName := Normalize(Lower(keys[i]));
      if Contains(normalizedName, normalizedSearch) || Contains(normalizedSearch, normalizedName) {
        FirstHitIsEarliest(keys, term, Containment, i);
        return Some(keys[i]);
      }
      i := i + 1;
    }
    r := None;
  }

  // ---------------------------------------------------------------------
  // find_app_by_current_dir
  // ---------------------------------------------------------------------

  /** One of the application's profile locations, or its legacy directory, is the path `dir`. */
  predicate LocatedAt(app: App, dir: Path)
    reads app
  {
    || (exists i :: 0 <= i < |app.profiles| && SamePath(app.profiles[i].location, dir))
    || (app.directory.Some? && SamePath(app.directory.value, dir))
  }

  /** The scan of `find_app_by_current_dir` over the keys still to visit. */
  function DirScan(apps: map<string, App>, rest: seq<string>, dir: Path): (r: Option<string>)
    requires forall k :: k in rest ==> k in apps
    reads apps.Values
    ensures r.Some? ==> r.value in rest && LocatedAt(apps[r.value], dir)
    ensures r.None? ==> forall k :: k in rest ==> !LocatedAt(apps[k], dir)
  {
    if rest == [] then None
    else if LocatedAt(apps[rest[0]], dir) then Some(rest[0])
    else DirScan(apps, rest[1..], dir)
  }

  /**
   * `find_app_by_current_dir`: finds an application exactly when one of
   * them is located at `dir`, and the application found is located there.
   */
  function FindAppByCurrentDir(apps: map<string, App>, order: seq<string>, dir: Path): (r: Option<string>)
    requires IsTraversal(order, apps)
    reads apps.Values
    ensures r.Some? ==> r.value in apps && LocatedAt(apps[r.value], dir)
    ensures r.None? <==> forall k :: k in apps ==> !LocatedAt(apps[k], dir)
  {
    DirScan(apps, order, dir)
  }
}
