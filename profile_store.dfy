/**
 * The profile store as the plugin keeps it: a settings object whose fields
 * its methods reassign. Each method is proved to move the object's value,
 * `Snapshot()`, exactly as the matching function of module ProfileRecord
 * moves a `Record`, and to return what that function returns.
 */
module ProfileStore {
  import opened Wrappers
  import opened LinkedMaps
  import opened JavaStrings
  import R = ProfileRecord

  /** `AutoTrashProfile`: one profile's list of exact item ids. */
  class Profile {
    var exactItems: seq<string>

    /** A new profile has no filters. */
    constructor ()
      ensures exactItems == []
    {
      exactItems := [];
    }

    /** The constructor that takes an initial list; null gives an empty one. */
    constructor WithItems(items: Option<seq<string>>)
      ensures exactItems == items.GetOr([])
    {
      exactItems := items.GetOr([]);
    }

    /** `setExactItems`: a null list is stored as an empty one. */
    method SetExactItems(items: Option<seq<string>>)
      modifies this
      ensures exactItems == items.GetOr([])
    {
      exactItems := items.GetOr([]);
    }

    /** `copy`: a new, independent profile with the same items. */
    method Copy() returns (p: Profile)
      ensures fresh(p) && p.exactItems == exactItems
    {
      p := new Profile();
      p.exactItems := exactItems;
    }
  }

  /** The profiles `setProfiles` stores for a given map: the same names in
      the same order, a null profile replaced by an empty one. */
  function CopiedProfiles(given: Entries<string, Option<seq<string>>>): (ps: Entries<string, seq<string>>)
    ensures |ps| == |given|
    ensures forall i :: 0 <= i < |given| ==> ps[i] == (given[i].0, given[i].1.GetOr([]))
  {
    seq(|given|, i requires 0 <= i < |given| => (given[i].0, given[i].1.GetOr([])))
  }

  /** Copying keeps the names, so it keeps them unique. */
  lemma CopiedKeepsKeys(given: Entries<string, Option<seq<string>>>)
    requires UniqueKeys(given)
    ensures UniqueKeys(CopiedProfiles(given))
    ensures Keys(CopiedProfiles(given)) == Keys(given)
  {
  }

  /** With unique names, each `put` of the copy loop appends the next entry. */
  lemma CopiedStep(given: Entries<string, Option<seq<string>>>, i: int)
    requires UniqueKeys(given) && 0 <= i < |given|
    ensures Put(CopiedProfiles(given[..i]), given[i].0, given[i].1.GetOr([])) == CopiedProfiles(given[..i + 1])
  {
    var prefix := CopiedProfiles(given[..i]);
    forall j | 0 <= j < |prefix|
      ensures prefix[j].0 != given[i].0
    {
      assert prefix[j].0 == given[j].0;
    }
  }

  /** The copy loop of `setProfiles`: `put` each name with its profile, or
      an empty one for null, into a new map. */
  method CopyEntries(given: Entries<string, Option<seq<string>>>) returns (copied: Entries<string, seq<string>>)
    requires UniqueKeys(given)
    ensures copied == CopiedProfiles(given)
  {
    copied := [];
    for i := 0 to |given|
      invariant copied == CopiedProfiles(given[..i])
    {
      CopiedStep(given, i);
      copied := Put(copied, given[i].0, given[i].1.GetOr([]));
    }
    assert given[..|given|] == given;
  }

  /** `AutoTrashPlayerSettings` of the profile-based revision. Each profile
      is held as its item list. */
  class PlayerSettings {
    var dataVersion: int
    var profiles: Entries<string, seq<string>>
    var activeProfileName: string
    var enabled: bool
    var notify: bool
    var legacyExactItems: seq<string>

    /** A map never holds a name twice. */
    ghost predicate Valid()
      reads this
    {
      UniqueKeys(profiles)
    }

    /** The settings as a value. */
    function Snapshot(): R.Record
      reads this
    {
      R.Record(dataVersion, profiles, activeProfileName, enabled, notify, legacyExactItems)
    }

    /** The field defaults: version 0, no profiles, active name "Default",
        both flags on, no legacy items. */
    constructor ()
      ensures Valid() && Snapshot() == R.Fresh()
    {
      dataVersion := 0;
      profiles := [];
      activeProfileName := R.DefaultProfileName;
      enabled := true;
      notify := true;
      legacyExactItems := [];
    }

    /** `migrateV0ToV1`. */
    method MigrateV0ToV1()
      requires Valid()
      modifies this
      ensures Valid() && Snapshot() == R.MigrateV0ToV1(old(Snapshot()))
    {
      // The source puts an empty "Default" profile when it is missing and
      // then overwrites that profile's list in place; as values this is one
      // put (ProfileRecord.MigrationPuts).
      var items := Get(profiles, R.DefaultProfileName).GetOr([]);
      if legacyExactItems != [] {
        items := legacyExactItems;
      }
      profiles := Put(profiles, R.DefaultProfileName, items);
      legacyExactItems := [];
      if IsBlank(activeProfileName) {
        activeProfileName := R.DefaultProfileName;
      }
    }

    /** `runMigrations`: nothing to do at version 1 or above; otherwise the
        version walks up, running the v0-to-v1 step from version 0 and
        jumping straight to the current version from any other value. */
    method RunMigrations()
      requires Valid()
      modifies this
      ensures Valid() && Snapshot() == R.RunMigrations(old(Snapshot()))
    {
      if dataVersion >= R.DataVersion {
        return;
      }
      ghost var start := Snapshot();
      var version := dataVersion;
      while version < R.DataVersion
        invariant Valid()
        invariant (version == start.version && Snapshot() == start)
                  || (version == R.DataVersion && dataVersion == start.version
                      && Snapshot().(version := R.DataVersion) == R.RunMigrations(start))
        decreases R.DataVersion - version
      {
        if version == 0 {
          MigrateV0ToV1();
          version := 1;
        } else {
          version := R.DataVersion;
        }
      }
      dataVersion := version;
    }

    /** `ensureProfiles`: migrate, then make sure a profile exists and the
        active name names one. */
    method EnsureProfiles()
      requires Valid()
      modifies this
      ensures Valid() && Snapshot() == R.EnsureProfiles(old(Snapshot()))
      ensures R.Healthy(Snapshot())
    {
      RunMigrations();
      if profiles == [] {
        profiles := [(R.DefaultProfileName, [])];
      }
      if IsBlank(activeProfileName) || !HasKey(profiles, activeProfileName) {
        activeProfileName := profiles[0].0;
      }
    }

    /** `getActiveProfile`: the active profile's item list, after
        self-healing. */
    method GetActiveProfile() returns (items: seq<string>)
      requires Valid()
      modifies this
      ensures Valid() && Snapshot() == R.EnsureProfiles(old(Snapshot()))
      ensures R.Healthy(Snapshot()) && items == R.ActiveItems(Snapshot())
    {
      EnsureProfiles();
      items := Get(profiles, activeProfileName).value;
    }

    /** `getActiveProfileName`: after self-healing, a name that names a
        profile. */
    method GetActiveProfileName() returns (name: string)
      requires Valid()
      modifies this
      ensures Valid() && Snapshot() == R.EnsureProfiles(old(Snapshot()))
      ensures name == activeProfileName && HasKey(profiles, name)
    {
      EnsureProfiles();
      name := activeProfileName;
    }

    /** `activateProfile`: the exact (untrimmed) name must name a profile. */
    method ActivateProfile(name: string) returns (ok: bool)
      requires Valid()
      modifies this
      ensures Valid() && (Snapshot(), ok) == R.ActivateProfile(old(Snapshot()), name)
    {
      EnsureProfiles();
      if IsBlank(name) {
        return false;
      }
      if !HasKey(profiles, name) {
        return false;
      }
      activeProfileName := name;
      return true;
    }

    /** `getProfileNames`: the names in insertion order. */
    method GetProfileNames() returns (names: seq<string>)
      requires Valid()
      modifies this
      ensures Valid() && Snapshot() == R.EnsureProfiles(old(Snapshot()))
      ensures |names| == |profiles| && names != [] && activeProfileName in names
      ensures forall i :: 0 <= i < |names| ==> names[i] == profiles[i].0
    {
      EnsureProfiles();
      names := Keys(profiles);
    }

    /** `getProfileCount`. */
    method GetProfileCount() returns (count: int)
      requires Valid()
      modifies this
      ensures Valid() && Snapshot() == R.EnsureProfiles(old(Snapshot()))
      ensures count == |profiles| && count >= 1
    {
      EnsureProfiles();
      count := |profiles|;
    }

    /** `isProfileLimitReached`: 50 or more profiles. */
    method IsProfileLimitReached() returns (reached: bool)
      requires Valid()
      modifies this
      ensures Valid() && Snapshot() == R.EnsureProfiles(old(Snapshot()))
      ensures reached <==> |profiles| >= R.MaxProfiles
    {
      EnsureProfiles();
      reached := |profiles| >= R.MaxProfiles;
    }

    /** `createProfile`; the one-argument overload is `duplicate == false`. */
    method CreateProfile(name: string, duplicate: bool) returns (result: R.ProfileActionResult)
      requires Valid()
      modifies this
      ensures Valid() && (Snapshot(), result) == R.CreateProfile(old(Snapshot()), name, duplicate)
    {
      EnsureProfiles();
      if IsBlank(name) {
        return R.NameEmpty;
      }
      var trimmed := Trim(name);
      if trimmed == [] {
        return R.NameEmpty;
      }
      if HasKey(profiles, trimmed) {
        return R.NameTaken;
      }
      if |profiles| >= R.MaxProfiles {
        return R.LimitReached;
      }
      var items: seq<string> := [];
      if duplicate {
        items := GetActiveProfile();
      }
      AddProfile(trimmed, items);
      result := if duplicate then R.Duplicated else R.Created;
    }

    /** The tail of `createProfile`: put the new profile, make it active and
        stamp version 1. */
    method AddProfile(name: string, items: seq<string>)
      requires Valid()
      modifies this
      ensures Valid() && Snapshot() == R.WithNewProfile(old(Snapshot()), name, items)
    {
      PutKeepsKeysUnique(profiles, name, items);
      profiles := Put(profiles, name, items);
      activeProfileName := name;
      dataVersion := R.DataVersion;
    }

    /** `renameProfile`. */
    method RenameProfile(current: string, newName: string) returns (result: R.ProfileActionResult)
      requires Valid()
      modifies this
      ensures Valid() && (Snapshot(), result) == R.RenameProfile(old(Snapshot()), current, newName)
    {
      EnsureProfiles();
      if IsBlank(current) {
        return R.NotFound;
      }
      if IsBlank(newName) {
        return R.NameEmpty;
      }
      var trimmedNew := Trim(newName);
      if trimmedNew == [] {
        return R.NameEmpty;
      }
      var trimmedCurrent := Trim(current);
      if trimmedCurrent == [] {
        return R.NotFound;
      }
      var profile := Get(profiles, trimmedCurrent);
      if profile.None? {
        return R.NotFound;
      }
      if trimmedCurrent != trimmedNew && HasKey(profiles, trimmedNew) {
        return R.NameTaken;
      }
      if trimmedCurrent == trimmedNew {
        return R.Renamed;
      }
      MoveProfile(trimmedCurrent, trimmedNew, profile.value);
      return R.Renamed;
    }

    /** The tail of `renameProfile`: re-key the entry under the new name at
        the end of the map, follow it with the active name, stamp version 1. */
    method MoveProfile(from: string, to: string, items: seq<string>)
      requires R.Healthy(Snapshot()) && Get(profiles, from) == Some(items)
      requires from != to && !HasKey(profiles, to)
      modifies this
      ensures Valid() && Snapshot() == R.MoveProfile(old(Snapshot()), from, to, items)
    {
      profiles := Remove(profiles, from);
      PutKeepsKeysUnique(profiles, to, items);
      profiles := Put(profiles, to, items);
      if from == activeProfileName {
        activeProfileName := to;
      }
      dataVersion := R.DataVersion;
    }

    /** `deleteProfile`. */
    method DeleteProfile(name: string) returns (result: R.ProfileActionResult)
      requires Valid()
      modifies this
      ensures Valid() && (Snapshot(), result) == R.DeleteProfile(old(Snapshot()), name)
    {
      EnsureProfiles();
      if IsBlank(name) {
        return R.NotFound;
      }
      var trimmed := Trim(name);
      if trimmed == [] || !HasKey(profiles, trimmed) {
        return R.NotFound;
      }
      if |profiles| <= 1 {
        return R.LastProfile;
      }
      RemoveEntry(trimmed);
      return R.Deleted;
    }

    /** The removal step of `deleteProfile` for a present name with another
        profile left. */
    method RemoveEntry(name: string)
      requires Valid() && HasKey(profiles, name) && |profiles| >= 2
      modifies this
      ensures Valid() && Snapshot() == R.RemoveProfile(old(Snapshot()), name)
    {
      profiles := Remove(profiles, name);
      if !HasKey(profiles, activeProfileName) {
        activeProfileName := profiles[0].0;
      }
      dataVersion := R.DataVersion;
    }

    /** `getProfiles`: the profile map, after self-healing. */
    method GetProfiles() returns (ps: Entries<string, seq<string>>)
      requires Valid()
      modifies this
      ensures Valid() && Snapshot() == R.EnsureProfiles(old(Snapshot()))
      ensures ps == profiles && ps != [] && HasKey(ps, activeProfileName)
    {
      EnsureProfiles();
      ps := profiles;
    }

    /** `setProfiles`: a null map becomes an empty one; otherwise the entries
        are copied in order, a null profile becoming an empty one. */
    method SetProfiles(given: Option<Entries<string, Option<seq<string>>>>)
      requires given.Some? ==> UniqueKeys(given.value)
      modifies this
      ensures Valid()
      ensures Snapshot() == old(Snapshot()).(profiles := if given.None? then [] else CopiedProfiles(given.value))
    {
      if given.None? {
        profiles := [];
        return;
      }
      CopiedKeepsKeys(given.value);
      profiles := CopyEntries(given.value);
    }

    /** `setDataVersion`. */
    method SetDataVersion(version: int)
      modifies this
      ensures Snapshot() == old(Snapshot()).(version := version)
    {
      dataVersion := version;
    }

    /** `getDataVersion`: runs the migrations first. */
    method GetDataVersion() returns (version: int)
      requires Valid()
      modifies this
      ensures Valid() && Snapshot() == R.RunMigrations(old(Snapshot()))
      ensures version == dataVersion && version >= R.DataVersion
    {
      RunMigrations();
      version := dataVersion;
    }

    /** `setActiveProfileName`: stored as given, without any check. */
    method SetActiveProfileName(name: string)
      modifies this
      ensures Snapshot() == old(Snapshot()).(active := name)
    {
      activeProfileName := name;
    }

    /** `copy`: a new object with this one's version, active name, flags and
        profiles (every profile copied), and no legacy items. It reads the
        fields directly, so nothing is self-healed first. */
    method Copy() returns (settings: PlayerSettings)
      requires Valid()
      ensures fresh(settings) && settings.Valid()
      ensures settings.Snapshot() == Snapshot().(legacy := [])
    {
      settings := new PlayerSettings();
      settings.dataVersion := dataVersion;
      settings.activeProfileName := activeProfileName;
      settings.enabled := enabled;
      settings.notify := notify;
      settings.profiles := profiles;
    }

    /** `clone`: the same as `copy`. */
    method Clone() returns (settings: PlayerSettings)
      requires Valid()
      ensures fresh(settings) && settings.Valid()
      ensures settings.Snapshot() == Snapshot().(legacy := [])
    {
      settings := Copy();
    }

    /** `setEnabled`. */
    method SetEnabled(on: bool)
      modifies this
      ensures Snapshot() == old(Snapshot()).(enabled := on)
    {
      enabled := on;
    }

    /** `setNotify`. */
    method SetNotify(on: bool)
      modifies this
      ensures Snapshot() == old(Snapshot()).(notify := on)
    {
      notify := on;
    }

    /** `setLegacyExactItems`: a null list is stored as an empty one. */
    method SetLegacyExactItems(items: Option<seq<string>>)
      modifies this
      ensures Snapshot() == old(Snapshot()).(legacy := items.GetOr([]))
    {
      legacyExactItems := items.GetOr([]);
    }

    /** `AutoTrashProfile.setExactItems` called on the object `getActiveProfile`
        returned: the active entry's list is replaced in place. */
    method SetActiveExactItems(items: seq<string>)
      requires R.Healthy(Snapshot())
      modifies this
      ensures Valid() && Snapshot() == R.WithActiveItems(old(Snapshot()), items)
    {
      PutKeepsKeysUnique(profiles, activeProfileName, items);
      profiles := Put(profiles, activeProfileName, items);
    }

    /** `addExactItem`: scan the active list for the id and append it when
        no entry equals it. */
    method AddExactItem(id: string) returns (added: bool)
      requires Valid()
      modifies this
      ensures Valid() && (Snapshot(), added) == R.AddExactItem(old(Snapshot()), id)
    {
      var existing := GetActiveProfile();
      for i := 0 to |existing|
        invariant id !in existing[..i]
      {
        if existing[i] == id {
          return false;
        }
      }
      assert existing[..|existing|] == existing;
      PutKeepsKeysUnique(profiles, activeProfileName, existing + [id]);
      profiles := Put(profiles, activeProfileName, existing + [id]);
      return true;
    }

    /** `removeExactItem`: copy every entry that differs from the id, and
        store the copy only when some entry was dropped. */
    method RemoveExactItem(id: string) returns (removed: bool)
      requires Valid()
      modifies this
      ensures Valid() && (Snapshot(), removed) == R.RemoveExactItem(old(Snapshot()), id)
    {
      var items := GetActiveProfile();
      var updated: seq<string> := [];
      removed := false;
      for i := 0 to |items|
        invariant updated == R.Without(items[..i], id)
        invariant removed <==> id in items[..i]
      {
        assert items[..i + 1][..i] == items[..i];
        if items[i] == id {
          removed := true;
          continue;
        }
        updated := updated + [items[i]];
      }
      assert items[..|items|] == items;
      if removed {
        PutKeepsKeysUnique(profiles, activeProfileName, updated);
        profiles := Put(profiles, activeProfileName, updated);
      }
    }
  }
}
