/**
 * The per-player profile store as a value: named exact-item rule lists in
 * insertion order, an active-profile pointer, the enabled and notify flags,
 * a schema version and the legacy flat item list kept only for migration.
 * Every operation of the store is stated here on `Record`; the mutable
 * classes in module ProfileStore are proved to follow these functions.
 */
module ProfileRecord {
  import opened Wrappers
  import opened LinkedMaps
  import opened JavaStrings

  /** The most profiles `createProfile` allows. */
  const MaxProfiles := 50
  /** The profile created on first use and by migration. */
  const DefaultProfileName := "Default"
  /** The current schema version. */
  const DataVersion := 1

  /** The outcome codes of the profile operations. */
  datatype ProfileActionResult =
    | Created | Duplicated | Renamed | Deleted
    | NameEmpty | NameTaken | LimitReached | NotFound | LastProfile
  {
    predicate IsSuccess() {
      this in {Created, Duplicated, Renamed, Deleted}
    }
  }

  /** The whole settings record as a value. */
  datatype Record = Record(
    version: int,
    profiles: Entries<string, seq<string>>,
    active: string,
    enabled: bool,
    notify: bool,
    legacy: seq<string>)

  /** What every public read guarantees: unique names, at least one profile,
      an active name that is one of them, and the current schema version. */
  ghost predicate Healthy(r: Record) {
    && UniqueKeys(r.profiles)
    && |r.profiles| >= 1
    && HasKey(r.profiles, r.active)
    && r.version >= DataVersion
  }

  /** The item list of the active profile of a healthy record. */
  function ActiveItems(r: Record): seq<string>
    requires HasKey(r.profiles, r.active)
  {
    Get(r.profiles, r.active).value
  }

  /** The record with the active profile's item list replaced in place. */
  function WithActiveItems(r: Record, items: seq<string>): (w: Record)
    requires Healthy(r)
    ensures Healthy(w)
  {
    PutKeepsKeysUnique(r.profiles, r.active, items);
    r.(profiles := Put(r.profiles, r.active, items))
  }

  /** Only the active profile's list changes; names, their order and every
      other list stay. */
  lemma WithActiveItemsEffect(r: Record, items: seq<string>)
    requires Healthy(r)
    ensures var w := WithActiveItems(r, items);
            && Keys(w.profiles) == Keys(r.profiles) && ActiveItems(w) == items
            && (forall k :: k != r.active ==> Get(w.profiles, k) == Get(r.profiles, k))
            && w == r.(profiles := w.profiles)
  {
    PutKeepsKeysUnique(r.profiles, r.active, items);
    var w := WithActiveItems(r, items);
    assert Keys(w.profiles) == Keys(r.profiles);
  }

  // ---------------------------------------------------------------------------
  // Migration and self-healing
  // ---------------------------------------------------------------------------

  /** `migrateV0ToV1`: make sure a "Default" profile exists, move a non-empty
      legacy list into it verbatim, clear the legacy list, and point a blank
      active name at "Default". */
  function MigrateV0ToV1(r: Record): (m: Record)
    requires UniqueKeys(r.profiles)
    ensures UniqueKeys(m.profiles)
  {
    var items := if r.legacy != [] then r.legacy else Get(r.profiles, DefaultProfileName).GetOr([]);
    PutKeepsKeysUnique(r.profiles, DefaultProfileName, items);
    r.(profiles := Put(r.profiles, DefaultProfileName, items),
       legacy := [],
       active := if IsBlank(r.active) then DefaultProfileName else r.active)
  }

  /** What the v0-to-v1 step does: "Default" exists afterwards (appended
      when it was missing), holds the legacy list when that was non-empty and
      otherwise what it held before; every other profile and the flags are
      untouched, the legacy list is emptied and a blank active name becomes
      "Default". */
  lemma MigrationEffect(r: Record)
    requires UniqueKeys(r.profiles)
    ensures var m := MigrateV0ToV1(r);
            && (HasKey(r.profiles, DefaultProfileName) ==> Keys(m.profiles) == Keys(r.profiles))
            && (!HasKey(r.profiles, DefaultProfileName) ==> Keys(m.profiles) == Keys(r.profiles) + [DefaultProfileName])
            && Get(m.profiles, DefaultProfileName)
               == Some(if r.legacy != [] then r.legacy else Get(r.profiles, DefaultProfileName).GetOr([]))
            && (forall k :: k != DefaultProfileName ==> Get(m.profiles, k) == Get(r.profiles, k))
            && m.legacy == []
            && m.active == (if IsBlank(r.active) then DefaultProfileName else r.active)
            && m.version == r.version && m.enabled == r.enabled && m.notify == r.notify
  {
    var items := if r.legacy != [] then r.legacy else Get(r.profiles, DefaultProfileName).GetOr([]);
    PutKeepsKeysUnique(r.profiles, DefaultProfileName, items);
    PutKeys(r.profiles, DefaultProfileName, items);
  }

  /** The two puts the migration performs in place, "Default" created empty
      when absent and then overwritten by a non-empty legacy list, amount to
      the single put of `MigrateV0ToV1`. */
  lemma MigrationPuts(ps: Entries<string, seq<string>>, legacy: seq<string>)
    requires UniqueKeys(ps)
    ensures var created := if HasKey(ps, DefaultProfileName) then ps else Put(ps, DefaultProfileName, []);
            var filled := if legacy != [] then Put(created, DefaultProfileName, legacy) else created;
            filled == Put(ps, DefaultProfileName, if legacy != [] then legacy else Get(ps, DefaultProfileName).GetOr([]))
  {
    if HasKey(ps, DefaultProfileName) {
      PutSame(ps, DefaultProfileName, Get(ps, DefaultProfileName).value);
    } else {
      PutPut(ps, DefaultProfileName, [], legacy);
    }
  }

  /** `runMigrations`: from version 0 the v0-to-v1 step runs; any other
      version below 1 jumps to 1 without it; version 1 and above are left
      alone. The version never goes down and ends at least at 1. */
  function RunMigrations(r: Record): (m: Record)
    requires UniqueKeys(r.profiles)
    ensures UniqueKeys(m.profiles)
    ensures m.version == if r.version >= DataVersion then r.version else DataVersion
  {
    if r.version >= DataVersion then r
    else if r.version == 0 then MigrateV0ToV1(r).(version := DataVersion)
    else r.(version := DataVersion)
  }

  /** `ensureProfiles`: migrate, add an empty "Default" profile when there is
      none at all, and reset a blank or unknown active name to the first name
      in insertion order. Afterwards the record is healthy. */
  function EnsureProfiles(r: Record): (e: Record)
    requires UniqueKeys(r.profiles)
    ensures Healthy(e)
  {
    var m := RunMigrations(r);
    var ps := if m.profiles == [] then [(DefaultProfileName, [])] else m.profiles;
    var active := if IsBlank(m.active) || !HasKey(ps, m.active) then ps[0].0 else m.active;
    assert HasKey(ps, ps[0].0);
    m.(profiles := ps, active := active)
  }

  /** After self-healing the profiles are the migrated ones, or a single
      empty "Default" when there were none; a non-blank active name that
      names a profile is kept, any other becomes the first name in insertion
      order; nothing else changes. */
  lemma EnsureProfilesEffect(r: Record)
    requires UniqueKeys(r.profiles)
    ensures var m := RunMigrations(r); var e := EnsureProfiles(r);
            && (m.profiles != [] ==> e.profiles == m.profiles)
            && (m.profiles == [] ==> e.profiles == [(DefaultProfileName, [])])
            && (!IsBlank(m.active) && HasKey(m.profiles, m.active) ==> e.active == m.active)
            && (IsBlank(m.active) || !HasKey(e.profiles, m.active) ==> e.active == Keys(e.profiles)[0])
            && e == m.(profiles := e.profiles, active := e.active)
  {
  }

  /** A healthy record whose active name is not blank is left as it is. */
  lemma EnsureKeepsHealthy(r: Record)
    requires Healthy(r) && !IsBlank(r.active)
    ensures EnsureProfiles(r) == r
  {
  }

  /** Self-healing twice is self-healing once. */
  lemma EnsureIdempotent(r: Record)
    requires UniqueKeys(r.profiles)
    ensures EnsureProfiles(EnsureProfiles(r)) == EnsureProfiles(r)
  {
    var e := EnsureProfiles(r);
    assert RunMigrations(e) == e;
    if IsBlank(e.active) {
      // The active name was reset to the first key and is reset to it again.
      assert e.active == e.profiles[0].0;
    }
  }

  /** A fresh settings object: version 0, no profiles, active name
      "Default", both flags on and no legacy items. */
  function Fresh(): Record {
    Record(0, [], DefaultProfileName, true, true, [])
  }

  /** The first read of a fresh object migrates it to a single empty
      "Default" profile at version 1. */
  lemma FreshGetsDefaultProfile(r: Record)
    requires r == Fresh()
    ensures EnsureProfiles(r) == Record(DataVersion, [(DefaultProfileName, [])], DefaultProfileName, true, true, [])
  {
    assert !IsWhitespace(DefaultProfileName[0]);
    var m := MigrateV0ToV1(r);
    assert m.profiles == [(DefaultProfileName, [])];
    assert HasKey(m.profiles, DefaultProfileName) by {
      assert m.profiles[0].0 == DefaultProfileName;
    }
    assert m.active == DefaultProfileName && !IsBlank(m.active);
    assert RunMigrations(r) == m.(version := DataVersion);
  }

  /** A version-0 record holding only a legacy list becomes a "Default"
      profile with that list, made active, at version 1. */
  lemma LegacyListMigrates(legacy: seq<string>)
    requires legacy != []
    ensures EnsureProfiles(Record(0, [], "", true, false, legacy))
            == Record(DataVersion, [(DefaultProfileName, legacy)], DefaultProfileName, true, false, [])
  {
    var r := Record(0, [], "", true, false, legacy);
    var m := MigrateV0ToV1(r);
    assert Keys(m.profiles) == [DefaultProfileName];
    assert m.profiles == [(DefaultProfileName, legacy)];
  }

  /** Migration never lowers the version, and once it has run it is a no-op. */
  lemma MigrationsForwardOnly(r: Record)
    requires UniqueKeys(r.profiles)
    ensures RunMigrations(r).version >= r.version && RunMigrations(r).version >= DataVersion
    ensures RunMigrations(RunMigrations(r)) == RunMigrations(r)
  {
  }

  /** The profile cap is checked only when a profile is created: the
      migration adds "Default" unchecked, so a version-0 record holding 50
      other profiles heals to 51. */
  lemma MigrationCanPassTheLimit(r: Record)
    requires r.version == 0 && UniqueKeys(r.profiles)
    requires |r.profiles| == MaxProfiles && !HasKey(r.profiles, DefaultProfileName)
    ensures |EnsureProfiles(r).profiles| == MaxProfiles + 1
  {
    MigrationEffect(r);
    var m := MigrateV0ToV1(r);
    assert |Keys(m.profiles)| == |Keys(r.profiles)| + 1;
  }

  /** Creating a profile stamps the current data version without comparing
      it, so a record written by a newer version is stamped back down;
      renaming and deleting do the same. */
  lemma CreateStampsVersionDown(r: Record)
    requires r == Record(2, [("A", [])], "A", true, true, [])
    ensures CreateProfile(r, "B", false).1 == Created
    ensures CreateProfile(r, "B", false).0.version == DataVersion < r.version
  {
    assert !IsWhitespace("A"[0]) && !IsWhitespace("B"[0]);
    assert HasKey(r.profiles, "A") by { assert r.profiles[0].0 == "A"; }
    assert EnsureProfiles(r) == r;
    assert Trim("B") == "B";
    assert !HasKey(r.profiles, "B");
  }

  // ---------------------------------------------------------------------------
  // Profile operations
  // ---------------------------------------------------------------------------

  /** The null-or-blank test the source applies to every incoming name. */
  predicate NameMissing(name: string) {
    IsBlank(name) || Trim(name) == []
  }

  /** `createProfile`: on success the trimmed name is appended, made active
      and the version set to 1; the new profile is empty, or holds the
      active profile's items when duplicating. On failure the record is
      only self-healed. */
  function CreateProfile(r: Record, name: string, duplicate: bool): (out: (Record, ProfileActionResult))
    requires UniqueKeys(r.profiles)
    ensures Healthy(out.0)
  {
    var e := EnsureProfiles(r);
    if IsBlank(name) then (e, NameEmpty)
    else
      var trimmed := Trim(name);
      if trimmed == [] then (e, NameEmpty)
      else if HasKey(e.profiles, trimmed) then (e, NameTaken)
      else if |e.profiles| >= MaxProfiles then (e, LimitReached)
      else
        // Duplicating reads the active profile through `getActiveProfile`,
        // which self-heals once more.
        var source := if duplicate then EnsureProfiles(e) else e;
        var items := if duplicate then ActiveItems(source) else [];
        (WithNewProfile(source, trimmed, items), if duplicate then Duplicated else Created)
  }

  /** The tail of a successful create: the new entry is put under its name,
      made active, and the version is stamped 1. */
  function WithNewProfile(e: Record, name: string, items: seq<string>): (n: Record)
    requires UniqueKeys(e.profiles)
    ensures Healthy(n)
  {
    PutKeepsKeysUnique(e.profiles, name, items);
    e.(profiles := Put(e.profiles, name, items), active := name, version := DataVersion)
  }

  /** The checks of `createProfile` in their order (empty name, name taken,
      limit reached), the store left only self-healed on each failure, and
      on success the trimmed name appended with an empty list or a copy of
      the active list, made active, at version 1. */
  lemma CreateOutcome(r: Record, name: string, duplicate: bool)
    requires UniqueKeys(r.profiles)
    ensures var (n, res) := CreateProfile(r, name, duplicate); var e := EnsureProfiles(r);
            && (res == NameEmpty <==> NameMissing(name))
            && (res == NameTaken <==> !NameMissing(name) && HasKey(e.profiles, Trim(name)))
            && (res == LimitReached <==> !NameMissing(name) && !HasKey(e.profiles, Trim(name))
                                         && |e.profiles| >= MaxProfiles)
            && (res in {Created, Duplicated} <==> !NameMissing(name) && !HasKey(e.profiles, Trim(name))
                                                  && |e.profiles| < MaxProfiles)
            && (res == Duplicated ==> duplicate) && (res == Created ==> !duplicate)
            && (!res.IsSuccess() ==> n == e)
            && (res.IsSuccess() ==>
                  && n.profiles == e.profiles + [(Trim(name), if duplicate then ActiveItems(e) else [])]
                  && n == e.(profiles := n.profiles, active := Trim(name), version := DataVersion))
  {
    EnsureIdempotent(r);
  }

  /** `renameProfile`: checks the current name, then the new name, then
      existence and collision; a rename to the same trimmed name succeeds
      without change; a real rename removes the entry and puts it back under
      the new name, so it moves to the end, and the active pointer follows it
      only if it named the old profile. */
  function RenameProfile(r: Record, current: string, newName: string): (out: (Record, ProfileActionResult))
    requires UniqueKeys(r.profiles)
    ensures Healthy(out.0)
  {
    var e := EnsureProfiles(r);
    if IsBlank(current) then (e, NotFound)
    else if IsBlank(newName) then (e, NameEmpty)
    else
      var trimmedNew := Trim(newName);
      if trimmedNew == [] then (e, NameEmpty)
      else
        var trimmedCurrent := Trim(current);
        if trimmedCurrent == [] then (e, NotFound)
        else match Get(e.profiles, trimmedCurrent)
          case None => (e, NotFound)
          case Some(items) =>
            if trimmedCurrent != trimmedNew && HasKey(e.profiles, trimmedNew) then (e, NameTaken)
            else if trimmedCurrent == trimmedNew then (e, Renamed)
            else (MoveProfile(e, trimmedCurrent, trimmedNew, items), Renamed)
  }

  /** The checks of `renameProfile` in their order, the store left only
      self-healed on each failure and on a rename to the same trimmed name. */
  lemma RenameOutcome(r: Record, current: string, newName: string)
    requires UniqueKeys(r.profiles)
    ensures var (n, res) := RenameProfile(r, current, newName); var e := EnsureProfiles(r);
            && res in {Renamed, NotFound, NameEmpty, NameTaken}
            && (res != Renamed ==> n == e)
            && (res == NotFound <==>
                  IsBlank(current)
                  || (!NameMissing(newName) && (Trim(current) == [] || !HasKey(e.profiles, Trim(current)))))
            && (res == NameEmpty <==> !IsBlank(current) && NameMissing(newName))
            && (res == NameTaken <==>
                  && !IsBlank(current) && !NameMissing(newName)
                  && Trim(current) != [] && HasKey(e.profiles, Trim(current))
                  && Trim(current) != Trim(newName) && HasKey(e.profiles, Trim(newName)))
            && (res == Renamed && Trim(current) == Trim(newName) ==> n == e)
            && (res == Renamed && Trim(current) != Trim(newName) ==>
                  n == MoveProfile(e, Trim(current), Trim(newName), Get(e.profiles, Trim(current)).value))
  {
    var e := EnsureProfiles(r);
    if !IsBlank(current) && !NameMissing(newName) && Trim(current) != [] && HasKey(e.profiles, Trim(current)) {
      RenameChecksPassed(r, current, newName);
    }
  }

  /** Past the name checks, a rename either finds the new name taken, keeps
      the same trimmed name, or moves the entry. */
  lemma RenameChecksPassed(r: Record, current: string, newName: string)
    requires UniqueKeys(r.profiles)
    requires var e := EnsureProfiles(r);
             !IsBlank(current) && !NameMissing(newName) && Trim(current) != [] && HasKey(e.profiles, Trim(current))
    ensures var (n, res) := RenameProfile(r, current, newName); var e := EnsureProfiles(r);
            && (res == NameTaken <==> Trim(current) != Trim(newName) && HasKey(e.profiles, Trim(newName)))
            && (res != NameTaken ==> res == Renamed)
            && (res == NameTaken ==> n == e)
            && (res == Renamed && Trim(current) == Trim(newName) ==> n == e)
            && (res == Renamed && Trim(current) != Trim(newName) ==>
                  n == MoveProfile(e, Trim(current), Trim(newName), Get(e.profiles, Trim(current)).value))
  {
  }

  /** The record after a real rename of `from` to the unused name `to`. */
  function MoveProfile(e: Record, from: string, to: string, items: seq<string>): (n: Record)
    requires Healthy(e) && Get(e.profiles, from) == Some(items)
    requires from != to && !HasKey(e.profiles, to)
    ensures Healthy(n)
  {
    var rest := Remove(e.profiles, from);
    assert !HasKey(rest, to) by { assert Get(rest, to) == Get(e.profiles, to); }
    PutKeepsKeysUnique(rest, to, items);
    var ps := Put(rest, to, items);
    var active := if from == e.active then to else e.active;
    assert Get(ps, active).Some?;
    e.(profiles := ps, active := active, version := DataVersion)
  }

  /** A real rename keeps the number of profiles, moves the renamed entry
      with its items to the end, leaves every other profile as it was and in
      its order, and retargets the active pointer only if it named the old
      profile. */
  lemma MoveProfileEffect(e: Record, from: string, to: string, items: seq<string>)
    requires Healthy(e) && Get(e.profiles, from) == Some(items)
    requires from != to && !HasKey(e.profiles, to)
    ensures var n := MoveProfile(e, from, to, items);
            && |n.profiles| == |e.profiles| && n.profiles[|n.profiles| - 1] == (to, items)
            && (var i := IndexOf(e.profiles, from);
                Keys(n.profiles) == Keys(e.profiles)[..i] + Keys(e.profiles)[i + 1..] + [to])
            && !HasKey(n.profiles, from)
            && (forall k :: k != from && k != to ==> Get(n.profiles, k) == Get(e.profiles, k))
            && n.active == (if e.active == from then to else e.active)
            && n == e.(profiles := n.profiles, active := n.active, version := DataVersion)
  {
    var rest := Remove(e.profiles, from);
    assert !HasKey(rest, to) by { assert Get(rest, to) == Get(e.profiles, to); }
    PutKeepsKeysUnique(rest, to, items);
    PutKeys(rest, to, items);
    assert Put(rest, to, items) == rest + [(to, items)];
  }

  /** `deleteProfile`: an unknown name is NOT_FOUND, the last profile cannot
      go, otherwise the entry is removed and, if it was active, the active
      pointer falls back to the first remaining name. */
  function DeleteProfile(r: Record, name: string): (out: (Record, ProfileActionResult))
    requires UniqueKeys(r.profiles)
    ensures Healthy(out.0)
  {
    var e := EnsureProfiles(r);
    if IsBlank(name) then (e, NotFound)
    else
      var trimmed := Trim(name);
      if trimmed == [] || !HasKey(e.profiles, trimmed) then (e, NotFound)
      else if |e.profiles| <= 1 then (e, LastProfile)
      else (RemoveProfile(e, trimmed), Deleted)
  }

  /** The profile `name` taken out; the active pointer falls back to the
      first remaining profile when it named the removed one. */
  function RemoveProfile(e: Record, name: string): (n: Record)
    requires UniqueKeys(e.profiles) && HasKey(e.profiles, name) && |e.profiles| >= 2
    ensures Healthy(n)
  {
    var ps := Remove(e.profiles, name);
    assert HasKey(ps, ps[0].0);
    var active := if HasKey(ps, e.active) then e.active else ps[0].0;
    e.(profiles := ps, active := active, version := DataVersion)
  }

  /** The outcomes of `deleteProfile`: an unknown name, the last profile,
      or the entry removed with the active pointer falling back to the first
      remaining name exactly when it named the deleted profile. */
  lemma DeleteOutcome(r: Record, name: string)
    requires UniqueKeys(r.profiles)
    ensures var (n, res) := DeleteProfile(r, name); var e := EnsureProfiles(r);
            && res in {Deleted, NotFound, LastProfile}
            && (res == NotFound <==> NameMissing(name) || !HasKey(e.profiles, Trim(name)))
            && (res == LastProfile <==> !NameMissing(name) && HasKey(e.profiles, Trim(name)) && |e.profiles| == 1)
            && (res != Deleted ==> n == e)
            && (res == Deleted ==>
                  && n.profiles == Remove(e.profiles, Trim(name))
                  && |n.profiles| == |e.profiles| - 1
                  && !HasKey(n.profiles, Trim(name))
                  && n.active == (if e.active == Trim(name) then n.profiles[0].0 else e.active)
                  && n == e.(profiles := n.profiles, active := n.active, version := DataVersion))
  {
    var e := EnsureProfiles(r);
    var trimmed := Trim(name);
    if !NameMissing(name) && HasKey(e.profiles, trimmed) && |e.profiles| > 1 {
      var ps := Remove(e.profiles, trimmed);
      assert e.active != trimmed ==> Get(ps, e.active) == Get(e.profiles, e.active);
    }
  }

  /** `activateProfile`: a blank or unknown name (not trimmed) changes
      nothing beyond self-healing and answers false. */
  function ActivateProfile(r: Record, name: string): (out: (Record, bool))
    requires UniqueKeys(r.profiles)
    ensures var (n, ok) := out; var e := EnsureProfiles(r);
            && Healthy(n)
            && (ok <==> !IsBlank(name) && HasKey(e.profiles, name))
            && (ok ==> n == e.(active := name))
            && (!ok ==> n == e)
  {
    var e := EnsureProfiles(r);
    if IsBlank(name) || !HasKey(e.profiles, name) then (e, false)
    else (e.(active := name), true)
  }

  // ---------------------------------------------------------------------------
  // Exact-item edits on the active profile
  // ---------------------------------------------------------------------------

  /** The list with every entry equal to `id` dropped. */
  function Without(items: seq<string>, id: string): (r: seq<string>)
    ensures id !in r && |r| <= |items|
    ensures forall x :: x in r <==> x in items && x != id
    ensures |r| == |items| <==> id !in items
    ensures id !in items ==> r == items
  {
    if items == [] then []
    else if items[|items| - 1] == id then Without(items[..|items| - 1], id)
    else Without(items[..|items| - 1], id) + [items[|items| - 1]]
  }

  /** Dropping distributes over concatenation, so the order of the kept
      entries is the order they had. */
  lemma {:induction false} WithoutAppend(a: seq<string>, b: seq<string>, id: string)
    ensures Without(a + b, id) == Without(a, id) + Without(b, id)
    decreases |b|
  {
    if b == [] {
      assert a + b == a;
    } else {
      var last := b[|b| - 1];
      assert (a + b)[..|a + b| - 1] == a + b[..|b| - 1];
      WithoutAppend(a, b[..|b| - 1], id);
    }
  }

  /** Each other entry keeps its number of occurrences. */
  lemma {:induction false} WithoutCounts(items: seq<string>, id: string)
    ensures multiset(Without(items, id)) == multiset(items)[id := 0]
  {
    if items != [] {
      var init := items[..|items| - 1];
      assert items == init + [items[|items| - 1]];
      WithoutCounts(init, id);
    }
  }

  /** `addExactItem`: an id already present changes nothing and answers
      false; otherwise it is appended to the active profile. */
  function AddExactItem(r: Record, id: string): (out: (Record, bool))
    requires UniqueKeys(r.profiles)
    ensures var (n, added) := out; var e := EnsureProfiles(r);
            && Healthy(n)
            && (added <==> id !in ActiveItems(e))
            && (!added ==> n == e)
            && (added ==> ActiveItems(n) == ActiveItems(e) + [id])
            && (added ==> n == WithActiveItems(e, ActiveItems(e) + [id]))
  {
    var e := EnsureProfiles(r);
    var items := ActiveItems(e);
    if id in items then (e, false)
    else
      WithActiveItemsEffect(e, items + [id]);
      (WithActiveItems(e, items + [id]), true)
  }

  /** `removeExactItem`: every entry equal to the id leaves the active
      profile; the answer says whether there was one. */
  function RemoveExactItem(r: Record, id: string): (out: (Record, bool))
    requires UniqueKeys(r.profiles)
    ensures var (n, removed) := out; var e := EnsureProfiles(r);
            && Healthy(n)
            && (removed <==> id in ActiveItems(e))
            && (!removed ==> n == e)
            && ActiveItems(n) == Without(ActiveItems(e), id)
            && (removed ==> n == WithActiveItems(e, Without(ActiveItems(e), id)))
  {
    var e := EnsureProfiles(r);
    var items := ActiveItems(e);
    if id in items then
      WithActiveItemsEffect(e, Without(items, id));
      (WithActiveItems(e, Without(items, id)), true)
    else (e, false)
  }

  /** Adding an absent id and then removing it restores the record. */
  lemma AddThenRemove(r: Record, id: string)
    requires Healthy(r) && !IsBlank(r.active) && id !in ActiveItems(r)
    ensures RemoveExactItem(AddExactItem(r, id).0, id).0 == r
  {
    EnsureKeepsHealthy(r);
    var items := ActiveItems(r);
    var n := AddExactItem(r, id).0;
    WithoutAppend(items, [id], id);
    assert Without([id], id) == [];
    assert !IsBlank(n.active);
    EnsureKeepsHealthy(n);
    PutPut(r.profiles, r.active, items + [id], items);
    PutSame(r.profiles, r.active, items);
  }

  // ---------------------------------------------------------------------------
  // Sequences of operations
  // ---------------------------------------------------------------------------

  /** The public profile and item operations. */
  datatype Op =
    | Create(name: string, duplicate: bool)
    | Rename(current: string, newName: string)
    | Delete(name: string)
    | Activate(name: string)
    | AddItem(id: string)
    | RemoveItem(id: string)

  function Apply(r: Record, op: Op): (n: Record)
    requires UniqueKeys(r.profiles)
    ensures Healthy(n)
  {
    match op
    case Create(name, duplicate) => CreateProfile(r, name, duplicate).0
    case Rename(current, newName) => RenameProfile(r, current, newName).0
    case Delete(name) => DeleteProfile(r, name).0
    case Activate(name) => ActivateProfile(r, name).0
    case AddItem(id) => AddExactItem(r, id).0
    case RemoveItem(id) => RemoveExactItem(r, id).0
  }

  function ApplyAll(r: Record, ops: seq<Op>): (n: Record)
    requires UniqueKeys(r.profiles)
    ensures ops != [] ==> Healthy(n)
    decreases |ops|
  {
    if ops == [] then r else ApplyAll(Apply(r, ops[0]), ops[1..])
  }

  /** One operation keeps a migrated store within 1 to 50 profiles. */
  lemma ApplyKeepsCount(r: Record, op: Op)
    requires UniqueKeys(r.profiles) && r.version >= DataVersion && |r.profiles| <= MaxProfiles
    ensures 1 <= |Apply(r, op).profiles| <= MaxProfiles
  {
    EnsureProfilesEffect(r);
    match op {
      case Create(name, duplicate) => CreateOutcome(r, name, duplicate);
      case Rename(current, newName) => CountAfterRename(r, current, newName);
      case Delete(name) => DeleteOutcome(r, name);
      case Activate(name) =>
      case AddItem(id) => CountAfterItemEdit(r, id, true);
      case RemoveItem(id) => CountAfterItemEdit(r, id, false);
    }
  }

  lemma CountAfterRename(r: Record, current: string, newName: string)
    requires UniqueKeys(r.profiles) && r.version >= DataVersion && |r.profiles| <= MaxProfiles
    ensures 1 <= |RenameProfile(r, current, newName).0.profiles| <= MaxProfiles
  {
    EnsureProfilesEffect(r);
    var e := EnsureProfiles(r);
    RenameOutcome(r, current, newName);
    if RenameProfile(r, current, newName).1 == Renamed && Trim(current) != Trim(newName) {
      MoveProfileEffect(e, Trim(current), Trim(newName), Get(e.profiles, Trim(current)).value);
    }
  }

  lemma CountAfterItemEdit(r: Record, id: string, add: bool)
    requires UniqueKeys(r.profiles) && r.version >= DataVersion && |r.profiles| <= MaxProfiles
    ensures 1 <= |(if add then AddExactItem(r, id) else RemoveExactItem(r, id)).0.profiles| <= MaxProfiles
  {
    EnsureProfilesEffect(r);
    var e := EnsureProfiles(r);
    if add && id !in ActiveItems(e) {
      WithActiveItemsEffect(e, ActiveItems(e) + [id]);
      assert |Keys(AddExactItem(r, id).0.profiles)| == |Keys(e.profiles)|;
    } else if !add && id in ActiveItems(e) {
      WithActiveItemsEffect(e, Without(ActiveItems(e), id));
      assert |Keys(RemoveExactItem(r, id).0.profiles)| == |Keys(e.profiles)|;
    }
  }


  /** However profiles are created, renamed and deleted, a store that starts
      migrated with at most 50 profiles never has fewer than 1 or more than
      50. */
  lemma {:induction false} CountStaysInRange(r: Record, ops: seq<Op>)
    requires UniqueKeys(r.profiles) && r.version >= DataVersion && |r.profiles| <= MaxProfiles
    requires ops != []
    ensures 1 <= |ApplyAll(r, ops).profiles| <= MaxProfiles
    decreases |ops|
  {
    ApplyKeepsCount(r, ops[0]);
    if |ops| > 1 {
      CountStaysInRange(Apply(r, ops[0]), ops[1..]);
    }
  }

  /** Deleting the only profile is refused and leaves the store as it is. */
  lemma DeleteSoleProfile(r: Record, name: string)
    requires Healthy(r) && !IsBlank(r.active) && |r.profiles| == 1
    requires !NameMissing(name) && Trim(name) == r.active
    ensures DeleteProfile(r, name) == (r, LastProfile)
  {
    EnsureKeepsHealthy(r);
  }

  /** A successful delete moves the active pointer exactly when it named the
      deleted profile. */
  lemma DeleteRetargetsOnlyActive(r: Record, name: string)
    requires UniqueKeys(r.profiles)
    requires !NameMissing(name) && HasKey(EnsureProfiles(r).profiles, Trim(name))
    requires |EnsureProfiles(r).profiles| > 1
    ensures DeleteProfile(r, name).1 == Deleted
    ensures var e := EnsureProfiles(r);
            DeleteProfile(r, name).0.active != e.active <==> Trim(name) == e.active
  {
    DeleteOutcome(r, name);
  }
}
