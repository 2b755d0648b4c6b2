/** The admin panel's sport type handlers: creating, renaming and deleting
    a sport type. Sport type names are unique in the store (a unique index
    on the name), and the handlers store names lower-cased. */
module SportTypeAdmin {
  import opened Wrappers
  import opened Records
  import Text
  import LocationAdmin

  datatype Error =
    | NameRequired
    | InvalidName
    | AlreadyExists
    | StoreRejected
    | DuplicateKey
    | SportTypeNotFound
    | InUse

  /** The name as checked: it must pass the name pattern once trimmed. */
  predicate ValidName(name: string) {
    name != "" && Text.NameRegex(Text.Trim(name), false)
  }

  /** No stored sport type is named exactly `name` (`findOne({ name })`). */
  predicate NameFree(types: map<RecordId, SportType>, name: string) {
    forall s :: s in types ==> types[s].name != name
  }

  /** The unique index: no sport type other than `except` holds `name`. */
  predicate IndexAllows(types: map<RecordId, SportType>, except: RecordId, name: string) {
    forall s :: s in types && s != except ==> types[s].name != name
  }

  /** Stored names are pairwise different, as the unique index keeps
      them. */
  predicate NamesUnique(types: map<RecordId, SportType>) {
    forall s, t :: s in types && t in types && s != t ==> types[s].name != types[t].name
  }

  // ---------------------------------------------------------------------
  // As written: the duplicate check compares the name as typed
  // ---------------------------------------------------------------------

  /** `createSportType` as written, under the fresh id `id`: the pattern
      is checked on the trimmed name, the duplicate check on the name as
      typed, and the name is stored lower-cased but untrimmed, so the
      unique index refuses a name that differs from a stored one only in
      case. */
  function CreateSportTypeAsWritten(db: Db, id: RecordId, name: string): (r: Result<Db, Error>)
  {
    if name == "" then Err(NameRequired) else
    :- Need(ValidName(name), InvalidName);
    :- Need(NameFree(db.sportTypes, name), AlreadyExists);
    var stored := Text.LowerCase(name);
    :- Need(IndexAllows(db.sportTypes, id, stored), StoreRejected);
    :- Need(id !in db.sportTypes, DuplicateKey);
    Ok(db.(sportTypes := db.sportTypes[id := SportType(stored)]))
  }

  /** `updateSportType` as written: the same checks, then the rename, which
      answers "not found" for an unknown id only after the duplicate
      check, and which the unique index refuses when another sport type
      holds the lower-cased name. */
  function UpdateSportTypeAsWritten(db: Db, id: RecordId, name: string): (r: Result<Db, Error>)
  {
    if name == "" then Err(NameRequired) else
    :- Need(ValidName(name), InvalidName);
    :- Need(NameFree(db.sportTypes, name), AlreadyExists);
    :- Need(id in db.sportTypes, SportTypeNotFound);
    var stored := Text.LowerCase(name);
    :- Need(IndexAllows(db.sportTypes, id, stored), StoreRejected);
    Ok(db.(sportTypes := db.sportTypes[id := SportType(stored)]))
  }

  /** A valid name that differs from a stored one only in case passes the
      duplicate check and is refused by the store, on create and on
      renaming another sport type. */
  lemma CaseVariantHitsIndex(db: Db, id: RecordId, other: RecordId, name: string)
    requires other in db.sportTypes && other != id && id !in db.sportTypes
    requires ValidName(name) && NameFree(db.sportTypes, name)
    requires Text.LowerCase(name) == db.sportTypes[other].name
    ensures CreateSportTypeAsWritten(db, id, name) == Err(StoreRejected)
    ensures UpdateSportTypeAsWritten(db.(sportTypes := db.sportTypes[id := SportType("")]), id, name)
            == Err(StoreRejected)
  {
    CaseVariantRefusedOnCreate(db, id, other, name);
    CaseVariantRefusedOnUpdate(db, id, other, name);
  }

  lemma CaseVariantRefusedOnCreate(db: Db, id: RecordId, other: RecordId, name: string)
    requires other in db.sportTypes && other != id && id !in db.sportTypes
    requires ValidName(name) && NameFree(db.sportTypes, name)
    requires Text.LowerCase(name) == db.sportTypes[other].name
    ensures CreateSportTypeAsWritten(db, id, name) == Err(StoreRejected)
  {
    var stored := Text.LowerCase(name);
    assert !IndexAllows(db.sportTypes, id, stored) by {
      assert other in db.sportTypes && other != id && db.sportTypes[other].name == stored;
    }
  }

  lemma CaseVariantRefusedOnUpdate(db: Db, id: RecordId, other: RecordId, name: string)
    requires other in db.sportTypes && other != id && id !in db.sportTypes
    requires ValidName(name) && NameFree(db.sportTypes, name)
    requires Text.LowerCase(name) == db.sportTypes[other].name
    ensures UpdateSportTypeAsWritten(db.(sportTypes := db.sportTypes[id := SportType("")]), id, name)
            == Err(StoreRejected)
  {
    var db2 := db.(sportTypes := db.sportTypes[id := SportType("")]);
    assert db2.sportTypes[other] == db.sportTypes[other];
    assert NameFree(db2.sportTypes, name) by {
      assert name != "" && Text.NameRegex(Text.Trim(name), false);
    }
    assert !IndexAllows(db2.sportTypes, id, Text.LowerCase(name));
  }

  /** A valid, lower-case name that is a stored one with surrounding space
      is stored as a second sport type that reads the same once
      trimmed. */
  lemma SpacedVariantStored(db: Db, id: RecordId, other: RecordId, name: string)
    requires other in db.sportTypes && other != id && id !in db.sportTypes
    requires ValidName(name) && NameFree(db.sportTypes, name) && Text.LowerCase(name) == name
    requires Text.Trim(name) == db.sportTypes[other].name
    ensures CreateSportTypeAsWritten(db, id, name) == Ok(db.(sportTypes := db.sportTypes[id := SportType(name)]))
    ensures name != db.sportTypes[other].name && Text.Trim(name) == db.sportTypes[other].name
  {
    assert IndexAllows(db.sportTypes, id, Text.LowerCase(name));
    AsWrittenCreates(db, id, name);
  }

  /** The written create stores the lower-cased name when every check
      passes. */
  lemma AsWrittenCreates(db: Db, id: RecordId, name: string)
    requires ValidName(name) && NameFree(db.sportTypes, name)
    requires IndexAllows(db.sportTypes, id, Text.LowerCase(name)) && id !in db.sportTypes
    ensures CreateSportTypeAsWritten(db, id, name)
            == Ok(db.(sportTypes := db.sportTypes[id := SportType(Text.LowerCase(name))]))
  {
  }

  // ---------------------------------------------------------------------
  // Corrected: check and store the trimmed, lower-cased name
  // ---------------------------------------------------------------------

  /** The name a sport type is stored and compared under. */
  function Key(name: string): (k: string)
  {
    Text.LowerCase(Text.Trim(name))
  }

  /** A key is its own key. */
  lemma KeyIdempotent(name: string)
    ensures Key(Key(name)) == Key(name)
  {
    var t := Text.Trim(name);
    var k := Text.LowerCase(t);
    if |k| > 0 {
      assert k[0] == Text.ToLower(t[0]) && k[|k| - 1] == Text.ToLower(t[|t| - 1]);
    }
    Text.TrimFixesTrimmed(k);
    Text.LowerCaseIdempotent(t);
  }

  /** Every stored name is a key. */
  predicate NamesNormal(types: map<RecordId, SportType>) {
    forall s :: s in types ==> Key(types[s].name) == types[s].name
  }

  /** `createSportType` with the duplicate check on the stored key. */
  function CreateSportType(db: Db, id: RecordId, name: string): (r: Result<Db, Error>)
  {
    if name == "" then Err(NameRequired) else
    :- Need(ValidName(name), InvalidName);
    :- Need(NameFree(db.sportTypes, Key(name)), AlreadyExists);
    :- Need(id !in db.sportTypes, DuplicateKey);
    Ok(db.(sportTypes := db.sportTypes[id := SportType(Key(name))]))
  }

  /** `updateSportType` with the duplicate check on the stored key. */
  function UpdateSportType(db: Db, id: RecordId, name: string): (r: Result<Db, Error>)
  {
    if name == "" then Err(NameRequired) else
    :- Need(ValidName(name), InvalidName);
    :- Need(NameFree(db.sportTypes, Key(name)), AlreadyExists);
    :- Need(id in db.sportTypes, SportTypeNotFound);
    Ok(db.(sportTypes := db.sportTypes[id := SportType(Key(name))]))
  }

  /** The corrected create succeeds exactly for a valid name whose key is
      not stored and a fresh id, and stores the key. */
  lemma CreateSportTypeAccepts(db: Db, id: RecordId, name: string)
    ensures var r := CreateSportType(db, id, name);
            && (r.Ok? <==> ValidName(name) && NameFree(db.sportTypes, Key(name)) && id !in db.sportTypes)
            && (r.Ok? ==> r.value == db.(sportTypes := db.sportTypes[id := SportType(Key(name))]))
            && (ValidName(name) && !NameFree(db.sportTypes, Key(name)) ==> r == Err(AlreadyExists))
  {
  }

  /** The corrected rename succeeds exactly for a valid name whose key is
      not stored and a stored id, and stores the key. */
  lemma UpdateSportTypeAccepts(db: Db, id: RecordId, name: string)
    ensures var r := UpdateSportType(db, id, name);
            && (r.Ok? <==> ValidName(name) && NameFree(db.sportTypes, Key(name)) && id in db.sportTypes)
            && (r.Ok? ==> r.value == db.(sportTypes := db.sportTypes[id := SportType(Key(name))]))
            && (ValidName(name) && !NameFree(db.sportTypes, Key(name)) ==> r == Err(AlreadyExists))
  {
  }

  /** Storing a key that no sport type holds is what the unique index
      allows, and keeps the stored names unique and all keys. */
  lemma StoreFreeKey(types: map<RecordId, SportType>, id: RecordId, name: string)
    requires NameFree(types, Key(name))
    ensures IndexAllows(types, id, Key(name))
    ensures NamesUnique(types) ==> NamesUnique(types[id := SportType(Key(name))])
    ensures NamesNormal(types) ==> NamesNormal(types[id := SportType(Key(name))])
  {
    var k := Key(name);
    StoreFree(types, id, k);
    KeyIdempotent(name);
    if NamesNormal(types) {
      var after := types[id := SportType(k)];
      forall s | s in after ensures Key(after[s].name) == after[s].name {
        if s != id {
          assert after[s] == types[s];
        }
      }
    }
  }

  /** Storing a name no sport type holds passes the unique index and keeps
      the names unique. */
  lemma StoreFree(types: map<RecordId, SportType>, id: RecordId, k: string)
    requires NameFree(types, k)
    ensures IndexAllows(types, id, k)
    ensures NamesUnique(types) ==> NamesUnique(types[id := SportType(k)])
  {
  }

  /** With every stored name a key, a name with the same key as a stored
      one (the same letters up to case and surrounding space) is refused as
      a duplicate, by the corrected create and rename alike. */
  lemma SameKeyRefused(db: Db, id: RecordId, s: RecordId, name: string)
    requires NamesNormal(db.sportTypes) && s in db.sportTypes
    requires ValidName(name) && Key(name) == Key(db.sportTypes[s].name)
    ensures CreateSportType(db, id, name) == Err(AlreadyExists)
    ensures UpdateSportType(db, id, name) == Err(AlreadyExists)
  {
    assert !NameFree(db.sportTypes, Key(name));
  }

  /** Where the written create succeeds, the corrected one succeeds too
      when the name is already trimmed and lower-case, and stores the
      same. */
  lemma CreateAsWrittenVersusCorrected(db: Db, id: RecordId, name: string)
    requires Key(name) == name
    ensures CreateSportTypeAsWritten(db, id, name) == CreateSportType(db, id, name)
  {
    Text.LowerCaseIdempotent(Text.Trim(name));
    if name != "" && Text.NameRegex(Text.Trim(name), false) {
      assert Text.LowerCase(name) == name;
    }
  }

  // ---------------------------------------------------------------------
  // Deleting
  // ---------------------------------------------------------------------

  /** A group chat or a location uses the sport type. */
  predicate Used(db: Db, id: RecordId) {
    (exists g :: g in db.groups && db.groups[g].sportType == id)
    || (exists l :: l in db.locations && id in db.locations[l].sportTypes)
  }

  /** `deleteSportType`: refused while used, checked before existence. */
  function DeleteSportType(db: Db, id: RecordId): (r: Result<Db, Error>)
  {
    if Used(db, id) then Err(InUse) else
    :- Need(id in db.sportTypes, SportTypeNotFound);
    Ok(db.(sportTypes := db.sportTypes - {id}))
  }

  /** Every group chat plays a stored sport type. */
  predicate GroupSportTypesResolve(db: Db) {
    forall g :: g in db.groups ==> db.groups[g].sportType in db.sportTypes
  }

  /** A sport type is deleted exactly when it is stored and unused, a used
      one being reported as such even when it is not stored; the delete
      removes only it, so group chats and locations keep naming stored
      sport types. */
  lemma DeleteSportTypeSpec(db: Db, id: RecordId)
    ensures var r := DeleteSportType(db, id);
            && (r.Ok? <==> id in db.sportTypes && !Used(db, id))
            && (Used(db, id) ==> r == Err(InUse))
            && (r.Ok? ==>
                  && r.value.sportTypes == db.sportTypes - {id}
                  && r.value == db.(sportTypes := r.value.sportTypes)
                  && (GroupSportTypesResolve(db) ==> GroupSportTypesResolve(r.value))
                  && (LocationAdmin.SportTypesResolve(db) ==> LocationAdmin.SportTypesResolve(r.value)))
  {
    if DeleteSportType(db, id).Ok? && LocationAdmin.SportTypesResolve(db) {
      var db' := DeleteSportType(db, id).value;
      forall l, i | l in db'.locations && 0 <= i < |db'.locations[l].sportTypes|
        ensures db'.locations[l].sportTypes[i] in db'.sportTypes
      {
        assert db.locations[l].sportTypes[i] in db.locations[l].sportTypes;
      }
    }
  }
}
