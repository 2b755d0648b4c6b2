/** The admin panel's location handlers: creating a location, updating it
    field by field, and deleting it with its hosted images. */
module LocationAdmin {
  import opened Wrappers
  import opened Records
  import opened Seqs
  import Text
  import LocationForm
  import GroupChat

  /** The image-host folder of location pictures. */
  const LocationImageFolder := "location_images"

  /** Only images whose URL names this host are removed from it. */
  const HostMarker := "res.cloudinary.com"

  datatype Error =
    | FieldsRequired
    | ImagesEmpty
    | SportTypesEmpty
    | InvalidSportType
    | StoreRejected
    | DuplicateKey
    | LocationNotFound
    | LocationInUse

  /** A request body. A coordinate is `None` when absent; an array is
      `None` when absent, and an empty array is present (and truthy). */
  datatype LocationInput = LocationInput(
    name: string,
    description: string,
    latitude: Option<real>,
    longitude: Option<real>,
    images: Option<seq<string>>,
    sportTypes: Option<seq<RecordId>>)

  /** A present number other than 0 (`!!x`). */
  predicate Truthy(x: Option<real>) {
    x.Some? && x.value != 0.0
  }

  /** The `SportType.find({ _id: { $in: ids } }).length === ids.length`
      test: the number of stored sport types the ids name equals the
      number of ids. */
  predicate SportTypesFound(db: Db, ids: seq<RecordId>) {
    |set x | x in ids && x in db.sportTypes| == |ids|
  }

  /** A subset is no larger than its superset, and one as large is the
      superset itself. */
  lemma SubsetCard<T>(a: set<T>, b: set<T>)
    requires a <= b
    ensures |a| <= |b|
    ensures |a| == |b| ==> a == b
  {
    assert b == a + (b - a);
    assert a * (b - a) == {};
    if |a| == |b| {
      assert |b - a| == 0;
    }
  }

  /** The count test passes exactly when every id names a stored sport
      type and no id is repeated. */
  lemma SportTypesFoundMeaning(db: Db, ids: seq<RecordId>)
    ensures SportTypesFound(db, ids) <==> (forall i :: 0 <= i < |ids| ==> ids[i] in db.sportTypes) && Distinct(ids)
  {
    var found := set x | x in ids && x in db.sportTypes;
    var named := set x | x in ids;
    ElementsCard(ids);
    SubsetCard(found, named);
    if SportTypesFound(db, ids) {
      assert found == named;
      forall i | 0 <= i < |ids| ensures ids[i] in db.sportTypes {
        assert ids[i] in named;
      }
    } else if (forall i :: 0 <= i < |ids| ==> ids[i] in db.sportTypes) {
      assert found == named;
    }
  }

  /** Every location names only stored sport types. */
  predicate SportTypesResolve(db: Db) {
    forall l, i :: l in db.locations && 0 <= i < |db.locations[l].sportTypes| ==>
      db.locations[l].sportTypes[i] in db.sportTypes
  }

  // ---------------------------------------------------------------------
  // Creating
  // ---------------------------------------------------------------------

  /** `createLocation` under the fresh id `id`. The checks run in order;
      the store refuses an empty image URL, which the schema requires. */
  function CreateLocation(db: Db, id: RecordId, input: LocationInput): (r: Result<Db, Error>)
  {
    if !(input.name != "" && input.description != "" && Truthy(input.latitude)
         && Truthy(input.longitude) && input.images.Some? && input.sportTypes.Some?)
    then Err(FieldsRequired) else
    :- Need(|input.images.value| != 0, ImagesEmpty);
    :- Need(|input.sportTypes.value| != 0, SportTypesEmpty);
    :- Need(SportTypesFound(db, input.sportTypes.value), InvalidSportType);
    :- Need(forall i :: 0 <= i < |input.images.value| ==> input.images.value[i] != "", StoreRejected);
    :- Need(id !in db.locations, DuplicateKey);
    var l := Location(input.name, input.description, input.latitude.value, input.longitude.value,
                      input.images.value, input.sportTypes.value);
    Ok(db.(locations := db.locations[id := l]))
  }

  /** A location is created exactly when every field is present, the
      coordinates are non-zero, both lists are non-empty, every sport type
      id is stored and none repeats, no image URL is empty, and the id is
      fresh. */
  lemma CreateLocationSpec(db: Db, id: RecordId, input: LocationInput)
    ensures CreateLocation(db, id, input).Ok? <==>
              && input.name != "" && input.description != ""
              && input.latitude.Some? && input.latitude.value != 0.0
              && input.longitude.Some? && input.longitude.value != 0.0
              && input.images.Some? && |input.images.value| > 0
              && input.sportTypes.Some? && |input.sportTypes.value| > 0
              && (forall i :: 0 <= i < |input.sportTypes.value| ==> input.sportTypes.value[i] in db.sportTypes)
              && Distinct(input.sportTypes.value)
              && (forall i :: 0 <= i < |input.images.value| ==> input.images.value[i] != "")
              && id !in db.locations
  {
    if input.sportTypes.Some? {
      SportTypesFoundMeaning(db, input.sportTypes.value);
    }
  }

  /** The new location holds the input as given, nothing else changes, and
      every location still names only stored sport types. */
  lemma CreateLocationStores(db: Db, id: RecordId, input: LocationInput)
    requires CreateLocation(db, id, input).Ok?
    ensures var r := CreateLocation(db, id, input).value;
            && id in r.locations && id !in db.locations
            && r.locations == db.locations[id := r.locations[id]]
            && r.locations[id].name == input.name && r.locations[id].description == input.description
            && r.locations[id].sportTypes == input.sportTypes.value
            && r.locations[id].images == input.images.value
            && r.locations[id].latitude == input.latitude.value
            && r.locations[id].longitude == input.longitude.value
            && r == db.(locations := r.locations)
            && (SportTypesResolve(db) ==> SportTypesResolve(r))
  {
    SportTypesFoundMeaning(db, input.sportTypes.value);
  }

  /** Naming one stored sport type twice is refused as an invalid sport
      type. */
  lemma RepeatedSportTypeRefused(db: Db, id: RecordId, input: LocationInput, st: RecordId)
    requires input.name != "" && input.description != ""
    requires Truthy(input.latitude) && Truthy(input.longitude)
    requires input.images.Some? && |input.images.value| > 0
    requires input.sportTypes == Some([st, st])
    ensures CreateLocation(db, id, input) == Err(InvalidSportType)
  {
    SportTypesFoundMeaning(db, [st, st]);
    assert [st, st][0] == [st, st][1];
  }

  /** The ids of the sport types selected in the form, in order. */
  function SelectedIds(options: seq<LocationForm.SportTypeOption>): (ids: seq<RecordId>)
    ensures |ids| == |options|
    ensures forall i :: 0 <= i < |options| ==> ids[i] == options[i].id
  {
    if options == [] then [] else [options[0].id] + SelectedIds(options[1..])
  }

  /** The body the location form sends: its fields, the uploaded image
      URLs and the ids of the selected sport types. */
  function FormInput(form: LocationForm.Form, images: seq<string>): (input: LocationInput)
  {
    LocationInput(form.name, form.description, form.latitude, form.longitude, Some(images),
                  Some(SelectedIds(form.sportTypes)))
  }

  /** A form the client's schema accepts passes every check of the server
      once at least one image is uploaded, the selected sport types are
      stored and different, and the id is fresh: the client's rules imply
      the server's. */
  lemma AcceptedFormIsCreated(db: Db, id: RecordId, form: LocationForm.Form, images: seq<string>)
    requires LocationForm.Acceptable(form)
    requires |images| > 0 && forall i :: 0 <= i < |images| ==> images[i] != ""
    requires forall i :: 0 <= i < |form.sportTypes| ==> form.sportTypes[i].id in db.sportTypes
    requires Distinct(SelectedIds(form.sportTypes))
    requires id !in db.locations
    ensures CreateLocation(db, id, FormInput(form, images)).Ok?
  {
    LocationForm.NoIssuesIffAcceptable(form);
    CreateLocationSpec(db, id, FormInput(form, images));
  }

  // ---------------------------------------------------------------------
  // Updating
  // ---------------------------------------------------------------------

  /** The image-host deletions for a location's images: each URL on the
      host becomes one destroy of its public id, in list order; failed
      deletions are only logged. */
  function HostedDeletions(images: seq<string>): (ops: seq<CloudOp>)
  {
    if images == [] then []
    else (if Text.Contains(images[0], HostMarker)
          then [DestroyImage(Text.PublicId(images[0], LocationImageFolder))] else [])
         + HostedDeletions(images[1..])
  }

  /** How many of the images are on the host. */
  function HostedCount(images: seq<string>): nat {
    if images == [] then 0
    else (if Text.Contains(images[0], HostMarker) then 1 else 0) + HostedCount(images[1..])
  }

  /** One destroy per hosted image, each of a public id in the location
      folder. */
  lemma {:induction false} HostedDeletionsSpec(images: seq<string>)
    ensures |HostedDeletions(images)| == HostedCount(images) <= |images|
    ensures forall k :: 0 <= k < |HostedDeletions(images)| ==>
              HostedDeletions(images)[k].DestroyImage?
              && exists i :: 0 <= i < |images| && Text.Contains(images[i], HostMarker)
                             && HostedDeletions(images)[k].publicId == Text.PublicId(images[i], LocationImageFolder)
  {
    if images != [] {
      HostedDeletionsSpec(images[1..]);
      var head := if Text.Contains(images[0], HostMarker)
                  then [DestroyImage(Text.PublicId(images[0], LocationImageFolder))] else [];
      var ops := HostedDeletions(images);
      var rest := HostedDeletions(images[1..]);
      assert ops == head + rest;
      forall k | 0 <= k < |ops|
        ensures ops[k].DestroyImage?
                && exists i :: 0 <= i < |images| && Text.Contains(images[i], HostMarker)
                               && ops[k].publicId == Text.PublicId(images[i], LocationImageFolder)
      {
        if k < |head| {
          assert ops[k] == head[0];
        } else {
          assert ops[k] == rest[k - |head|];
          var i :| 0 <= i < |images[1..]| && Text.Contains(images[1..][i], HostMarker)
                   && rest[k - |head|].publicId == Text.PublicId(images[1..][i], LocationImageFolder);
          assert images[1..][i] == images[i + 1];
        }
      }
    }
  }

  /** `updateLocation`: a present field replaces the stored one (a string
      when non-empty, a coordinate when non-zero, a list when present,
      even empty); sport types are checked only when the list is non-empty;
      the old hosted images are deleted only when a non-empty image list
      is given. The update bypasses the schema's validation. */
  function UpdateLocation(db: Db, id: RecordId, input: LocationInput): (r: Result<Db, Error>)
  {
    if id !in db.locations then Err(LocationNotFound) else
    var l := db.locations[id];
    var checkTypes := input.sportTypes.Some? && |input.sportTypes.value| > 0;
    :- Need(!checkTypes || SportTypesFound(db, input.sportTypes.value), InvalidSportType);
    var cleanup := if input.images.Some? && |input.images.value| > 0 then HostedDeletions(l.images) else [];
    var l' := Location(
      if input.name != "" then input.name else l.name,
      if input.description != "" then input.description else l.description,
      if Truthy(input.latitude) then input.latitude.value else l.latitude,
      if Truthy(input.longitude) then input.longitude.value else l.longitude,
      input.images.GetOr(l.images),
      input.sportTypes.GetOr(l.sportTypes));
    Ok(db.(locations := db.locations[id := l'], cloud := db.cloud + cleanup))
  }

  /** An update succeeds exactly for a stored location whose given,
      non-empty sport type list names stored, different sport types. */
  lemma UpdateLocationAccepts(db: Db, id: RecordId, input: LocationInput)
    ensures UpdateLocation(db, id, input).Ok? <==>
              && id in db.locations
              && (input.sportTypes.Some? && |input.sportTypes.value| > 0 ==>
                    && (forall i :: 0 <= i < |input.sportTypes.value| ==> input.sportTypes.value[i] in db.sportTypes)
                    && Distinct(input.sportTypes.value))
  {
    if input.sportTypes.Some? {
      SportTypesFoundMeaning(db, input.sportTypes.value);
    }
  }

  /** A successful update changes only that location; a zero coordinate
      or an empty string keeps the stored value and an absent list keeps
      the stored list; the old hosted images are deleted exactly when new
      images are given; and locations keep naming only stored sport
      types. */
  lemma UpdateLocationEffects(db: Db, id: RecordId, input: LocationInput)
    requires UpdateLocation(db, id, input).Ok?
    ensures var r := UpdateLocation(db, id, input).value;
            var l := db.locations[id];
            var l' := r.locations[id];
            && r.locations == db.locations[id := l']
            && (input.latitude == Some(0.0) || input.latitude.None? ==> l'.latitude == l.latitude)
            && (input.longitude == Some(0.0) || input.longitude.None? ==> l'.longitude == l.longitude)
            && (input.name == "" ==> l'.name == l.name)
            && (input.description == "" ==> l'.description == l.description)
            && (input.images.None? ==> l'.images == l.images)
            && (input.sportTypes.None? ==> l'.sportTypes == l.sportTypes)
            && (input.images.Some? && |input.images.value| > 0 ==> r.cloud == db.cloud + HostedDeletions(l.images))
            && (!(input.images.Some? && |input.images.value| > 0) ==> r.cloud == db.cloud)
            && r == db.(locations := r.locations, cloud := r.cloud)
  {
  }

  /** An update keeps every location naming only stored sport types. */
  lemma UpdateLocationResolves(db: Db, id: RecordId, input: LocationInput)
    requires SportTypesResolve(db) && UpdateLocation(db, id, input).Ok?
    ensures SportTypesResolve(UpdateLocation(db, id, input).value)
  {
    UpdateLocationAccepts(db, id, input);
  }

  /** Empty lists are taken as given: an empty image list empties the
      location's images without deleting the old ones from the host, and
      an empty sport type list leaves the location with no sport type,
      which creating refuses. */
  lemma EmptyListsReplace(db: Db, id: RecordId, input: LocationInput)
    requires id in db.locations
    requires input.images == Some([]) && input.sportTypes == Some([])
    ensures UpdateLocation(db, id, input).Ok?
    ensures UpdateLocation(db, id, input).value.locations[id].images == []
    ensures UpdateLocation(db, id, input).value.locations[id].sportTypes == []
    ensures UpdateLocation(db, id, input).value.cloud == db.cloud
    ensures CreateLocation(db, id, input).Err?
  {
  }

  // ---------------------------------------------------------------------
  // Deleting
  // ---------------------------------------------------------------------

  /** `deleteLocation`: refused while a group chat meets there (checked
      before the location's existence); otherwise the hosted images are
      deleted and the location removed. */
  function DeleteLocation(db: Db, id: RecordId): (r: Result<Db, Error>)
  {
    if !(forall g :: g in db.groups ==> db.groups[g].locationId != id)
    then Err(LocationInUse) else
    :- Need(id in db.locations, LocationNotFound);
    Ok(db.(locations := db.locations - {id}, cloud := db.cloud + HostedDeletions(db.locations[id].images)))
  }

  /** The chats listed at a location are what blocks its deletion: a
      stored location is deleted exactly when none is listed there, and
      none is listed there afterwards. */
  lemma DeleteLocationMatchesListing(db: Db, id: RecordId)
    ensures DeleteLocation(db, id).Ok? <==> id in db.locations && GroupChat.InLocation(db, id) == {}
    ensures DeleteLocation(db, id).Ok? ==> GroupChat.InLocation(DeleteLocation(db, id).value, id) == {}
  {
    if GroupChat.InLocation(db, id) == {} {
      forall g | g in db.groups ensures db.groups[g].locationId != id {
        assert g !in GroupChat.InLocation(db, id);
      }
    }
  }

  /** Every group chat meets at a stored location. */
  predicate GroupsHaveLocations(db: Db) {
    forall g :: g in db.groups ==> db.groups[g].locationId in db.locations
  }

  /** A location is deleted exactly when it is stored and no group chat
      meets there, a location in use being reported even when it does not
      exist; the delete removes only it, destroys one image per hosted
      image, and keeps every group chat at a stored location. */
  lemma DeleteLocationSpec(db: Db, id: RecordId)
    ensures var r := DeleteLocation(db, id);
            && (r.Ok? <==> id in db.locations && forall g :: g in db.groups ==> db.groups[g].locationId != id)
            && ((exists g :: g in db.groups && db.groups[g].locationId == id) ==> r == Err(LocationInUse))
            && (r.Ok? ==>
                  && r.value.locations == db.locations - {id}
                  && |r.value.cloud| == |db.cloud| + HostedCount(db.locations[id].images)
                  && r.value == db.(locations := r.value.locations, cloud := r.value.cloud)
                  && (GroupsHaveLocations(db) ==> GroupsHaveLocations(r.value))
                  && (SportTypesResolve(db) ==> SportTypesResolve(r.value)))
  {
    if id in db.locations {
      HostedDeletionsSpec(db.locations[id].images);
    }
  }
}
