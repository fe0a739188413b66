/**
 * The identification endpoint (`Controllers/PlantIdentificationController.cs`):
 * identify the plant in an image, merge it into the plant store or create it,
 * add it to the collecting user's collection, persist, and answer with the
 * plant's common names.
 *
 * The plant store is a sequence of plant objects with distinct scientific
 * names (the unique index of the database); the user manager is the user
 * object plus the outcome of persisting it.
 */
module IdentificationController {
  import opened Wrappers
  import opened Linq
  import opened Plants
  import opened Users
  import opened PlantNet

  /** The HTTP answers the endpoint gives: 200 with a list of names, 404, or a problem (500). */
  datatype ActionResult = Ok(names: seq<string>) | NotFound | Problem

  /**
   * The answer to an identification: nothing identified gives NotFound, a
   * failed update gives Problem, and otherwise the common names, or the
   * scientific name alone when the plant has none.
   */
  function Respond(plant: Option<PlantOutput>, updateSucceeded: bool): (r: ActionResult)
    ensures r == NotFound <==> plant.None?
    ensures r == Problem <==> plant.Some? && !updateSucceeded
    ensures r.Ok? <==> plant.Some? && updateSucceeded
    ensures r.Ok? ==> |r.names| > 0
    ensures r.Ok? && plant.value.commonNames != [] ==> r.names == plant.value.commonNames
    ensures r.Ok? && plant.value.commonNames == [] ==> r.names == [plant.value.scientificName]
  {
    match plant
    case None => NotFound
    case Some(p) =>
      if !updateSucceeded then Problem
      else if |p.commonNames| > 0 then Ok(p.commonNames)
      else Ok([p.scientificName])
  }

  /**
   * `_db.Plants.SingleOrDefault(x => x.ScientificName == name)`: the position of
   * the one stored plant with that scientific name, if there is one.
   */
  function FindPlant(plants: seq<Plant>, name: string): (r: Option<nat>)
    requires UniqueScientificNames(plants)
    ensures r.Some? ==> r.value < |plants| && plants[r.value].scientificName == name
    ensures r.None? <==> forall i :: 0 <= i < |plants| ==> plants[i].scientificName != name
  {
    if |plants| == 0 then None
    else if plants[|plants| - 1].scientificName == name then Some(|plants| - 1)
    else FindPlant(plants[..|plants| - 1], name)
  }

  /** Every plant of the user's collection is a plant of the store. */
  ghost predicate CollectedFromStore(user: User, plants: seq<Plant>)
    reads user
  {
    forall i :: 0 <= i < |user.userPlants| ==> user.userPlants[i].plant in plants
  }

  /** The plants of the store are valid and their scientific names distinct. */
  ghost predicate ValidStore(plants: seq<Plant>)
    reads set i | 0 <= i < |plants| :: plants[i]
  {
    UniqueScientificNames(plants) && forall i :: 0 <= i < |plants| ==> plants[i].Valid()
  }

  /**
   * Lines 90-98 of `ProcessPlant`: the stored plant with the identified
   * scientific name gains the missing common names, or else a new plant is
   * built from the identification; the store gains that new plant once the
   * user is persisted. The stored plant is merged against its full name list,
   * as it is when its names are loaded; `SavedNamesAsWritten` gives what the
   * code saves for a plant whose names it did not load.
   */
  method PlantToAdd(identified: PlantOutput, plants: seq<Plant>, updateSucceeded: bool)
    returns (collected: Plant, plantsAfter: seq<Plant>)
    requires ValidStore(plants)
    modifies set i | 0 <= i < |plants| :: plants[i]
    ensures ValidStore(plantsAfter)
    ensures collected.scientificName == identified.scientificName
    ensures FindPlant(plants, identified.scientificName).Some? ==>
              collected == plants[FindPlant(plants, identified.scientificName).value] &&
              MergedFrom(old(collected.CommonNames()), identified.commonNames, collected.CommonNames()) &&
              plantsAfter == plants
    ensures FindPlant(plants, identified.scientificName).Some? && NoDuplicates(old(collected.CommonNames())) ==>
              NoDuplicates(collected.CommonNames())
    ensures FindPlant(plants, identified.scientificName).None? ==>
              fresh(collected) &&
              collected.CommonNames() == identified.commonNames &&
              collected.gbifSpeciesKey == identified.gbifId &&
              plantsAfter == if updateSucceeded then plants + [collected] else plants
    ensures forall i :: 0 <= i < |plants| && plants[i] != collected ==> unchanged(plants[i])
    ensures forall i :: 0 <= i < |identified.commonNames| ==> identified.commonNames[i] in collected.CommonNames()
  {
    var existing := FindPlant(plants, identified.scientificName);
    if existing.Some? {
      var k := existing.value;
      collected := plants[k];
      ghost var before := collected.CommonNames();
      collected.AddMissingCommonNames(identified.commonNames);
      MergedFromContains(before, identified.commonNames, collected.CommonNames());
      if NoDuplicates(before) {
        MergedNamesStayDistinct(before, identified.commonNames, collected.CommonNames());
      }
      plantsAfter := plants;
    } else {
      collected := new Plant(identified.scientificName, identified.commonNames, identified.gbifId);
      plantsAfter := if updateSucceeded then plants + [collected] else plants;
    }
  }

  /**
   * The common names saved for a stored plant by `ProcessPlant` as the code is
   * written. Lines 90-91 fetch the plant without `Include(x => x.PlantNames)`,
   * and nothing loads the names lazily, so `AddMissingCommonNames` compares
   * against the stored names only when the user query of lines 84-88 has
   * already loaded them, that is when the user has collected the plant, and
   * against no names otherwise. The names it appends are saved after the
   * stored ones.
   */
  function SavedNamesAsWritten(stored: seq<string>, collectedByUser: bool, xs: seq<string>): (r: seq<string>)
    ensures stored <= r
    ensures collectedByUser ==> r == MergeNames(stored, xs)
    ensures !collectedByUser ==> r == stored + Distinct(xs)
  {
    var loaded := if collectedByUser then stored else [];
    MissingNamesIsFilter(xs, loaded);
    DistinctSpec(xs);
    WhereOfAll(Distinct(xs), NotIn([]));
    stored + MissingNames(xs, loaded)
  }

  /**
   * Saved as written, a stored plant the user has not collected ends up with a
   * repeated name whenever the identification gives one of its stored names.
   */
  lemma UncollectedPlantRepeatsNames(stored: seq<string>, xs: seq<string>, i: nat)
    requires i < |xs| && xs[i] in stored
    ensures !NoDuplicates(SavedNamesAsWritten(stored, false, xs))
  {
    var r := SavedNamesAsWritten(stored, false, xs);
    DistinctSpec(xs);
    var j :| 0 <= j < |stored| && stored[j] == xs[i];
    var k :| 0 <= k < |Distinct(xs)| && Distinct(xs)[k] == xs[i];
    assert r[j] == r[|stored| + k];
  }

  /** A seeded "Wattle" identified as "Wattle" and "Golden wattle" is saved with "Wattle" twice. */
  lemma WattleIsSavedTwice()
    ensures SavedNamesAsWritten(["Wattle"], false, ["Wattle", "Golden wattle"]) == ["Wattle", "Wattle", "Golden wattle"]
  {
    DistinctOfNoDuplicates(["Wattle", "Golden wattle"]);
  }

  /** Merged against its full name list, a plant's names stay free of repetitions. */
  lemma MergedNamesStayDistinct(before: seq<string>, xs: seq<string>, after: seq<string>)
    requires MergedFrom(before, xs, after) && NoDuplicates(before)
    ensures NoDuplicates(after)
  {
    MergedFromIsMergeNames(before, xs, after);
    MergeNamesSpec(before, xs);
  }

  /**
   * Lines 84-100 of `ProcessPlant`: the plant `PlantToAdd` yields is added to
   * the user's collection. A species new to the store is always appended.
   */
  method CollectIdentifiedPlant(identified: PlantOutput, plants: seq<Plant>, user: User, updateSucceeded: bool)
    returns (collected: Plant, plantsAfter: seq<Plant>)
    requires ValidStore(plants) && user.Valid() && CollectedFromStore(user, plants)
    modifies user, set i | 0 <= i < |plants| :: plants[i]
    ensures ValidStore(plantsAfter) && user.Valid()
    ensures collected.scientificName == identified.scientificName
    ensures FindPlant(plants, identified.scientificName).Some? ==>
              collected == plants[FindPlant(plants, identified.scientificName).value] &&
              MergedFrom(old(collected.CommonNames()), identified.commonNames, collected.CommonNames()) &&
              plantsAfter == plants
    ensures FindPlant(plants, identified.scientificName).None? ==>
              fresh(collected) &&
              collected.CommonNames() == identified.commonNames &&
              collected.gbifSpeciesKey == identified.gbifId &&
              user.PlantCollection() == old(user.PlantCollection()) + [collected] &&
              plantsAfter == if updateSucceeded then plants + [collected] else plants
    ensures user.PlantCollection() == Collect(old(user.PlantCollection()), collected)
    ensures forall i :: 0 <= i < |plants| && plants[i] != collected ==> unchanged(plants[i])
  {
    collected, plantsAfter := PlantToAdd(identified, plants, updateSucceeded);
    if FindPlant(plants, identified.scientificName).None? {
      NewPlantIsNotCollected(user, plants, collected);
    }
    user.AddPlantToCollection(collected);
  }

  /**
   * `ProcessPlant`. With nothing identified, NotFound and nothing changes.
   * Otherwise the identified plant is merged or created and collected, and the
   * user is persisted; the in-memory changes stay made when persisting fails.
   */
  method ProcessPlant(plant: Option<PlantOutput>, plants: seq<Plant>, user: User, updateSucceeded: bool)
    returns (response: ActionResult, collected: Plant?, plantsAfter: seq<Plant>)
    requires ValidStore(plants) && user.Valid() && CollectedFromStore(user, plants)
    modifies user, set i | 0 <= i < |plants| :: plants[i]
    ensures response == Respond(plant, updateSucceeded)
    ensures ValidStore(plantsAfter) && user.Valid()
    ensures plant.None? ==> collected == null && plantsAfter == plants && unchanged(user)
    ensures plant.None? ==> forall i :: 0 <= i < |plants| ==> unchanged(plants[i])
    ensures plant.Some? ==> collected != null && collected.scientificName == plant.value.scientificName
    ensures plant.Some? && FindPlant(plants, plant.value.scientificName).Some? ==>
              collected == plants[FindPlant(plants, plant.value.scientificName).value] &&
              MergedFrom(old(collected.CommonNames()), plant.value.commonNames, collected.CommonNames()) &&
              plantsAfter == plants
    ensures plant.Some? && FindPlant(plants, plant.value.scientificName).None? ==>
              fresh(collected) &&
              collected.CommonNames() == plant.value.commonNames &&
              collected.gbifSpeciesKey == plant.value.gbifId &&
              user.PlantCollection() == old(user.PlantCollection()) + [collected] &&
              plantsAfter == if updateSucceeded then plants + [collected] else plants
    ensures plant.Some? ==> user.PlantCollection() == Collect(old(user.PlantCollection()), collected)
    ensures forall i :: 0 <= i < |plants| && plants[i] != collected ==> unchanged(plants[i])
    ensures updateSucceeded ==> CollectedFromStore(user, plantsAfter)
    ensures response.Ok? ==> forall i :: 0 <= i < |response.names| ==>
              response.names[i] in collected.CommonNames() || response.names[i] == collected.scientificName
  {
    if plant.None? {
      return NotFound, null, plants;
    }
    var identified := plant.value;
    var toAdd;
    ghost var collectionBefore := user.PlantCollection();
    ghost var namesBefore := if FindPlant(plants, identified.scientificName).Some? then plants[FindPlant(plants, identified.scientificName).value].CommonNames() else [];
    toAdd, plantsAfter := CollectIdentifiedPlant(identified, plants, user, updateSucceeded);
    collected := toAdd;
    if FindPlant(plants, identified.scientificName).Some? {
      MergedFromContains(namesBefore, identified.commonNames, collected.CommonNames());
    }
    if updateSucceeded {
      CollectedStaysInStore(user, collectionBefore, plants, plantsAfter, collected);
    }
    response := Respond(plant, updateSucceeded);
  }

  /** A plant whose scientific name is not in the store is not in a collection drawn from the store. */
  lemma NewPlantIsNotCollected(user: User, plants: seq<Plant>, plant: Plant)
    requires CollectedFromStore(user, plants)
    requires forall i :: 0 <= i < |plants| ==> plants[i].scientificName != plant.scientificName
    ensures !Contains(user.PlantCollection(), plant)
  {
    forall i | 0 <= i < |user.PlantCollection()|
      ensures !user.PlantCollection()[i].Equals(plant)
    {
      assert user.PlantCollection()[i] == user.userPlants[i].plant;
    }
  }

  /** After collecting a plant the store holds (or gains), the collection is still drawn from the store. */
  lemma CollectedStaysInStore(
    user: User, collectionBefore: seq<Plant>, plants: seq<Plant>, plantsAfter: seq<Plant>,
    plant: Plant)
    requires forall i :: 0 <= i < |collectionBefore| ==> collectionBefore[i] in plants
    requires user.PlantCollection() == Collect(collectionBefore, plant)
    requires plant in plantsAfter && forall p :: p in plants ==> p in plantsAfter
    ensures CollectedFromStore(user, plantsAfter)
  {
  }

  /**
   * `IdentifyPlant([FromQuery] string image)`: a failing identification
   * answers Problem and changes nothing; otherwise as `ProcessPlant`.
   */
  method IdentifyPlantFromUrl(
    image: string, plantNetClient: PlantImage -> Result<IdentificationResult, string>,
    plants: seq<Plant>, user: User, updateSucceeded: bool)
    returns (response: ActionResult, collected: Plant?, plantsAfter: seq<Plant>)
    requires ValidStore(plants) && user.Valid() && CollectedFromStore(user, plants)
    modifies user, set i | 0 <= i < |plants| :: plants[i]
    ensures ValidStore(plantsAfter) && user.Valid()
    ensures Identify(RemoteImage(image), plantNetClient).Failure? ==> response == Problem
    ensures Identify(RemoteImage(image), plantNetClient).Success? ==>
              response == Respond(Identify(RemoteImage(image), plantNetClient).value, updateSucceeded)
    ensures var identified := Identify(RemoteImage(image), plantNetClient);
            identified.Failure? || identified.value.None? ==>
              collected == null && plantsAfter == plants && unchanged(user) &&
              forall i :: 0 <= i < |plants| ==> unchanged(plants[i])
    ensures var identified := Identify(RemoteImage(image), plantNetClient);
            identified.Success? && identified.value.Some? ==>
              var plant := identified.value.value;
              && collected != null && collected.scientificName == plant.scientificName
              && (FindPlant(plants, plant.scientificName).Some? ==>
                    collected == plants[FindPlant(plants, plant.scientificName).value] &&
                    MergedFrom(old(collected.CommonNames()), plant.commonNames, collected.CommonNames()) &&
                    plantsAfter == plants)
              && (FindPlant(plants, plant.scientificName).None? ==>
                    fresh(collected) &&
                    collected.CommonNames() == plant.commonNames &&
                    collected.gbifSpeciesKey == plant.gbifId &&
                    user.PlantCollection() == old(user.PlantCollection()) + [collected] &&
                    plantsAfter == if updateSucceeded then plants + [collected] else plants)
              && user.PlantCollection() == Collect(old(user.PlantCollection()), collected)
    ensures forall i :: 0 <= i < |plants| && plants[i] != collected ==> unchanged(plants[i])
    ensures updateSucceeded ==> CollectedFromStore(user, plantsAfter)
    ensures response.Ok? ==> forall i :: 0 <= i < |response.names| ==>
              response.names[i] in collected.CommonNames() || response.names[i] == collected.scientificName
  {
    var identified := Identify(RemoteImage(image), plantNetClient);
    if identified.Failure? {
      return Problem, null, plants;
    }
    response, collected, plantsAfter := ProcessPlant(identified.value, plants, user, updateSucceeded);
  }

  /**
   * `IdentifyPlant()` on a request body holding the image: a failing
   * identification answers Problem and changes nothing; otherwise as
   * `ProcessPlant`.
   */
  method IdentifyPlantFromBody(
    body: seq<bv8>, plantNetClient: PlantImage -> Result<IdentificationResult, string>,
    plants: seq<Plant>, user: User, updateSucceeded: bool)
    returns (response: ActionResult, collected: Plant?, plantsAfter: seq<Plant>)
    requires ValidStore(plants) && user.Valid() && CollectedFromStore(user, plants)
    modifies user, set i | 0 <= i < |plants| :: plants[i]
    ensures ValidStore(plantsAfter) && user.Valid()
    ensures Identify(UploadedImage(body), plantNetClient).Failure? ==> response == Problem
    ensures Identify(UploadedImage(body), plantNetClient).Success? ==>
              response == Respond(Identify(UploadedImage(body), plantNetClient).value, updateSucceeded)
    ensures var identified := Identify(UploadedImage(body), plantNetClient);
            identified.Failure? || identified.value.None? ==>
              collected == null && plantsAfter == plants && unchanged(user) &&
              forall i :: 0 <= i < |plants| ==> unchanged(plants[i])
    ensures var identified := Identify(UploadedImage(body), plantNetClient);
            identified.Success? && identified.value.Some? ==>
              var plant := identified.value.value;
              && collected != null && collected.scientificName == plant.scientificName
              && (FindPlant(plants, plant.scientificName).Some? ==>
                    collected == plants[FindPlant(plants, plant.scientificName).value] &&
                    MergedFrom(old(collected.CommonNames()), plant.commonNames, collected.CommonNames()) &&
                    plantsAfter == plants)
              && (FindPlant(plants, plant.scientificName).None? ==>
                    fresh(collected) &&
                    collected.CommonNames() == plant.commonNames &&
                    collected.gbifSpeciesKey == plant.gbifId &&
                    user.PlantCollection() == old(user.PlantCollection()) + [collected] &&
                    plantsAfter == if updateSucceeded then plants + [collected] else plants)
              && user.PlantCollection() == Collect(old(user.PlantCollection()), collected)
    ensures forall i :: 0 <= i < |plants| && plants[i] != collected ==> unchanged(plants[i])
    ensures updateSucceeded ==> CollectedFromStore(user, plantsAfter)
    ensures response.Ok? ==> forall i :: 0 <= i < |response.names| ==>
              response.names[i] in collected.CommonNames() || response.names[i] == collected.scientificName
  {
    var identified := Identify(UploadedImage(body), plantNetClient);
    if identified.Failure? {
      return Problem, null, plants;
    }
    response, collected, plantsAfter := ProcessPlant(identified.value, plants, user, updateSucceeded);
  }
}
