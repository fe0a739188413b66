/**
 * The collecting user (`Models/User.cs`) and the user-to-plant membership
 * records (`Models/UserPlant.cs`). Membership is decided by `Plant.Equals`,
 * that is by scientific name, not by object identity.
 */
module Users {
  import opened Linq
  import opened Plants

  /** One plant in one user's collection. */
  datatype UserPlant = UserPlant(user: User, plant: Plant)

  function PlantOf(userPlant: UserPlant): Plant { userPlant.plant }

  /** `plants.Contains(plant)`, which compares with the overridden `Plant.Equals`. */
  predicate Contains(plants: seq<Plant>, plant: Plant)
  {
    exists i :: 0 <= i < |plants| && plants[i].Equals(plant)
  }

  /** The collection after collecting `plant`: appended unless an equal plant is already there. */
  function Collect(plants: seq<Plant>, plant: Plant): (r: seq<Plant>)
    ensures plants <= r && |r| <= |plants| + 1
  {
    if Contains(plants, plant) then plants else plants + [plant]
  }

  /** No two plants of the collection share a scientific name. */
  ghost predicate UniqueScientificNames(plants: seq<Plant>)
  {
    forall i, j :: 0 <= i < j < |plants| ==> plants[i].scientificName != plants[j].scientificName
  }

  class User {
    var userPlants: seq<UserPlant>

    /** Every membership record belongs to this user. */
    ghost predicate Valid()
      reads this
    {
      forall i :: 0 <= i < |userPlants| ==> userPlants[i].user == this
    }

    /** `PlantCollection`: the plants of the membership records, in order. */
    function PlantCollection(): (r: seq<Plant>)
      reads this
      ensures |r| == |userPlants|
      ensures forall i :: 0 <= i < |userPlants| ==> r[i] == userPlants[i].plant
    {
      Select(userPlants, PlantOf)
    }

    /** Adds a membership record for `plant` unless a plant with its scientific name is already collected. */
    method AddPlantToCollection(plant: Plant)
      requires Valid()
      modifies this
      ensures Valid()
      ensures userPlants == if Contains(old(PlantCollection()), plant) then old(userPlants)
                            else old(userPlants) + [UserPlant(this, plant)]
      ensures PlantCollection() == Collect(old(PlantCollection()), plant)
    {
      if !Contains(PlantCollection(), plant) {
        var userPlant := UserPlant(this, plant);
        userPlants := userPlants + [userPlant];
      }
    }
  }

  lemma CollectSpec(plants: seq<Plant>, plant: Plant)
    ensures Contains(Collect(plants, plant), plant)
    ensures Contains(plants, plant) <==> Collect(plants, plant) == plants
    ensures !Contains(plants, plant) <==> Collect(plants, plant) == plants + [plant]
    ensures Collect(Collect(plants, plant), plant) == Collect(plants, plant)
    ensures UniqueScientificNames(plants) ==> UniqueScientificNames(Collect(plants, plant))
  {
    assert Collect(plants, plant)[|Collect(plants, plant)| - 1] == plant || Contains(plants, plant);
  }
}
