/**
 * A plant of the collection (`Models/Plant.cs`): its scientific name, which is
 * its identity, an optional GBIF species key, and an ordered list of common
 * names that only ever grows.
 */
module Plants {
  import opened Wrappers
  import opened Linq

  /** One common name of a plant (`Models/PlantName.cs`); it belongs to exactly one plant. */
  datatype PlantName = PlantName(plant: Plant, name: string)

  function NameOf(plantName: PlantName): string { plantName.name }

  /** `plantNames.Select(x => x.Name)`. */
  function Names(plantNames: seq<PlantName>): seq<string>
  {
    Select(plantNames, NameOf)
  }

  /** `names.Select(x => new PlantName(plant, x))`. */
  function NamesFor(plant: Plant, names: seq<string>): (plantNames: seq<PlantName>)
  {
    Select(names, (name: string) => PlantName(plant, name))
  }

  lemma NamesOfNamesFor(plant: Plant, names: seq<string>)
    ensures Names(NamesFor(plant, names)) == names
  {
  }

  /**
   * The names `AddMissingCommonNames(xs)` appends to a plant whose common names
   * are `existing`: `xs.Distinct().Except(existing)`.
   */
  function MissingNames(xs: seq<string>, existing: seq<string>): seq<string>
  {
    Except(Distinct(xs), existing)
  }

  /** The common names of a plant named `existing` after `AddMissingCommonNames(xs)`. */
  function MergeNames(existing: seq<string>, xs: seq<string>): (r: seq<string>)
    ensures existing <= r
  {
    existing + MissingNames(xs, existing)
  }

  /**
   * A deterministic stand-in for `string.GetHashCode` (a 31-based polynomial
   * modulo 2^32); all that matters to the model is that it depends on the
   * string alone.
   */
  function StringHash(s: string): (h: int)
    ensures 0 <= h < 0x1_0000_0000
  {
    if s == [] then 0 else (StringHash(s[..|s| - 1]) * 31 + s[|s| - 1] as int) % 0x1_0000_0000
  }

  class Plant {
    const scientificName: string
    const gbifSpeciesKey: Option<string>
    var plantNames: seq<PlantName>

    /** Every name in the list belongs to this plant. */
    ghost predicate Valid()
      reads this
    {
      forall i :: 0 <= i < |plantNames| ==> plantNames[i].plant == this
    }

    /** `CommonNames`: the names, in the order they were added. */
    function CommonNames(): (r: seq<string>)
      reads this
      ensures |r| == |plantNames|
    {
      Names(plantNames)
    }

    /** The given names are kept as given: in order, repetitions included. */
    constructor (scientificName: string, commonNames: seq<string>, gbifSpeciesKey: Option<string>)
      ensures this.scientificName == scientificName && this.gbifSpeciesKey == gbifSpeciesKey
      ensures CommonNames() == commonNames
      ensures Valid()
    {
      this.scientificName := scientificName;
      this.gbifSpeciesKey := gbifSpeciesKey;
      new;
      plantNames := NamesFor(this, commonNames);
      NamesOfNamesFor(this, commonNames);
    }

    /**
     * Appends, in first-occurrence order, the names of
     * `potentiallyMissingCommonNames` that the plant does not have yet.
     */
    method AddMissingCommonNames(potentiallyMissingCommonNames: seq<string>)
      requires Valid()
      modifies this
      ensures Valid()
      ensures MergedFrom(old(CommonNames()), potentiallyMissingCommonNames, CommonNames())
      ensures plantNames == old(plantNames) + NamesFor(this, CommonNames()[|old(CommonNames())|..])
    {
      ghost var before := CommonNames();
      if |potentiallyMissingCommonNames| > 0 {
        var missingNames := NamesFor(this, Except(Distinct(potentiallyMissingCommonNames), CommonNames()));
        plantNames := plantNames + missingNames;
      }
      ghost var missing := MissingNames(potentiallyMissingCommonNames, before);
      NamesOfNamesFor(this, missing);
      assert Names(plantNames) == Names(old(plantNames)) + Names(NamesFor(this, missing));
      assert CommonNames() == MergeNames(before, potentiallyMissingCommonNames);
      MergeNamesIsMergedFrom(before, potentiallyMissingCommonNames);
      assert CommonNames()[|before|..] == missing;
    }

    /** `Equals(object)`: plants are equal exactly when their scientific names are. */
    predicate Equals(other: Plant?)
      ensures Equals(other) <==> other != null && other.scientificName == scientificName
    {
      if other == null then false
      else if other == this then true
      else scientificName == other.scientificName
    }

    /** `GetHashCode`: the hash of the scientific name. */
    function HashCode(): (h: int)
      ensures 0 <= h < 0x1_0000_0000
    {
      StringHash(scientificName)
    }
  }

  /** `CommonNames` lists the name of each record, record by record. */
  lemma CommonNamesAreRecordNames(plant: Plant)
    ensures forall i :: 0 <= i < |plant.plantNames| ==> plant.CommonNames()[i] == plant.plantNames[i].name
  {
  }

  lemma EqualPlantsHaveEqualHashCodes(a: Plant, b: Plant)
    requires a.Equals(b)
    ensures a.HashCode() == b.HashCode()
  {
  }

  /** The missing names are the distinct names filtered once: `Except` has nothing left to drop. */
  lemma MissingNamesIsFilter(xs: seq<string>, existing: seq<string>)
    ensures NoDuplicates(MissingNames(xs, existing))
    ensures MissingNames(xs, existing) == Where(Distinct(xs), NotIn(existing))
  {
    var d := Distinct(xs);
    DistinctSpec(xs);
    WhereKeepsNoDuplicates(d, NotIn(existing));
    DistinctOfNoDuplicates(Where(d, NotIn(existing)));
  }

  lemma MissingNamesSpec(xs: seq<string>, existing: seq<string>)
    ensures NoDuplicates(MissingNames(xs, existing))
    ensures forall x :: x in MissingNames(xs, existing) ==> x in xs && x !in existing
    ensures forall i :: 0 <= i < |xs| && xs[i] !in existing ==> xs[i] in MissingNames(xs, existing)
    ensures (forall x :: x in xs ==> x in existing) ==> MissingNames(xs, existing) == []
    ensures forall i, j :: 0 <= i < j < |MissingNames(xs, existing)| ==>
              FirstIndex(xs, MissingNames(xs, existing)[i]) < FirstIndex(xs, MissingNames(xs, existing)[j])
  {
    MissingNamesIsFilter(xs, existing);
    MissingNamesInOrder(xs, existing);
    var d := Distinct(xs);
    DistinctSpec(xs);
    var w := Where(d, NotIn(existing));
    WhereSpec(d, NotIn(existing));
    forall i | 0 <= i < |xs| && xs[i] !in existing
      ensures xs[i] in w
    {
      var k :| 0 <= k < |d| && d[k] == xs[i];
    }
  }

  lemma MissingNamesInOrder(xs: seq<string>, existing: seq<string>)
    ensures forall x :: x in MissingNames(xs, existing) ==> x in xs
    ensures forall i, j :: 0 <= i < j < |MissingNames(xs, existing)| ==>
              FirstIndex(xs, MissingNames(xs, existing)[i]) < FirstIndex(xs, MissingNames(xs, existing)[j])
  {
    MissingNamesIsFilter(xs, existing);
    var d := Distinct(xs);
    DistinctSpec(xs);
    var w := Where(d, NotIn(existing));
    var pos := WherePositions(d, NotIn(existing));
    forall i, j | 0 <= i < j < |w|
      ensures FirstIndex(xs, w[i]) < FirstIndex(xs, w[j])
    {
      assert w[i] == d[pos[i]] && w[j] == d[pos[j]];
    }
  }

  lemma MergeNamesSpec(existing: seq<string>, xs: seq<string>)
    ensures existing <= MergeNames(existing, xs)
    ensures forall i :: 0 <= i < |xs| ==> xs[i] in MergeNames(existing, xs)
    ensures forall i :: 0 <= i < |MergeNames(existing, xs)| ==>
              MergeNames(existing, xs)[i] in existing || MergeNames(existing, xs)[i] in xs
    ensures NoDuplicates(existing) ==> NoDuplicates(MergeNames(existing, xs))
    ensures xs == [] ==> MergeNames(existing, xs) == existing
  {
    MissingNamesSpec(xs, existing);
    var r := MergeNames(existing, xs);
    var m := MissingNames(xs, existing);
    forall i | 0 <= i < |xs|
      ensures xs[i] in r
    {
      if xs[i] !in existing {
        var k :| 0 <= k < |m| && m[k] == xs[i];
        assert r[|existing| + k] == xs[i];
      }
    }
  }

  /** The names of `a` are names of `xs`, in order of their first occurrence in `xs`. */
  ghost predicate OrderedIn(xs: seq<string>, a: seq<string>)
  {
    && (forall i :: 0 <= i < |a| ==> a[i] in xs)
    && (forall i, j :: 0 <= i < j < |a| ==> FirstIndex(xs, a[i]) < FirstIndex(xs, a[j]))
  }

  /**
   * `after` is `before` followed by the names of `xs` that `before` lacks,
   * each once, in order of first occurrence in `xs`.
   */
  ghost predicate MergedFrom(before: seq<string>, xs: seq<string>, after: seq<string>)
  {
    && before <= after
    && OrderedIn(xs, after[|before|..])
    && (forall x :: x in after[|before|..] <==> x in xs && x !in before)
  }

  /** After a merge every name of `xs` is there, and every name there was there before or is in `xs`. */
  lemma MergedFromContains(before: seq<string>, xs: seq<string>, after: seq<string>)
    requires MergedFrom(before, xs, after)
    ensures forall i :: 0 <= i < |xs| ==> xs[i] in after
    ensures forall i :: 0 <= i < |after| ==> after[i] in before || after[i] in xs
  {
    var a := after[|before|..];
    assert after == before + a;
    forall i | 0 <= i < |xs|
      ensures xs[i] in after
    {
      if xs[i] !in before {
        assert xs[i] in a;
      }
    }
    forall i | 0 <= i < |after|
      ensures after[i] in before || after[i] in xs
    {
      if i >= |before| {
        assert after[i] == a[i - |before|];
      }
    }
  }

  /** The missing names are exactly the names of `xs` not in `existing`, in first-occurrence order. */
  lemma MissingNamesOrdered(xs: seq<string>, existing: seq<string>)
    ensures OrderedIn(xs, MissingNames(xs, existing))
    ensures forall x :: x in MissingNames(xs, existing) <==> x in xs && x !in existing
  {
    var m := MissingNames(xs, existing);
    MissingNamesSpec(xs, existing);
    forall x | x in xs && x !in existing
      ensures x in m
    {
      var k :| 0 <= k < |xs| && xs[k] == x;
    }
  }

  lemma MergeNamesIsMergedFrom(existing: seq<string>, xs: seq<string>)
    ensures MergedFrom(existing, xs, MergeNames(existing, xs))
  {
    MissingNamesOrdered(xs, existing);
    assert MergeNames(existing, xs)[|existing|..] == MissingNames(xs, existing);
  }

  /** `MergedFrom` pins the merge down: the only such list is `MergeNames(before, xs)`. */
  lemma MergedFromIsMergeNames(before: seq<string>, xs: seq<string>, after: seq<string>)
    requires MergedFrom(before, xs, after)
    ensures after == MergeNames(before, xs)
  {
    var a := after[|before|..];
    var m := MissingNames(xs, before);
    MissingNamesOrdered(xs, before);
    OrderedByFirstIndexIsUnique(xs, a, m);
    assert after == before + a;
  }

  lemma OrderedInTail(xs: seq<string>, a: seq<string>)
    requires OrderedIn(xs, a) && a != []
    ensures OrderedIn(xs, a[1..])
    ensures a[0] !in a[1..]
  {
    var t := a[1..];
    forall i, j | 0 <= i < j < |t|
      ensures FirstIndex(xs, t[i]) < FirstIndex(xs, t[j])
    {
      assert t[i] == a[i + 1] && t[j] == a[j + 1];
    }
    forall i | 0 <= i < |t|
      ensures t[i] != a[0]
    {
      assert t[i] == a[i + 1];
      assert FirstIndex(xs, a[0]) < FirstIndex(xs, a[i + 1]);
    }
  }

  /** The first of two ordered lists with the same names is the same name. */
  lemma OrderedInSameHead(xs: seq<string>, a: seq<string>, b: seq<string>)
    requires OrderedIn(xs, a) && OrderedIn(xs, b) && a != []
    requires forall x :: x in a <==> x in b
    ensures b != [] && a[0] == b[0]
  {
    assert a[0] in b && b[0] in a;
    var k :| 0 <= k < |b| && b[k] == a[0];
    var m :| 0 <= m < |a| && a[m] == b[0];
    assert FirstIndex(xs, a[0]) <= FirstIndex(xs, a[m]);
    assert FirstIndex(xs, b[0]) <= FirstIndex(xs, b[k]);
  }

  /** Two lists of names of `xs` with the same names, both in order of first occurrence in `xs`, are equal. */
  lemma {:induction false} OrderedByFirstIndexIsUnique(xs: seq<string>, a: seq<string>, b: seq<string>)
    requires OrderedIn(xs, a) && OrderedIn(xs, b)
    requires forall x :: x in a <==> x in b
    ensures a == b
    decreases |a|
  {
    if b != [] {
      OrderedInSameHead(xs, b, a);
    }
    if a != [] {
      OrderedInSameHead(xs, a, b);
      OrderedInTail(xs, a);
      OrderedInTail(xs, b);
      forall x
        ensures x in a[1..] <==> x in b[1..]
      {
        assert x in a[1..] <==> x in a && x != a[0];
        assert x in b[1..] <==> x in b && x != b[0];
      }
      OrderedByFirstIndexIsUnique(xs, a[1..], b[1..]);
      assert a == [a[0]] + a[1..] && b == [b[0]] + b[1..];
    }
  }

  lemma MergeNamesIdempotent(existing: seq<string>, xs: seq<string>)
    ensures MergeNames(MergeNames(existing, xs), xs) == MergeNames(existing, xs)
  {
    var once := MergeNames(existing, xs);
    MergeNamesSpec(existing, xs);
    MissingNamesSpec(xs, once);
    forall x | x in xs
      ensures x in once
    {
      var k :| 0 <= k < |xs| && xs[k] == x;
    }
  }
}
