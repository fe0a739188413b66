/**
 * The photo-identification adapter (`Services/PlantNetPlantIdentifier.cs`):
 * the provider ranks candidate species by score, and the adapter keeps the
 * best one, or nothing.
 */
module PlantNet {
  import opened Wrappers

  /** The identifier's normalised output (`Services/Output/PlantOutput.cs`). */
  datatype PlantOutput = PlantOutput(scientificName: string, commonNames: seq<string>, gbifId: Option<string>)

  /** The species data the provider attaches to a candidate. */
  datatype SpeciesData = SpeciesData(scientificNameWithoutAuthor: string, commonNames: seq<string>)

  /** The provider's link to the GBIF record of a candidate. */
  datatype GbifLink = GbifLink(id: string)

  /** One scored candidate. Scores are only compared, so any total order will do. */
  datatype Candidate = Candidate(score: int, species: Option<SpeciesData>, gbif: Option<GbifLink>)

  /** The provider's answer: candidates in the provider's order. */
  datatype IdentificationResult = IdentificationResult(results: seq<Candidate>)

  /** What is sent to the provider: uploaded bytes, or the address of a remote image. */
  datatype PlantImage = UploadedImage(bytes: seq<bv8>) | RemoteImage(url: string)

  /**
   * Candidate `i` is the one `OrderByDescending(c => c.Score).First()` picks:
   * it has the highest score, and every candidate before it scores strictly
   * less (the sort is stable, so the earliest maximum comes first).
   */
  ghost predicate IsTopCandidate(candidates: seq<Candidate>, i: int)
  {
    && 0 <= i < |candidates|
    && (forall j :: 0 <= j < |candidates| ==> candidates[j].score <= candidates[i].score)
    && (forall j :: 0 <= j < i ==> candidates[j].score < candidates[i].score)
  }

  /**
   * The index of the first candidate of a stable descending sort by score:
   * one pass that replaces the best so far only on a strictly higher score.
   */
  function TopIndex(candidates: seq<Candidate>): (i: nat)
    requires |candidates| > 0
    ensures IsTopCandidate(candidates, i)
  {
    if |candidates| == 1 then 0
    else
      var best := TopIndex(candidates[..|candidates| - 1]);
      if candidates[|candidates| - 1].score > candidates[best].score then |candidates| - 1 else best
  }

  lemma TopCandidateIsUnique(candidates: seq<Candidate>, i: int, j: int)
    requires IsTopCandidate(candidates, i) && IsTopCandidate(candidates, j)
    ensures i == j
  {
    assert candidates[j].score <= candidates[i].score && candidates[i].score <= candidates[j].score;
  }

  /** `Gbif?.Id`. */
  function GbifIdOf(candidate: Candidate): Option<string>
  {
    if candidate.gbif.Some? then Some(candidate.gbif.value.id) else None
  }

  /**
   * `ProcessResult`: nothing for an empty answer or when the best candidate
   * carries no species data; otherwise that candidate's names and GBIF id.
   */
  function ProcessResult(identificationResult: IdentificationResult): (r: Option<PlantOutput>)
    ensures identificationResult.results == [] ==> r.None?
    ensures r.Some? ==> exists i ::
              && IsTopCandidate(identificationResult.results, i)
              && identificationResult.results[i].species
                 == Some(SpeciesData(r.value.scientificName, r.value.commonNames))
              && r.value.gbifId == GbifIdOf(identificationResult.results[i])
    ensures r.None? && identificationResult.results != [] ==> exists i ::
              IsTopCandidate(identificationResult.results, i) && identificationResult.results[i].species.None?
  {
    var possibleSpecies := identificationResult.results;
    if |possibleSpecies| == 0 then None
    else
      var topResult := possibleSpecies[TopIndex(possibleSpecies)];
      if topResult.species.None? then None
      else
        var identifiedSpecies := topResult.species.value;
        Some(PlantOutput(identifiedSpecies.scientificNameWithoutAuthor, identifiedSpecies.commonNames, GbifIdOf(topResult)))
  }

  /**
   * Only the top candidate's species data is looked at: a later candidate scoring no higher
   * that has species data does not stand in for it, even on a tie.
   */
  lemma TopWithoutSpeciesHidesTheRest(top: Candidate, rest: seq<Candidate>)
    requires top.species.None?
    requires forall j :: 0 <= j < |rest| ==> rest[j].score <= top.score
    ensures ProcessResult(IdentificationResult([top] + rest)).None?
  {
    var cs := [top] + rest;
    assert IsTopCandidate(cs, 0);
    TopCandidateIsUnique(cs, TopIndex(cs), 0);
  }

  /**
   * Both `Identify` overloads: send the image to the provider and hand its
   * answer to `ProcessResult`; a provider failure propagates to the caller.
   */
  function Identify(image: PlantImage, plantNetClient: PlantImage -> Result<IdentificationResult, string>)
    : (r: Result<Option<PlantOutput>, string>)
    ensures plantNetClient(image).Failure? ==> r == Failure(plantNetClient(image).error)
    ensures plantNetClient(image).Success? ==> r == Success(ProcessResult(plantNetClient(image).value))
  {
    match plantNetClient(image)
    case Failure(e) => Failure(e)
    case Success(identificationResult) => Success(ProcessResult(identificationResult))
  }
}
