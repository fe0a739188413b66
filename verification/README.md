# Natura: a verified model of the plant-identification core

Natura is a plant-collection web app. A user photographs a plant, the photo
is sent to the Pl@ntNet identification service, the best-scoring species is
merged into (or added to) the plant store, and the plant is added to the
user's collection. GBIF supplies images, seed data and English common names.

This Dafny project models the domain logic behind that flow and proves what
it promises:

- `plant.dfy` (module `Plants`): the `Plant` entity. It has a scientific
  name, which is its identity for `Equals`/`GetHashCode`, and an optional
  GBIF species key. It also holds a list of common names that
  `AddMissingCommonNames` only ever appends to.
- `user.dfy` (module `Users`): the collecting `User`. `AddPlantToCollection`
  appends a membership record unless a plant with the same scientific name
  is already collected.
- `plantnet_identifier.dfy` (module `PlantNet`): picks the best Pl@ntNet
  candidate. The first candidate with the highest score wins. The answer is
  empty when there are no candidates, or when the winner has no species data.
- `gbif_client.dfy` (module `Gbif`): covers the following.
  - The image cache in front of GBIF's occurrence search.
  - Flattening the media lists.
  - The many-keys image search.
  - One occurrence per species for the seed data.
  - English vernacular names, trimmed and de-duplicated.
- `plant_identification_controller.dfy` (module `IdentificationController`):
  the `api/identify` endpoint.
  - The image is identified, then the plant is merged or created, then
    collected, then the user is persisted.
  - The endpoint answers with the plant's common names, or its scientific
    name when it has none.
- `linq.dfy` (module `Linq`): the LINQ operators the source uses.
  - `Select`, `Where`, `Distinct`, `Except`, and `GroupBy(...).Select(g => g.First())`.
  - The last one is modelled as a first-occurrence-per-key filter.
  - Each is defined over sequences and characterised by lemmas.
- `wrappers.dfy` (module `Wrappers`): `Option` for nullable values and
  `Result` for calls that may throw.

These are inputs to the model rather than computed by it:

- The HTTP answers of GBIF and Pl@ntNet are parameters: a status code and an
  already parsed result list, or a function from the request to such an answer.
- The outcome of persisting the user (`UserManager.UpdateAsync`) is a boolean
  parameter.
- The plant store (`_db.Plants`) is a sequence of plant objects with distinct
  scientific names. This is the unique index on `ScientificName` in
  Natura.Server/Data/ApplicationDbContext.cs:35-37.
- The collecting user's plants are assumed to be plants of that store.
- Each stored plant carries its full list of common names, as it does once
  its names are loaded. The endpoint's lookup does not load them for a plant
  outside the user's collection; "## Findings" covers what the code then saves.

Behaviours of the code worth noting:

- The vernacular-name lookup asks GBIF for at most 3 names with a query
  parameter. The client itself does not cap the list it returns, so neither
  does the model.
- A cached but empty image list does not count as a hit. The search is
  issued again.
- The `Plant` constructor keeps the given common names as given,
  repetitions included.
- The many-keys image search keeps null media entries. The single-key search
  drops them.

## Model

| member | source | states |
|---|---|---|
| Linq.FirstKeyIndex | Natura.Server/Services/GbifClient.cs:168-169 | The returned position holds the first element with the given key: the key matches there and at no earlier position. |
| Linq.DistinctByIsFirstPerKey | Natura.Server/Services/GbifClient.cs:167-170 | Grouping by a key and taking each group's first element yields exactly one element per key of the input. That element is the key's first occurrence, and the keys come in order of first appearance. |
| Linq.DistinctSpec | Natura.Server/Models/Plant.cs:44 | `Distinct` has no duplicates, keeps every input element and adds none, and orders its elements by their first occurrence in the input. |
| Linq.DistinctOfNoDuplicates | Natura.Server/Models/Plant.cs:44-45 | `Distinct` leaves a duplicate-free sequence unchanged. |
| Linq.WhereSpec | Natura.Server/Services/GbifClient.cs:187 | `Where` keeps exactly the elements that satisfy the predicate, and returns nothing when none does. |
| Linq.WherePositions | Natura.Server/Services/GbifClient.cs:187 | The kept elements are exactly the elements at the positions whose element satisfies the predicate, every such position included, in strictly increasing order: `Where` keeps every match, repetitions included, in input order. |
| Linq.WhereKeepsNoDuplicates | Natura.Server/Models/Plant.cs:45 | Filtering a duplicate-free sequence leaves it duplicate-free. |
| Linq.SelectWhereSound | Natura.Server/Services/GbifClient.cs:187-188 | Every element of `Where(p).Select(f)` is `f` of an input element that satisfies `p`. |
| Linq.SelectWhereComplete | Natura.Server/Services/GbifClient.cs:187-188 | `f` of every input element that satisfies `p` appears in `Where(p).Select(f)`. |
| Linq.ExceptSpec | Natura.Server/Models/Plant.cs:45 | `first.Except(second)` has no duplicates, holds exactly the elements of `first` that are not in `second`, and keeps them in order of first occurrence in `first`. |
| Plants.Plant.CommonNames | Natura.Server/Models/Plant.cs:35-37 | One common name per `PlantName` record. |
| Plants.CommonNamesAreRecordNames | Natura.Server/Models/Plant.cs:35-37 | The common names are the records' names, record by record, in the order the records were added. |
| Plants.NamesOfNamesFor | Natura.Server/Models/Plant.cs:21-23 | Wrapping names in `PlantName` records and reading the names back gives the same list. |
| Plants.Plant.constructor | Natura.Server/Models/Plant.cs:17-24 | Sets the scientific name and the GBIF key. `CommonNames` is the given list in the given order, not de-duplicated, and every name belongs to the new plant. |
| Plants.Plant.AddMissingCommonNames | Natura.Server/Models/Plant.cs:39-51 | Appends `PlantName` records for the new names after the old ones, all belonging to this plant. The new names are the input names the plant lacked, once each, in order of first occurrence in the input (`MergedFrom`). |
| Plants.MergeNames | Natura.Server/Models/Plant.cs:43-49 | The merged list `existing + Distinct().Except(existing)` keeps the old names as a prefix. What follows is described by `MissingNamesSpec`. |
| Plants.MissingNamesSpec | Natura.Server/Models/Plant.cs:43-47 | The appended names are pairwise distinct and none was present before. Every input name not present before is among them, they are in first-occurrence order of the input, and there are none when all input names were present. |
| Plants.MergeNamesSpec | Natura.Server/Models/Plant.cs:41-49 | The old names are a prefix of the merged list. Every input name is in it, and nothing else is added. A duplicate-free list stays duplicate-free, and an empty input changes nothing. |
| Plants.MissingNamesOrdered | Natura.Server/Models/Plant.cs:43-47 | A name is appended exactly when it is an input name the plant lacks, and the appended names follow their first occurrence in the input. |
| Plants.MergeNamesIsMergedFrom | Natura.Server/Models/Plant.cs:39-51 | The old names followed by `Distinct().Except(old)` of the input meet the `MergedFrom` description of a merge. |
| Plants.MergedFromIsMergeNames | Natura.Server/Models/Plant.cs:39-51 | The `MergedFrom` description admits one list only: the old names followed by `Distinct().Except(old)` of the input. |
| Plants.OrderedByFirstIndexIsUnique | Natura.Server/Models/Plant.cs:43-45 | Two lists with the same names, both in first-occurrence order of the input, are equal. |
| Plants.MergedFromContains | Natura.Server/Models/Plant.cs:39-51 | After a merge every input name is among the common names, and every common name was there before or is an input name. |
| Plants.MergeNamesIdempotent | Natura.Server/Models/Plant.cs:39-51 | Merging the same names a second time changes nothing. |
| Plants.Plant.Equals | Natura.Server/Models/Plant.cs:53-65 | Two plants are equal exactly when the other is not null and their scientific names agree. |
| Plants.Plant.HashCode | Natura.Server/Models/Plant.cs:67-70 | The hash code is a 32-bit value computed from the scientific name alone. |
| Plants.EqualPlantsHaveEqualHashCodes | Natura.Server/Models/Plant.cs:53-70 | Equal plants have equal hash codes. |
| Users.Collect | Natura.Server/Models/User.cs:21-25 | Collecting only ever appends, and at most one plant. |
| Users.User.PlantCollection | Natura.Server/Models/User.cs:15-17 | The collection lists the plant of each membership record, record by record. |
| Users.User.AddPlantToCollection | Natura.Server/Models/User.cs:19-26 | Changes nothing when a plant with the same scientific name is already collected. Otherwise it appends exactly one record for this user and plant. The collection becomes `Collect(old collection, plant)`. |
| Users.CollectSpec | Natura.Server/Models/User.cs:19-26 | Afterwards the plant is collected, and the call is a no-op exactly when it already was. Otherwise it is an append. Collecting twice equals collecting once, and distinct scientific names stay distinct. |
| PlantNet.TopIndex | Natura.Server/Services/PlantNetPlantIdentifier.cs:42-44 | The chosen candidate has the highest score, and every earlier candidate scores strictly less, so the first of equal maxima wins. |
| PlantNet.TopCandidateIsUnique | Natura.Server/Services/PlantNetPlantIdentifier.cs:42-44 | Exactly one candidate is top: the choice is determined by the scores and their order. |
| PlantNet.ProcessResult | Natura.Server/Services/PlantNetPlantIdentifier.cs:34-57 | No candidates give nothing. A result is the top candidate's scientific name without author, its common names unchanged, and its GBIF id or none. Nothing for a non-empty list means the top candidate has no species. |
| PlantNet.TopWithoutSpeciesHidesTheRest | Natura.Server/Services/PlantNetPlantIdentifier.cs:46-49 | When the top candidate lacks species data, the answer is nothing, even when a tied or lower candidate has species data. |
| PlantNet.Identify | Natura.Server/Services/PlantNetPlantIdentifier.cs:20-32 | Both overloads return exactly `ProcessResult` of the provider's answer, and a provider failure propagates. |
| Gbif.ImagesOf | Natura.Server/Services/GbifClient.cs:109-112 | Every image is a non-null medium of the answer, and there are no more images than media. |
| Gbif.WhereNotNullMembership | Natura.Server/Services/GbifClient.cs:111 | An image survives the null filter exactly when it occurs as a non-null entry. |
| Gbif.ImagesOfConcat | Natura.Server/Services/GbifClient.cs:109-112 | The flattened, null-filtered media of two answers is the concatenation of each one's, so the media keep their order. |
| Gbif.ImagesOfMembership | Natura.Server/Services/GbifClient.cs:109-112 | An image is in the list exactly when some occurrence carries it as a non-null medium. |
| Gbif.GbifClient.FindImagesForSpecies | Natura.Server/Services/GbifClient.cs:77-120 | A present, non-empty cache entry is returned with no search and no cache change. Otherwise the search is issued. A failure status raises with the cache unchanged. Success returns the flattened, null-filtered media and stores exactly that list under the key. |
| Gbif.LookUpTwice | Natura.Server/Services/GbifClient.cs:82-117 | Of two lookups of the same key in a row, after a successful first one the second issues a search exactly when the first found no images, and otherwise returns the same images. A cached empty list never suppresses a search. |
| Gbif.GbifClient.FindImagesForSpeciesKeys | Natura.Server/Services/GbifClient.cs:122-149 | The search fails exactly when some key's search has a failure status, raising that status. Otherwise the result holds, as a multiset, all media of all keys' searches, nulls included. |
| Gbif.AllMediaMembership | Natura.Server/Services/GbifClient.cs:138-145 | A medium is gathered exactly when the search for one of the keys carries it. |
| Gbif.SeedData | Natura.Server/Services/GbifClient.cs:167-170 | One occurrence per distinct species, the first with that species, in order of first appearance. |
| Gbif.SeedDataOfTwoSpecies | Natura.Server/Services/GbifClient.cs:167-170 | For occurrences A, A, B, A of species A and B, the seed data is the first A and then B. |
| Gbif.GetPlantSeedData | Natura.Server/Services/GbifClient.cs:151-171 | A failure status raises that status. Otherwise the result has one first occurrence per species, in order of first appearance. |
| Gbif.LeadingWhiteSpace | Natura.Server/Services/GbifClient.cs:188 | Counts the white space `TrimStart` removes: every counted character is white space, and the next one, if any, is not. |
| Gbif.TrailingWhiteSpace | Natura.Server/Services/GbifClient.cs:188 | Counts the white space `TrimEnd` removes: every counted character at the end is white space, and the one before them, if any, is not. |
| Gbif.Trim | Natura.Server/Services/GbifClient.cs:188 | The trimmed name neither starts nor ends with white space. |
| Gbif.TrimIsSlice | Natura.Server/Services/GbifClient.cs:188 | The input is leading white space, then the trimmed name, then trailing white space. |
| Gbif.TrimIdempotent | Natura.Server/Services/GbifClient.cs:188 | Trimming twice equals trimming once. |
| Gbif.VernacularNames | Natura.Server/Services/GbifClient.cs:186-190 | The names are pairwise distinct, each is one of the trimmed English names, and every trimmed English name is among them. |
| Gbif.VernacularNamesSpec | Natura.Server/Services/GbifClient.cs:186-190 | The names are pairwise distinct, taken from the trimmed English names, and in order of first occurrence there. Every English entry's trimmed name is among them. |
| Gbif.VernacularNamesSound | Natura.Server/Services/GbifClient.cs:186-190 | Every name is the trimmed name of an entry whose language is `eng`, and has no surrounding white space. |
| Gbif.FindSpeciesVernacularNames | Natura.Server/Services/GbifClient.cs:173-191 | A failure status raises that status. Otherwise the result is `VernacularNames` of the answer, so `VernacularNamesSpec` and `VernacularNamesSound` apply. It is duplicate-free, includes every English entry's trimmed name, and holds nothing else. |
| IdentificationController.Respond | Natura.Server/Controllers/PlantIdentificationController.cs:79-109 | Nothing identified gives NotFound. A failed update gives Problem. Otherwise Ok with a non-empty list: the common names, or just the scientific name when there are none. |
| IdentificationController.FindPlant | Natura.Server/Controllers/PlantIdentificationController.cs:90-91 | Finds the stored plant with the given scientific name, and finds none exactly when no stored plant has that name. |
| IdentificationController.PlantToAdd | Natura.Server/Controllers/PlantIdentificationController.cs:90-98 | A stored plant with the identified name gets the identified common names merged in (`MergedFrom`) and is the one used. Otherwise a fresh plant is built from the identification and joins the store once persisted. Other stored plants are untouched, the store stays valid, and every identified name is among the plant's names. A stored plant whose names were free of repetitions stays so. |
| IdentificationController.CollectIdentifiedPlant | Natura.Server/Controllers/PlantIdentificationController.cs:90-100 | The plant from `PlantToAdd`, merged or new, ends up in the user's collection as `Collect` describes. A species new to the store is always appended. Other stored plants are untouched. |
| IdentificationController.ProcessPlant | Natura.Server/Controllers/PlantIdentificationController.cs:77-110 | Nothing identified gives NotFound with no state change. Otherwise the stored plant with that name gets the identified names merged in, or a new plant is built, and that plant is collected; a new species is always appended. The answer is `Respond(...)`, and every name in an Ok answer is one of the collected plant's names or its scientific name. On success the collection stays within the store. |
| IdentificationController.SavedNamesAsWritten | Natura.Server/Controllers/PlantIdentificationController.cs:84-93 | The names the code as written saves for a stored plant: the stored names stay a prefix. For a plant the user has collected, whose names the user query loaded, this is the merge `MergeNames`. For any other plant it is the stored names followed by all the distinct identified names. |
| IdentificationController.UncollectedPlantRepeatsNames | Natura.Server/Controllers/PlantIdentificationController.cs:84-93 | Saved as written, a plant the user has not collected gets a repeated name whenever an identified name is already stored. |
| IdentificationController.WattleIsSavedTwice | Natura.Server/Controllers/PlantIdentificationController.cs:84-93 | Stored names `["Wattle"]` and identified names `["Wattle", "Golden wattle"]` are saved as `["Wattle", "Wattle", "Golden wattle"]`. |
| IdentificationController.MergedNamesStayDistinct | Natura.Server/Models/Plant.cs:39-51 | Merged against the full name list, a list free of repetitions stays free of them. |
| IdentificationController.NewPlantIsNotCollected | Natura.Server/Controllers/PlantIdentificationController.cs:95-100 | A plant whose scientific name is not in the store is not in a collection drawn from the store. |
| IdentificationController.CollectedStaysInStore | Natura.Server/Controllers/PlantIdentificationController.cs:95-100 | Collecting a plant that the store holds or gains keeps the collection within the store. |
| IdentificationController.IdentifyPlantFromUrl | Natura.Server/Controllers/PlantIdentificationController.cs:41-56 | A failing identification answers Problem and changes nothing. Otherwise the answer is `Respond` of the identification. With nothing identified nothing changes. With a plant identified, the stored plant with its name gets the identified names merged in (`MergedFrom`), or a fresh plant is built and joins the store once persisted. That plant is collected as `Collect` describes, and other stored plants are untouched. |
| IdentificationController.IdentifyPlantFromBody | Natura.Server/Controllers/PlantIdentificationController.cs:58-75 | The same contract as the URL action, for an image sent in the request body: failure answers Problem with no change, and otherwise `Respond`, merge or create, and collect. |

## Left out

- HTTP transport, `QueryBuilder` URLs and JSON (de)serialisation are not modelled. Answers are parsed inputs, and the cache's serialise and deserialise steps are taken to round-trip.
- Fixed query parameters are not modelled. These are country `AU`, media type `StillImage`, kingdom key 6, language `en` and limit 3: they only shape the request.
- The cache's six-hour sliding expiration is not modelled. It is time-based and owned by the distributed cache, which is a plain map here.
- The retry policy in Natura.Server/ServiceRegistrations.cs is not modelled. It is library configuration: three retries, waiting 2, 4 and 8 seconds (2^attempt), with floating-point delays.
- Gbif.GbifClient.FindImagesForSpeciesKeys: it promises only the multiset of images. The source gathers them in a concurrent bag over a parallel enumeration, so their order is unspecified. With several failing keys, which status is raised is unspecified too.
- Logging is not modelled: it has no effect on results.
- Plants.Plant.HashCode uses a fixed 31-based string hash, not .NET's per-process randomised `string.GetHashCode`. Only the fact that it depends on the scientific name alone is used.
- `Entity.Id` and the `UserId`/`PlantId` foreign keys are not modelled. They are database-generated and play no part in the logic. The private constructors used by the database mapper are left out for the same reason.
- Persisting is not modelled. `UpdateAsync` is a boolean outcome, and a new plant joins the store only when it succeeds. When it fails, the in-memory changes stay made, as in the source.
- Concurrency between requests is not modelled. The `SingleAsync` lookup of the fixed user `natura` is replaced by the user object.
- IdentificationController.PlantToAdd: it merges a stored plant's names against the full stored list. In the source, lines 90-91 of the controller load the plant without its names, so for a plant the user has not collected the merge runs against no names and re-appends stored names. `SavedNamesAsWritten` models that; see "## Findings".
- IdentificationController.CollectIdentifiedPlant: its merged-plant clause assumes the stored plant's names are loaded, as for `PlantToAdd`. For a stored plant the user has not collected, the source saves `SavedNamesAsWritten(stored, false, names)` instead.
- IdentificationController.ProcessPlant: "the stored plant gets the identified names merged in" assumes the plant's names are loaded. This holds in the source only for a plant already in the user's collection; otherwise see `SavedNamesAsWritten`.
- IdentificationController.IdentifyPlantFromUrl: its merged-plant clause comes from `ProcessPlant` and makes the same assumption about loaded names.
- IdentificationController.IdentifyPlantFromBody: its merged-plant clause comes from `ProcessPlant` and makes the same assumption about loaded names.
- PlantNet.ProcessResult: only the first element of the descending sort is modelled, as a stable linear scan. Scores are integers, since they are only compared.
- The collection page, authentication, hosting, the seeding program and the integration test are not modelled. They are UI, wiring or one-shot I/O with no domain logic.

## Findings

| source | as written | input that shows it | evidently intended | confidence | as-written member | corrected member |
|---|---|---|---|---|---|---|
| Natura.Server/Controllers/PlantIdentificationController.cs:90-93 | The stored plant is fetched without `.Include(x => x.PlantNames)`, and no lazy loading is configured. Its names are in memory only when the user query at lines 84-88 loaded them, that is when the user has collected it. Otherwise `AddMissingCommonNames` compares against no names and appends every distinct identified name after the stored ones. | A seeded plant with names `["Wattle"]`, not in the user's collection, identified with names `["Wattle", "Golden wattle"]`: saved as `["Wattle", "Wattle", "Golden wattle"]` (`WattleIsSavedTwice`; in general `UncollectedPlantRepeatsNames`). | The identified names are merged against the plant's full stored list, so only missing names are added and a list free of repetitions stays so (`MergedNamesStayDistinct`). | high; not executed | IdentificationController.SavedNamesAsWritten | IdentificationController.PlantToAdd |
