/**
 * The GBIF client (`Services/GbifClient.cs`): the post-processing of GBIF's
 * search answers, and the cache in front of the image search.
 * An HTTP answer is an input here: its status code and its already parsed
 * `results` list.
 */
module Gbif {
  import opened Wrappers
  import opened Linq

  /** One image record (`Services/Output/GbifImage.cs`). */
  datatype GbifImage = GbifImage(kind: string, url: string, creator: string, publisher: string)

  /** One occurrence record; its media list may hold null entries. */
  datatype Occurrence = Occurrence(
    gbifId: string,
    media: seq<Option<GbifImage>>,
    scientificName: string,
    acceptedScientificName: string,
    kingdom: string,
    phylum: string,
    order: string,
    family: string,
    genus: string,
    species: string,
    speciesKey: int,
    genericName: string,
    specificEpithet: string)

  /** One vernacular-name record, tagged with its language. */
  datatype Vernacular = Vernacular(name: string, language: string)

  /** An HTTP answer carrying GBIF's paginated `results` envelope. */
  datatype HttpResponse<T> = HttpResponse(statusCode: int, results: seq<T>)

  /** The `HttpRequestException` that `EnsureSuccessStatusCode` throws. */
  datatype HttpError = HttpRequestError(statusCode: int)

  /** `IsSuccessStatusCode`: a status in 200..299. */
  predicate IsSuccessStatusCode(statusCode: int)
  {
    200 <= statusCode <= 299
  }

  // ---------------------------------------------------------------------------
  // Images of a species

  /** `occurrences.SelectMany(x => x.Media)`. */
  function SelectManyMedia(occurrences: seq<Occurrence>): seq<Option<GbifImage>>
  {
    if occurrences == [] then [] else occurrences[0].media + SelectManyMedia(occurrences[1..])
  }

  /** `media.Where(x => x != null)`. */
  function WhereNotNull(media: seq<Option<GbifImage>>): (r: seq<GbifImage>)
    ensures |r| <= |media|
    ensures forall i :: 0 <= i < |r| ==> Some(r[i]) in media
  {
    if media == [] then []
    else (if media[0].Some? then [media[0].value] else []) + WhereNotNull(media[1..])
  }

  /** The image list of a search answer: all media of all occurrences, in order, nulls dropped. */
  function ImagesOf(occurrences: seq<Occurrence>): (r: seq<GbifImage>)
    ensures |r| <= |SelectManyMedia(occurrences)|
    ensures forall i :: 0 <= i < |r| ==> Some(r[i]) in SelectManyMedia(occurrences)
  {
    WhereNotNull(SelectManyMedia(occurrences))
  }

  lemma {:induction false} WhereNotNullConcat(a: seq<Option<GbifImage>>, b: seq<Option<GbifImage>>)
    ensures WhereNotNull(a + b) == WhereNotNull(a) + WhereNotNull(b)
    decreases |a|
  {
    if a != [] {
      var head := if a[0].Some? then [a[0].value] else [];
      assert (a + b)[0] == a[0];
      assert (a + b)[1..] == a[1..] + b;
      WhereNotNullConcat(a[1..], b);
      calc {
        WhereNotNull(a + b);
        head + WhereNotNull(a[1..] + b);
        head + (WhereNotNull(a[1..]) + WhereNotNull(b));
        (head + WhereNotNull(a[1..])) + WhereNotNull(b);
        WhereNotNull(a) + WhereNotNull(b);
      }
    } else {
      assert a + b == b;
    }
  }

  lemma {:induction false} SelectManyMediaConcat(a: seq<Occurrence>, b: seq<Occurrence>)
    ensures SelectManyMedia(a + b) == SelectManyMedia(a) + SelectManyMedia(b)
    decreases |a|
  {
    if a != [] {
      assert (a + b)[0] == a[0];
      assert (a + b)[1..] == a[1..] + b;
      SelectManyMediaConcat(a[1..], b);
      calc {
        SelectManyMedia(a + b);
        a[0].media + SelectManyMedia(a[1..] + b);
        a[0].media + (SelectManyMedia(a[1..]) + SelectManyMedia(b));
        (a[0].media + SelectManyMedia(a[1..])) + SelectManyMedia(b);
        SelectManyMedia(a) + SelectManyMedia(b);
      }
    } else {
      assert a + b == b;
    }
  }

  lemma {:induction false} WhereNotNullMembership(media: seq<Option<GbifImage>>, image: GbifImage)
    ensures image in WhereNotNull(media) <==> Some(image) in media
    decreases |media|
  {
    if media != [] {
      WhereNotNullMembership(media[1..], image);
      assert media == [media[0]] + media[1..];
    }
  }

  /** The images of two answers read one after the other are the images of each, concatenated. */
  lemma ImagesOfConcat(a: seq<Occurrence>, b: seq<Occurrence>)
    ensures ImagesOf(a + b) == ImagesOf(a) + ImagesOf(b)
  {
    SelectManyMediaConcat(a, b);
    WhereNotNullConcat(SelectManyMedia(a), SelectManyMedia(b));
  }

  /** An image is in the list exactly when some occurrence carries it (as a non-null entry). */
  lemma {:induction false} ImagesOfMembership(occurrences: seq<Occurrence>, image: GbifImage)
    ensures image in ImagesOf(occurrences) <==>
            exists i :: 0 <= i < |occurrences| && Some(image) in occurrences[i].media
    decreases |occurrences|
  {
    if occurrences != [] {
      var rest := occurrences[1..];
      ImagesOfMembership(rest, image);
      WhereNotNullConcat(occurrences[0].media, SelectManyMedia(rest));
      WhereNotNullMembership(occurrences[0].media, image);
      if exists i :: 0 <= i < |occurrences| && Some(image) in occurrences[i].media {
        var i :| 0 <= i < |occurrences| && Some(image) in occurrences[i].media;
        if i > 0 {
          assert rest[i - 1] == occurrences[i];
        }
      }
      if exists i :: 0 <= i < |rest| && Some(image) in rest[i].media {
        var i :| 0 <= i < |rest| && Some(image) in rest[i].media;
        assert occurrences[i + 1] == rest[i];
      }
    }
  }

  /** All media, null entries included, of the searches for each key, key by key. */
  function AllMedia(speciesKeys: seq<string>, search: string -> HttpResponse<Occurrence>): seq<Option<GbifImage>>
  {
    if speciesKeys == [] then []
    else AllMedia(speciesKeys[..|speciesKeys| - 1], search) + SelectManyMedia(search(speciesKeys[|speciesKeys| - 1]).results)
  }

  /** A medium is gathered exactly when the search for one of the keys carries it. */
  lemma {:induction false} AllMediaMembership(speciesKeys: seq<string>, search: string -> HttpResponse<Occurrence>, medium: Option<GbifImage>)
    ensures medium in AllMedia(speciesKeys, search) <==>
            exists i :: 0 <= i < |speciesKeys| && medium in SelectManyMedia(search(speciesKeys[i]).results)
    decreases |speciesKeys|
  {
    if speciesKeys != [] {
      var n := |speciesKeys| - 1;
      var prefix := speciesKeys[..n];
      AllMediaMembership(prefix, search, medium);
      if exists i :: 0 <= i < |speciesKeys| && medium in SelectManyMedia(search(speciesKeys[i]).results) {
        var i :| 0 <= i < |speciesKeys| && medium in SelectManyMedia(search(speciesKeys[i]).results);
        if i < n {
          assert prefix[i] == speciesKeys[i];
        }
      }
      if exists i :: 0 <= i < |prefix| && medium in SelectManyMedia(search(prefix[i]).results) {
        var i :| 0 <= i < |prefix| && medium in SelectManyMedia(search(prefix[i]).results);
        assert speciesKeys[i] == prefix[i];
      }
    }
  }

  /** A cache entry that short-circuits the search: present and non-empty. */
  predicate CachedNonEmpty(cache: map<string, seq<GbifImage>>, speciesKey: string)
  {
    speciesKey in cache && |cache[speciesKey]| > 0
  }

  /**
   * The client, with the distributed cache it consults as a map from species
   * key to image list (a missing key stands for a cache miss).
   */
  class GbifClient {
    var cache: map<string, seq<GbifImage>>

    constructor (cache: map<string, seq<GbifImage>>)
      ensures this.cache == cache
    {
      this.cache := cache;
    }

    /**
     * `FindImagesForSpecies(speciesKey)`. `searchResponse` is the answer GBIF
     * gives to the occurrence search for this key; `requested` tells whether
     * that search was issued.
     */
    method FindImagesForSpecies(speciesKey: string, searchResponse: HttpResponse<Occurrence>)
      returns (result: Result<seq<GbifImage>, HttpError>, requested: bool)
      modifies this
      ensures requested <==> !CachedNonEmpty(old(cache), speciesKey)
      ensures !requested ==> result == Success(old(cache)[speciesKey]) && cache == old(cache)
      ensures requested && !IsSuccessStatusCode(searchResponse.statusCode) ==>
                result == Failure(HttpRequestError(searchResponse.statusCode)) && cache == old(cache)
      ensures requested && IsSuccessStatusCode(searchResponse.statusCode) ==>
                && result == Success(ImagesOf(searchResponse.results))
                && cache == old(cache)[speciesKey := ImagesOf(searchResponse.results)]
    {
      if speciesKey in cache {
        var cachedResult := cache[speciesKey];
        if |cachedResult| > 0 {
          return Success(cachedResult), false;
        }
      }
      requested := true;
      if !IsSuccessStatusCode(searchResponse.statusCode) {
        result := Failure(HttpRequestError(searchResponse.statusCode));
        return;
      }
      var images := ImagesOf(searchResponse.results);
      cache := cache[speciesKey := images];
      result := Success(images);
    }

    /**
     * `FindImagesForSpecies(speciesKeys)`: one occurrence search per key, all
     * media gathered in a concurrent bag, null entries included. The bag gives
     * no order, so only the multiset of images is promised; a failing search
     * raises its status, and with several failing keys any one of them.
     */
    method FindImagesForSpeciesKeys(speciesKeys: seq<string>, search: string -> HttpResponse<Occurrence>)
      returns (result: Result<seq<Option<GbifImage>>, HttpError>)
      ensures result.Failure? <==> exists i :: 0 <= i < |speciesKeys| && !IsSuccessStatusCode(search(speciesKeys[i]).statusCode)
      ensures result.Failure? ==> exists i :: 0 <= i < |speciesKeys| && !IsSuccessStatusCode(search(speciesKeys[i]).statusCode) &&
                                    result.error == HttpRequestError(search(speciesKeys[i]).statusCode)
      ensures result.Success? ==> multiset(result.value) == multiset(AllMedia(speciesKeys, search))
    {
      var bag: seq<Option<GbifImage>> := [];
      for i := 0 to |speciesKeys|
        invariant bag == AllMedia(speciesKeys[..i], search)
        invariant forall j :: 0 <= j < i ==> IsSuccessStatusCode(search(speciesKeys[j]).statusCode)
      {
        var httpResponse := search(speciesKeys[i]);
        if !IsSuccessStatusCode(httpResponse.statusCode) {
          return Failure(HttpRequestError(httpResponse.statusCode));
        }
        var images := SelectManyMedia(httpResponse.results);
        assert speciesKeys[..i + 1][..i] == speciesKeys[..i];
        bag := bag + images;
      }
      assert speciesKeys[..|speciesKeys|] == speciesKeys;
      result := Success(bag);
    }
  }

  /**
   * Two lookups of the same species key in a row. After a successful first
   * lookup the second one is served from the cache, with the same images,
   * exactly when the first found at least one image: an empty list is stored
   * but never suppresses a new search.
   */
  method LookUpTwice(
    client: GbifClient, speciesKey: string,
    firstResponse: HttpResponse<Occurrence>, secondResponse: HttpResponse<Occurrence>)
    returns (first: Result<seq<GbifImage>, HttpError>, second: Result<seq<GbifImage>, HttpError>,
             secondRequested: bool)
    modifies client
    ensures first.Success? ==> (secondRequested <==> first.value == [])
    ensures first.Success? && first.value != [] ==> second == first
  {
    var firstRequested;
    first, firstRequested := client.FindImagesForSpecies(speciesKey, firstResponse);
    second, secondRequested := client.FindImagesForSpecies(speciesKey, secondResponse);
  }

  // ---------------------------------------------------------------------------
  // Seed data

  function SpeciesOf(occurrence: Occurrence): string { occurrence.species }

  /**
   * `results.GroupBy(x => x.Species).Select(x => x.First())`: one occurrence
   * per species, the first one in response order, the species in order of
   * first appearance.
   */
  function SeedData(occurrences: seq<Occurrence>): (r: seq<Occurrence>)
    ensures FirstPerKey(occurrences, SpeciesOf, r)
  {
    DistinctByIsFirstPerKey(occurrences, SpeciesOf);
    DistinctBy(occurrences, SpeciesOf)
  }

  /** Three occurrences of one species and one of another give one representative each. */
  lemma SeedDataOfTwoSpecies(a1: Occurrence, a2: Occurrence, b: Occurrence, a3: Occurrence)
    requires a1.species == a2.species == a3.species != b.species
    ensures SeedData([a1, a2, b, a3]) == [a1, b]
  {
    assert [a1][..0] == [];
    assert DistinctBy([a1], SpeciesOf) == [a1];
    assert [a1, a2][..1] == [a1];
    assert Select([a1], SpeciesOf)[0] == SpeciesOf(a2);
    assert DistinctBy([a1, a2], SpeciesOf) == [a1];
    assert [a1, a2, b][..2] == [a1, a2];
    assert DistinctBy([a1, a2, b], SpeciesOf) == [a1, b];
    assert [a1, a2, b, a3][..3] == [a1, a2, b];
    assert Select([a1, b], SpeciesOf)[0] == SpeciesOf(a3);
  }

  /** `GetPlantSeedData`, given GBIF's answer to the seed search. */
  function GetPlantSeedData(response: HttpResponse<Occurrence>): (r: Result<seq<Occurrence>, HttpError>)
    ensures !IsSuccessStatusCode(response.statusCode) <==> r == Failure(HttpRequestError(response.statusCode))
    ensures IsSuccessStatusCode(response.statusCode) ==> r.Success? && FirstPerKey(response.results, SpeciesOf, r.value)
  {
    if !IsSuccessStatusCode(response.statusCode) then Failure(HttpRequestError(response.statusCode))
    else Success(SeedData(response.results))
  }

  // ---------------------------------------------------------------------------
  // Vernacular names

  /** `char.IsWhiteSpace`: the Unicode space, line and paragraph separators, and U+0009..U+000D, U+0085. */
  predicate IsWhiteSpace(c: char)
  {
    var u := c as int;
    || 0x09 <= u <= 0x0D || u == 0x20 || u == 0x85 || u == 0xA0 || u == 0x1680
    || 0x2000 <= u <= 0x200A || u == 0x2028 || u == 0x2029 || u == 0x202F || u == 0x205F || u == 0x3000
  }

  /** The number of white-space characters `s` starts with. */
  function LeadingWhiteSpace(s: string): (n: nat)
    ensures n <= |s|
    ensures forall i :: 0 <= i < n ==> IsWhiteSpace(s[i])
    ensures n == |s| || !IsWhiteSpace(s[n])
  {
    if s != [] && IsWhiteSpace(s[0]) then
      var n := 1 + LeadingWhiteSpace(s[1..]);
      assert forall i :: 1 <= i < n ==> s[i] == s[1..][i - 1];
      n
    else 0
  }

  /** The number of white-space characters `s` ends with. */
  function TrailingWhiteSpace(s: string): (n: nat)
    ensures n <= |s|
    ensures forall i :: |s| - n <= i < |s| ==> IsWhiteSpace(s[i])
    ensures n == |s| || !IsWhiteSpace(s[|s| - n - 1])
  {
    if s != [] && IsWhiteSpace(s[|s| - 1]) then
      var n := 1 + TrailingWhiteSpace(s[..|s| - 1]);
      assert forall i :: |s| - n <= i < |s| - 1 ==> s[i] == s[..|s| - 1][i];
      n
    else 0
  }

  /** `TrimStart()`: `s` without its leading white space. */
  function TrimStart(s: string): (r: string)
  {
    s[LeadingWhiteSpace(s)..]
  }

  /** `TrimEnd()`: `s` without its trailing white space. */
  function TrimEnd(s: string): (r: string)
  {
    s[..|s| - TrailingWhiteSpace(s)]
  }

  /** `Trim()`: the result neither starts nor ends with white space. */
  function Trim(s: string): (r: string)
    ensures r == [] || (!IsWhiteSpace(r[0]) && !IsWhiteSpace(r[|r| - 1]))
  {
    TrimEnd(TrimStart(s))
  }

  /** `Trim()` removes white space only: `s` is white space, then `Trim(s)`, then white space. */
  lemma TrimIsSlice(s: string)
    ensures var lead := LeadingWhiteSpace(s);
            && lead + |Trim(s)| <= |s|
            && s[lead..lead + |Trim(s)|] == Trim(s)
            && (forall i :: 0 <= i < lead ==> IsWhiteSpace(s[i]))
            && (forall i :: lead + |Trim(s)| <= i < |s| ==> IsWhiteSpace(s[i]))
  {
    TrimKeepsMiddle(s);
    TrimDropsTrailing(s);
  }

  lemma TrimKeepsMiddle(s: string)
    ensures LeadingWhiteSpace(s) + |Trim(s)| <= |s|
    ensures s[LeadingWhiteSpace(s)..LeadingWhiteSpace(s) + |Trim(s)|] == Trim(s)
  {
    var lead := LeadingWhiteSpace(s);
    var t := s[lead..];
    var n := |t| - TrailingWhiteSpace(t);
    assert Trim(s) == t[..n];
    assert t[..n] == s[lead..lead + n];
  }

  lemma TrimDropsTrailing(s: string)
    ensures forall i :: LeadingWhiteSpace(s) + |Trim(s)| <= i < |s| ==> IsWhiteSpace(s[i])
  {
    var lead := LeadingWhiteSpace(s);
    var t := s[lead..];
    var n := |t| - TrailingWhiteSpace(t);
    assert |Trim(s)| == n;
    forall i | lead + n <= i < |s|
      ensures IsWhiteSpace(s[i])
    {
      assert s[i] == t[i - lead];
    }
  }

  lemma TrimIdempotent(s: string)
    ensures Trim(Trim(s)) == Trim(s)
  {
    var r := Trim(s);
    assert TrimStart(r) == r;
    assert TrimEnd(r) == r;
  }

  predicate IsEnglish(vernacular: Vernacular) { vernacular.language == "eng" }

  function TrimmedName(vernacular: Vernacular): string { Trim(vernacular.name) }

  /** `results.Where(x => x.Language == "eng").Select(x => x.Name.Trim())`. */
  function EnglishNames(results: seq<Vernacular>): seq<string>
  {
    Select(Where(results, IsEnglish), TrimmedName)
  }

  /** `... .Distinct()`: the vernacular names the client returns. */
  function VernacularNames(results: seq<Vernacular>): (r: seq<string>)
    ensures NoDuplicates(r)
    ensures forall i :: 0 <= i < |r| ==> r[i] in EnglishNames(results)
    ensures forall i :: 0 <= i < |EnglishNames(results)| ==> EnglishNames(results)[i] in r
  {
    DistinctSpec(EnglishNames(results));
    Distinct(EnglishNames(results))
  }

  /**
   * The names are distinct, in order of first occurrence among the English
   * entries, and every English entry's trimmed name is among them.
   */
  lemma VernacularNamesSpec(results: seq<Vernacular>)
    ensures NoDuplicates(VernacularNames(results))
    ensures forall n :: n in VernacularNames(results) ==> n in EnglishNames(results)
    ensures forall i :: 0 <= i < |results| && IsEnglish(results[i]) ==>
              TrimmedName(results[i]) in VernacularNames(results)
    ensures forall i, j :: 0 <= i < j < |VernacularNames(results)| ==>
              FirstIndex(EnglishNames(results), VernacularNames(results)[i])
              < FirstIndex(EnglishNames(results), VernacularNames(results)[j])
  {
    SelectWhereComplete(results, IsEnglish, TrimmedName);
    DistinctSpec(EnglishNames(results));
  }

  /** Every name comes from an English entry, and carries no surrounding white space. */
  lemma VernacularNamesSound(results: seq<Vernacular>)
    ensures forall n :: n in VernacularNames(results) ==>
              exists i :: 0 <= i < |results| && IsEnglish(results[i]) && TrimmedName(results[i]) == n
    ensures forall n :: n in VernacularNames(results) ==> Trim(n) == n
  {
    var names := EnglishNames(results);
    SelectWhereSound(results, IsEnglish, TrimmedName);
    DistinctSpec(names);
    forall n | n in VernacularNames(results)
      ensures exists i :: 0 <= i < |results| && IsEnglish(results[i]) && TrimmedName(results[i]) == n
      ensures Trim(n) == n
    {
      var k :| 0 <= k < |names| && names[k] == n;
      var i :| 0 <= i < |results| && IsEnglish(results[i]) && TrimmedName(results[i]) == names[k];
      TrimIdempotent(results[i].name);
    }
  }

  /** `FindSpeciesVernacularNames`, given GBIF's answer to the vernacular-name lookup. */
  function FindSpeciesVernacularNames(response: HttpResponse<Vernacular>): (r: Result<seq<string>, HttpError>)
    ensures !IsSuccessStatusCode(response.statusCode) <==> r == Failure(HttpRequestError(response.statusCode))
    ensures IsSuccessStatusCode(response.statusCode) ==>
              r.Success? && r.value == VernacularNames(response.results) && NoDuplicates(r.value) &&
              (forall i :: 0 <= i < |response.results| && IsEnglish(response.results[i]) ==>
                 TrimmedName(response.results[i]) in r.value) &&
              (forall n :: n in r.value ==>
                 exists i :: 0 <= i < |response.results| && IsEnglish(response.results[i]) &&
                   TrimmedName(response.results[i]) == n)
  {
    VernacularNamesSpec(response.results);
    VernacularNamesSound(response.results);
    if !IsSuccessStatusCode(response.statusCode) then Failure(HttpRequestError(response.statusCode))
    else Success(VernacularNames(response.results))
  }
}
