/** `SearchUseCase`: embeds the query, asks the index for the nearest
    entries and keeps those scoring at least `minScore`. */
module SearchUseCase {
  import opened Base
  import opened EntryModel
  import opened SearchModel
  import opened DatabaseManager
  import opened IndexRepository
  import opened EmbeddingProvider

  function AsResult(s: Scored): (r: SearchResult)
    ensures r.path == s.entry.path && r.content == s.entry.content && r.score == s.score
  {
    SearchResult(s.entry.path, s.entry.content, s.score)
  }

  /** `results.filter(r => r.score >= minScore).map(...)`. */
  function ToSearchResults(found: seq<Scored>, minScore: real): (r: seq<SearchResult>)
    ensures |r| <= |found|
  {
    if found == [] then []
    else
      var last := found[|found| - 1];
      ToSearchResults(found[..|found| - 1], minScore) + (if last.score >= minScore then [AsResult(last)] else [])
  }

  predicate PassesAt(found: seq<Scored>, minScore: real, x: SearchResult, i: int) {
    0 <= i < |found| && found[i].score >= minScore && AsResult(found[i]) == x
  }

  /** A result is exactly a found row that reaches the minimum score. */
  lemma {:induction false} ToSearchResultsSpec(found: seq<Scored>, minScore: real)
    ensures forall x :: x in ToSearchResults(found, minScore) <==> exists i :: PassesAt(found, minScore, x, i)
    decreases |found|
  {
    if found != [] {
      var init := found[..|found| - 1];
      ToSearchResultsSpec(init, minScore);
      forall x ensures x in ToSearchResults(found, minScore) <==> exists i :: PassesAt(found, minScore, x, i) {
        if x in ToSearchResults(init, minScore) {
          var i :| PassesAt(init, minScore, x, i);
          assert PassesAt(found, minScore, x, i);
        } else if x in ToSearchResults(found, minScore) {
          assert PassesAt(found, minScore, x, |found| - 1);
        }
        if exists i :: PassesAt(found, minScore, x, i) {
          var i :| PassesAt(found, minScore, x, i);
          if i < |found| - 1 {
            assert PassesAt(init, minScore, x, i);
          }
        }
      }
    }
  }

  /** Every row passes (the default `minScore` of 0 against scores in
      (0, 1]): nothing is dropped. */
  lemma {:induction false} ToSearchResultsKeepsAll(found: seq<Scored>, minScore: real)
    requires forall i :: 0 <= i < |found| ==> found[i].score >= minScore
    ensures |ToSearchResults(found, minScore)| == |found|
    ensures forall i :: 0 <= i < |found| ==> ToSearchResults(found, minScore)[i] == AsResult(found[i])
    decreases |found|
  {
    if found != [] {
      ToSearchResultsKeepsAll(found[..|found| - 1], minScore);
    }
  }

  predicate ResultsNonIncreasing(rs: seq<SearchResult>) {
    forall i, j :: 0 <= i < j < |rs| ==> rs[i].score >= rs[j].score
  }

  /** Filtering keeps the index's best-first order. */
  lemma {:induction false} ToSearchResultsSorted(found: seq<Scored>, minScore: real)
    requires ScoresNonIncreasing(found)
    ensures ResultsNonIncreasing(ToSearchResults(found, minScore))
    decreases |found|
  {
    if found != [] {
      var init := found[..|found| - 1];
      var last := found[|found| - 1];
      ToSearchResultsSorted(init, minScore);
      var rest := ToSearchResults(init, minScore);
      if last.score >= minScore {
        ToSearchResultsSpec(init, minScore);
        var r := rest + [AsResult(last)];
        forall i, j | 0 <= i < j < |r| ensures r[i].score >= r[j].score {
          if j == |r| - 1 {
            assert rest[i] in rest;
            var k :| PassesAt(init, minScore, rest[i], k);
            assert found[k] == init[k];
          } else {
            assert r[i] == rest[i] && r[j] == rest[j];
          }
        }
      }
    }
  }

  class SearchUseCaseImpl {
    const indexRepo: IndexRepositoryImpl
    const embeddingProvider: OllamaEmbeddingProvider

    constructor (indexRepo: IndexRepositoryImpl, embeddingProvider: OllamaEmbeddingProvider)
      ensures this.indexRepo == indexRepo && this.embeddingProvider == embeddingProvider
    {
      this.indexRepo := indexRepo;
      this.embeddingProvider := embeddingProvider;
    }

    /** `search`: an empty `path` option means no filter. */
    method Search(query: string, options: SearchOptions, nearest: Nearest) returns (r: Result<seq<SearchResult>>)
      requires indexRepo.db.Valid()
      requires IsNearestOracle(nearest)
      modifies embeddingProvider
      ensures embeddingProvider.dimensions == DimsAfter(embeddingProvider.client(embeddingProvider.model, query), old(embeddingProvider.dimensions))
      ensures EmbedOutcome(embeddingProvider.client(embeddingProvider.model, query)).Err? ==>
        r == Err(EmbedOutcome(embeddingProvider.client(embeddingProvider.model, query)).error)
      ensures EmbedOutcome(embeddingProvider.client(embeddingProvider.model, query)).Ok? ==>
        var opts := ResolveOptions(options);
        var filter := if opts.path != "" then Some(opts.path) else None;
        var v := EmbedOutcome(embeddingProvider.client(embeddingProvider.model, query)).value;
        var db := indexRepo.db;
        && (!db.connected ==> r == Err(DatabaseNotInitialized))
        && (db.connected && db.vecDims.None? ==> r == Err(Sql(NoSuchTable)))
        && (db.connected && db.vecDims.Some? && |v| != db.vecDims.value ==> r == Err(Sql(DimensionMismatch)))
        && (db.connected && db.vecDims.Some? && |v| == db.vecDims.value ==>
              var k := if filter.Some? then opts.limit * 2 else opts.limit;
              var rows := Join(nearest(v, k), db.entries, db.vectors, RowidIndex(db.entries), filter);
              r == Ok(ToSearchResults(rows[..Min(opts.limit, |rows|)], opts.minScore)))
      ensures r.Ok? ==> |r.value| <= ResolveOptions(options).limit
      ensures r.Ok? ==> ResultsNonIncreasing(r.value)
      ensures r.Ok? ==> forall i :: 0 <= i < |r.value| ==>
        && r.value[i].score >= ResolveOptions(options).minScore
        && r.value[i].path in indexRepo.db.entries
        && r.value[i].content == indexRepo.db.entries[r.value[i].path].content
      ensures r.Ok? && ResolveOptions(options).path != "" ==> forall i :: 0 <= i < |r.value| ==>
        InDirectory(r.value[i].path, ResolveOptions(options).path)
    {
      var opts := ResolveOptions(options);
      var queryEmbedding := embeddingProvider.Embed(query);
      if queryEmbedding.Err? {
        return Err(queryEmbedding.error);
      }
      var filter := if opts.path != "" then Some(opts.path) else None;
      var results := indexRepo.FindSimilar(queryEmbedding.value, opts.limit, filter, nearest);
      if results.Err? {
        return Err(results.error);
      }
      var searchResults := ToSearchResults(results.value, opts.minScore);
      ToSearchResultsSpec(results.value, opts.minScore);
      ToSearchResultsSorted(results.value, opts.minScore);
      forall i | 0 <= i < |searchResults|
        ensures searchResults[i].score >= opts.minScore
        ensures searchResults[i].path in indexRepo.db.entries
        ensures searchResults[i].content == indexRepo.db.entries[searchResults[i].path].content
        ensures filter.Some? ==> InDirectory(searchResults[i].path, opts.path)
      {
        assert searchResults[i] in searchResults;
        var k :| PassesAt(results.value, opts.minScore, searchResults[i], k);
      }
      return Ok(searchResults);
    }
  }
}
