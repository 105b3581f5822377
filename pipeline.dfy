/**
 * `search` and `get_combined_ids`: the query is spell-corrected and normalised
 * for the semantic ranking, used as given for the lexical scan, and the two
 * result lists are merged.
 *
 * The sentence encoder and cosine similarity are represented by `similarity`,
 * which scores a normalised query text against a document's normalised
 * embedding text.
 */
module Pipeline {
  import opened Wrappers
  import opened Text
  import opened Typos
  import opened Lexical
  import opened Ranking
  import opened Combiner

  /** `search_dataset`'s default `max_results`. */
  const MaxResults: int := 30

  /** `search`'s default `top_n`. */
  const TopN: int := 10

  /** The text a solution's embedding is computed from (`title + " " + content`). */
  function SolutionText(s: Solution): (t: string)
    ensures Normalized(t)
  {
    Preprocess(Some(s.title + " " + s.content))
  }

  /** The text a regulation's embedding is computed from; missing fields read as `''`. */
  function RegulationText(r: Regulation): (t: string)
    ensures Normalized(t)
  {
    Preprocess(Some(OrEmpty(r.judul) + " " + OrEmpty(r.sumber) + " " + OrEmpty(r.subjek)))
  }

  /** The text the query's embedding is computed from: the corrected query, normalised. */
  function QueryText(lookup: string -> seq<string>, query: string): (t: string)
    ensures Normalized(t)
  {
    Preprocess(Some(Join(Corrections(lookup, Words(query)))))
  }

  function SolutionScores(similarity: (string, string) -> int, q: string, sols: seq<Solution>): (scores: seq<int>)
    ensures |scores| == |sols|
    ensures forall i | 0 <= i < |sols| :: scores[i] == similarity(q, SolutionText(sols[i]))
  {
    seq(|sols|, i requires 0 <= i < |sols| => similarity(q, SolutionText(sols[i])))
  }

  function RegulationScores(similarity: (string, string) -> int, q: string, regs: seq<Regulation>): (scores: seq<int>)
    ensures |scores| == |regs|
    ensures forall i | 0 <= i < |regs| :: scores[i] == similarity(q, RegulationText(regs[i]))
  {
    seq(|regs|, i requires 0 <= i < |regs| => similarity(q, RegulationText(regs[i])))
  }

  /** `search(query, top_n)`: both sub-corpora must be non-empty, since the
      source reads the first entry of each ranking. */
  method Search(query: string, sols: seq<Solution>, regs: seq<Regulation>,
                lookup: string -> seq<string>, similarity: (string, string) -> int, topN: int)
    returns (results: seq<Scored<Document>>)
    requires sols != [] && regs != []
    ensures var q := QueryText(lookup, query);
      results == Select(sols, regs, SolutionScores(similarity, q, sols), RegulationScores(similarity, q, regs), topN)
  {
    var corrected, original := CorrectTypos(query, lookup);
    var q := Preprocess(Some(corrected));
    var solScores := SolutionScores(similarity, q, sols);
    var regScores := RegulationScores(similarity, q, regs);
    results := Select(sols, regs, solScores, regScores, topN);
  }

  /** The ids `get_combined_ids(query)` returns. */
  function CombinedIds(query: string, sols: seq<Solution>, regs: seq<Regulation>,
                       lookup: string -> seq<string>, similarity: (string, string) -> int): seq<int>
    requires sols != [] && regs != []
  {
    var q := QueryText(lookup, query);
    var semantic := Select(sols, regs, SolutionScores(similarity, q, sols), RegulationScores(similarity, q, regs), TopN);
    Dedup(LexicalIds(LexicalResults(query, sols, regs, MaxResults)) + SemanticIds(semantic))
  }

  /** `get_combined_ids(query)`: lexical scan with the defaults, semantic
      search with the defaults, then the merge. */
  method GetCombinedIds(query: string, sols: seq<Solution>, regs: seq<Regulation>,
                        lookup: string -> seq<string>, similarity: (string, string) -> int)
    returns (ids: seq<int>)
    requires sols != [] && regs != []
    ensures ids == CombinedIds(query, sols, regs, lookup, similarity)
  {
    var manualResults := SearchDataset(query, sols, regs, MaxResults);
    var semanticResults := Search(query, sols, regs, lookup, similarity, TopN);
    ids := CombineIds(manualResults, semanticResults);
  }

  /** The combined ids carry no duplicate; they are exactly the ids of the
      lexical hits and of the semantic hits; the lexical hits' ids come first,
      in their order, then the semantic ids not already listed, in rank order. */
  lemma CombinedIdsMerge(query: string, sols: seq<Solution>, regs: seq<Regulation>,
                         lookup: string -> seq<string>, similarity: (string, string) -> int)
    requires sols != [] && regs != []
    ensures var q := QueryText(lookup, query);
      var lexical := LexicalIds(LexicalResults(query, sols, regs, MaxResults));
      var semantic := SemanticIds(Select(sols, regs, SolutionScores(similarity, q, sols), RegulationScores(similarity, q, regs), TopN));
      var ids := CombinedIds(query, sols, regs, lookup, similarity);
      && NoDuplicates(ids)
      && (forall x :: x in ids <==> x in lexical || x in semantic)
      && ids == Dedup(lexical) + DedupFrom(semantic, Elems(lexical))
  {
    var q := QueryText(lookup, query);
    var lexical := LexicalIds(LexicalResults(query, sols, regs, MaxResults));
    var semantic := SemanticIds(Select(sols, regs, SolutionScores(similarity, q, sols), RegulationScores(similarity, q, regs), TopN));
    DedupNoDuplicates(lexical + semantic);
    DedupSameIds(lexical + semantic);
    DedupAppend(lexical, semantic);
  }

  /** When the lexical scan finds something, its first hit's id is the first
      combined id. */
  lemma FirstLexicalHitLeads(query: string, sols: seq<Solution>, regs: seq<Regulation>,
                             lookup: string -> seq<string>, similarity: (string, string) -> int)
    requires sols != [] && regs != []
    requires LexicalResults(query, sols, regs, MaxResults) != []
    ensures var ids := CombinedIds(query, sols, regs, lookup, similarity);
      ids != [] && ids[0] == LexicalResults(query, sols, regs, MaxResults)[0].Id()
  {
    var q := QueryText(lookup, query);
    var lexical := LexicalIds(LexicalResults(query, sols, regs, MaxResults));
    var semantic := SemanticIds(Select(sols, regs, SolutionScores(similarity, q, sols), RegulationScores(similarity, q, regs), TopN));
    assert CombinedIds(query, sols, regs, lookup, similarity) == Dedup(lexical + semantic);
    DedupKeepsHead(lexical + semantic);
  }
}
