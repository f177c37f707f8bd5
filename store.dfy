/**
 * The MongoDB collections the pipeline reads and writes, held in memory. Each
 * collection is the sequence of its documents in insertion order, and each
 * document kind is a datatype with the keys the pipeline gives it.
 */
module Store {
  import opened Wrappers

  /**
   * A document of `publications_raw`: the metadata taken from the PDF's path,
   * the extracted text, and the tokens once general preprocessing has run
   * (`None` while the document has no `tokens` key).
   */
  datatype RawDoc = RawDoc(journal: string, title: string, year: string, content: string, tokens: Option<seq<string>>)

  /**
   * A document of `coherence`: the five hyperparameters as the path segments
   * they were read from, and the c_v coherence score.
   */
  datatype CoherenceDoc = CoherenceDoc(k: string, prior: string, seed: string, passes: string, iterations: string, score: real)

  /**
   * A document of `publications`: metadata copied from `publications_raw` and
   * the inferred proportion of each topic, keyed by the topic id as text.
   */
  datatype Publication = Publication(journal: string, year: string, title: string, topics: map<string, real>)

  /** The three collections. */
  class Database {
    var publicationsRaw: seq<RawDoc>
    var coherence: seq<CoherenceDoc>
    var publications: seq<Publication>

    constructor (raw: seq<RawDoc>, scores: seq<CoherenceDoc>, pubs: seq<Publication>)
      ensures publicationsRaw == raw && coherence == scores && publications == pubs
    {
      publicationsRaw := raw;
      coherence := scores;
      publications := pubs;
    }
  }
}
