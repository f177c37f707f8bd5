/**
 * evaluation.py: scoring every saved model once (calculate_coherence), the
 * k-by-configuration table of scores (plot_coherence, without the drawing)
 * and the topic tables of one chosen model (output_lda_topics). Loading a
 * model, the c_v score and `print_topic` are inputs.
 */
module Evaluation {
  import opened Wrappers
  import opened Strings
  import opened FileSystem
  import opened PathCodec
  import opened Helpers
  import opened Store

  // ---------------------------------------------------------------------------
  // calculate_coherence
  // ---------------------------------------------------------------------------

  /** The listing filter `x.endswith('lda.model')`, in listing order. */
  function ModelPaths(listing: seq<Path>): (r: seq<Path>)
    ensures |r| <= |listing|
    ensures forall m :: m in r <==> m in listing && EndsWith(m, ModelFileName)
  {
    if listing == [] then []
    else
      var rest := ModelPaths(listing[..|listing| - 1]);
      var m := listing[|listing| - 1];
      assert forall g :: g in listing <==> g in listing[..|listing| - 1] || g == m by {
        assert listing == listing[..|listing| - 1] + [m];
      }
      if EndsWith(m, ModelFileName) then rest + [m] else rest
  }

  /** The filter keeps the listing order: a listing's models are those of its first part, then those of the rest. */
  lemma {:induction false} ModelPathsAppend(a: seq<Path>, b: seq<Path>)
    ensures ModelPaths(a + b) == ModelPaths(a) + ModelPaths(b)
    decreases |b|
  {
    if b != [] {
      var n := |b| - 1;
      ModelPathsAppend(a, b[..n]);
      assert (a + b)[..|a + b| - 1] == a + b[..n];
      assert (a + b)[|a + b| - 1] == b[n];
    } else {
      assert a + b == a;
    }
  }

  /** A one-path listing keeps its path exactly when it ends in `lda.model`. */
  lemma ModelPathsSingle(m: Path)
    ensures ModelPaths([m]) == if EndsWith(m, ModelFileName) then [m] else []
  {
    assert [m][..0] == [];
  }

  /** The hyperparameters a coherence record was stored with. */
  function RecordCell(d: CoherenceDoc): CellText
  {
    CellText(d.k, d.prior, d.seed, d.passes, d.iterations)
  }

  /** The keys of the models already scored. */
  function ScoredKeys(docs: seq<CoherenceDoc>): (r: seq<string>)
    ensures |r| == |docs|
  {
    seq(|docs|, i requires 0 <= i < |docs| => Key(RecordCell(docs[i])))
  }

  /**
   * The records a scan over the model paths has inserted, the model paths it
   * has loaded and scored (in order), and whether a path with fewer than six
   * components stopped it.
   */
  datatype Scan = Scan(added: seq<CoherenceDoc>, loaded: seq<Path>, crashed: bool)

  /** One iteration of the loop over the models; `score` stands for loading the model and computing its c_v coherence. */
  function ModelStep(snapshot: seq<string>, score: Path -> real, s: Scan, m: Path): Scan
  {
    if s.crashed then s
    else match DecodeModelPath(m)
      case None => s.(crashed := true)
      case Some(t) =>
        if Key(t) in snapshot then s
        else s.(added := s.added + [CoherenceDoc(t.k, t.prior, t.seed, t.passes, t.iterations, score(m))], loaded := s.loaded + [m])
  }

  /** The loop over `models`, from an empty scan. */
  function Coherence(snapshot: seq<string>, score: Path -> real, models: seq<Path>): Scan
  {
    if models == [] then Scan([], [], false)
    else ModelStep(snapshot, score, Coherence(snapshot, score, models[..|models| - 1]), models[|models| - 1])
  }

  lemma CoherencePrefixStep(snapshot: seq<string>, score: Path -> real, models: seq<Path>, i: nat)
    requires i < |models|
    ensures Coherence(snapshot, score, models[..i + 1]) == ModelStep(snapshot, score, Coherence(snapshot, score, models[..i]), models[i])
  {
    assert models[..i + 1][..i] == models[..i];
  }

  /** Once a path has stopped the scan, the models after it change nothing. */
  lemma {:induction false} CoherenceStopped(snapshot: seq<string>, score: Path -> real, models: seq<Path>, n: nat)
    requires n <= |models| && Coherence(snapshot, score, models[..n]).crashed
    ensures Coherence(snapshot, score, models) == Coherence(snapshot, score, models[..n])
    decreases |models|
  {
    if n < |models| {
      var init := models[..|models| - 1];
      assert init[..n] == models[..n];
      CoherenceStopped(snapshot, score, init, n);
    } else {
      assert models[..n] == models;
    }
  }

  /** Records are only ever appended. */
  lemma CoherenceGrows(snapshot: seq<string>, score: Path -> real, models: seq<Path>)
    requires models != []
    ensures var p := Coherence(snapshot, score, models[..|models| - 1]);
      var q := Coherence(snapshot, score, models);
      |p.added| <= |q.added| && p.added == q.added[..|p.added|] && (p.crashed ==> q == p)
  {
  }

  /** At most one record per model. */
  lemma {:induction false} CoherenceCount(snapshot: seq<string>, score: Path -> real, models: seq<Path>)
    ensures |Coherence(snapshot, score, models).added| <= |models|
    decreases |models|
  {
    if models != [] {
      CoherenceCount(snapshot, score, models[..|models| - 1]);
    }
  }

  /**
   * Every inserted record belongs to a model path that decodes, whose key was
   * not in the snapshot; it holds the five decoded strings and that model's score.
   */
  lemma {:induction false} CoherenceAdded(snapshot: seq<string>, score: Path -> real, models: seq<Path>, d: CoherenceDoc)
    returns (m: Path)
    requires d in Coherence(snapshot, score, models).added
    ensures m in models && DecodeModelPath(m).Some?
    ensures Key(DecodeModelPath(m).value) !in snapshot
    ensures RecordCell(d) == DecodeModelPath(m).value && d.score == score(m)
    decreases |models|
  {
    var init := models[..|models| - 1];
    if d in Coherence(snapshot, score, init).added {
      m := CoherenceAdded(snapshot, score, init, d);
    } else {
      m := models[|models| - 1];
    }
  }

  lemma PrefixMember(a: seq<CoherenceDoc>, b: seq<CoherenceDoc>, d: CoherenceDoc)
    requires |a| <= |b| && a == b[..|a|] && d in a
    ensures d in b
  {
    var i :| 0 <= i < |a| && a[i] == d;
    assert b[i] == d;
  }

  /** A model path that decodes to an unscored key is loaded, scored and adds its record. */
  lemma ModelStepInserts(snapshot: seq<string>, score: Path -> real, s: Scan, m: Path)
    requires !s.crashed && DecodeModelPath(m).Some? && Key(DecodeModelPath(m).value) !in snapshot
    ensures var t := DecodeModelPath(m).value;
      ModelStep(snapshot, score, s, m).added == s.added + [CoherenceDoc(t.k, t.prior, t.seed, t.passes, t.iterations, score(m))]
    ensures ModelStep(snapshot, score, s, m).loaded == s.loaded + [m]
  {
  }

  /**
   * The scan loads exactly the models it records: the i-th loaded path decodes
   * to an unscored key, and the i-th record holds its fields and its score.
   */
  lemma {:induction false} CoherenceLoads(snapshot: seq<string>, score: Path -> real, models: seq<Path>)
    ensures var q := Coherence(snapshot, score, models);
      |q.loaded| == |q.added| &&
      forall i :: 0 <= i < |q.loaded| ==>
        q.loaded[i] in models && DecodeModelPath(q.loaded[i]).Some? &&
        Key(DecodeModelPath(q.loaded[i]).value) !in snapshot &&
        RecordCell(q.added[i]) == DecodeModelPath(q.loaded[i]).value && q.added[i].score == score(q.loaded[i])
    decreases |models|
  {
    if models != [] {
      var init := models[..|models| - 1];
      CoherenceLoads(snapshot, score, init);
      var p := Coherence(snapshot, score, init);
      var q := Coherence(snapshot, score, models);
      if q != p {
        forall i | 0 <= i < |q.loaded|
          ensures q.loaded[i] in models
        {
          if i < |p.loaded| {
            assert p.loaded[i] in init;
          }
        }
      }
    }
  }

  /** In a scan that does not stop, every model whose key is unscored gets a record. */
  lemma {:induction false} CoherenceInserts(snapshot: seq<string>, score: Path -> real, models: seq<Path>, j: nat)
    requires j < |models| && !Coherence(snapshot, score, models).crashed
    requires DecodeModelPath(models[j]).Some? && Key(DecodeModelPath(models[j]).value) !in snapshot
    ensures var t := DecodeModelPath(models[j]).value;
      CoherenceDoc(t.k, t.prior, t.seed, t.passes, t.iterations, score(models[j])) in Coherence(snapshot, score, models).added
    decreases |models|
  {
    var init := models[..|models| - 1];
    var p := Coherence(snapshot, score, init);
    var q := Coherence(snapshot, score, models);
    var t := DecodeModelPath(models[j]).value;
    var d := CoherenceDoc(t.k, t.prior, t.seed, t.passes, t.iterations, score(models[j]));
    CoherenceGrows(snapshot, score, models);
    if j < |models| - 1 {
      assert d in p.added by {
        assert init[j] == models[j];
        CoherenceInserts(snapshot, score, init, j);
      }
      PrefixMember(p.added, q.added, d);
    } else {
      ModelStepInserts(snapshot, score, p, models[j]);
    }
  }

  /** When every model that decodes has its key in `seen`, a scan over `seen` inserts nothing. */
  lemma {:induction false} CoherenceCovered(snapshot: seq<string>, seen: seq<string>, score: Path -> real, models: seq<Path>)
    requires !Coherence(snapshot, score, models).crashed
    requires forall m :: m in models && DecodeModelPath(m).Some? ==> Key(DecodeModelPath(m).value) in seen
    ensures Coherence(seen, score, models) == Scan([], [], false)
    decreases |models|
  {
    if models != [] {
      CoherenceGrows(snapshot, score, models);
      CoherenceCovered(snapshot, seen, score, models[..|models| - 1]);
    }
  }

  /** After a scan that does not stop, a second scan of the same models inserts nothing. */
  lemma CoherenceRerun(snapshot: seq<string>, score: Path -> real, models: seq<Path>)
    requires !Coherence(snapshot, score, models).crashed
    ensures Coherence(snapshot + ScoredKeys(Coherence(snapshot, score, models).added), score, models) == Scan([], [], false)
  {
    var added := Coherence(snapshot, score, models).added;
    var seen := snapshot + ScoredKeys(added);
    forall m | m in models && DecodeModelPath(m).Some?
      ensures Key(DecodeModelPath(m).value) in seen
    {
      var t := DecodeModelPath(m).value;
      if Key(t) !in snapshot {
        var j :| 0 <= j < |models| && models[j] == m;
        CoherenceInserts(snapshot, score, models, j);
        var d := CoherenceDoc(t.k, t.prior, t.seed, t.passes, t.iterations, score(m));
        var i :| 0 <= i < |added| && added[i] == d;
        assert ScoredKeys(added)[i] == Key(t);
      }
    }
    CoherenceCovered(snapshot, seen, score, models);
  }

  /** How calculate_coherence ends. */
  datatype CoherenceOutcome =
    | NoCorpora(missing: Missing)   // get_dic_corpus ends the process
    | Untokenised                   // a document without tokens: KeyError
    | Scored(crashed: bool)         // the loop ran; `crashed` when a path had fewer than six components

  /** Every document of `publications_raw` has tokens, so the texts can be read. */
  predicate AllTokenised(docs: seq<RawDoc>)
  {
    forall i :: 0 <= i < |docs| ==> docs[i].tokens.Some?
  }

  /** One iteration of calculate_coherence's loop: the scan so far is `s`, and its records follow `scored`. */
  method VisitModel(db: Database, processed: seq<string>, score: Path -> real, m: Path,
                    ghost scored: seq<CoherenceDoc>, ghost s: Scan) returns (crashed: bool)
    modifies db
    requires !s.crashed && db.coherence == scored + s.added
    ensures var q := ModelStep(processed, score, s, m);
      db.coherence == scored + q.added && crashed == q.crashed
    ensures db.publicationsRaw == old(db.publicationsRaw) && db.publications == old(db.publications)
  {
    crashed := false;
    var cell := DecodeModelPath(m);
    if cell.None? {
      crashed := true;
    } else {
      var t := cell.value;
      if Key(t) !in processed {
        var value := score(m);
        db.coherence := db.coherence + [CoherenceDoc(t.k, t.prior, t.seed, t.passes, t.iterations, value)];
      }
    }
  }

  /**
   * evaluation.calculate_coherence over the files of `listing` (the glob of
   * the models folder) with the filesystem `paths`: a record is appended to
   * `coherence` for every model not scored before the call.
   */
  method CalculateCoherence(db: Database, paths: set<Path>, fileFolder: Path, listing: seq<Path>, score: Path -> real)
    returns (outcome: CoherenceOutcome)
    modifies db
    ensures GetDicCorpus(paths, fileFolder).Failure? ==>
      outcome == NoCorpora(GetDicCorpus(paths, fileFolder).error) && db.coherence == old(db.coherence)
    ensures GetDicCorpus(paths, fileFolder).Success? && !AllTokenised(old(db.publicationsRaw)) ==>
      outcome == Untokenised && db.coherence == old(db.coherence)
    ensures GetDicCorpus(paths, fileFolder).Success? && AllTokenised(old(db.publicationsRaw)) ==>
      var s := Coherence(ScoredKeys(old(db.coherence)), score, ModelPaths(listing));
      outcome == Scored(s.crashed) && db.coherence == old(db.coherence) + s.added
    ensures db.publicationsRaw == old(db.publicationsRaw) && db.publications == old(db.publications)
  {
    var corpora := GetDicCorpus(paths, fileFolder);
    if corpora.Failure? {
      return NoCorpora(corpora.error);
    }
    var i := 0;
    while i < |db.publicationsRaw|
      invariant 0 <= i <= |db.publicationsRaw|
      invariant forall j :: 0 <= j < i ==> db.publicationsRaw[j].tokens.Some?
    {
      if db.publicationsRaw[i].tokens.None? {
        return Untokenised;
      }
      i := i + 1;
    }
    var models := ModelPaths(listing);
    var processed := ScoredKeys(db.coherence);
    ghost var scored := db.coherence;
    var crashed := false;
    i := 0;
    while i < |models| && !crashed
      invariant 0 <= i <= |models|
      invariant db.coherence == scored + Coherence(processed, score, models[..i]).added
      invariant crashed == Coherence(processed, score, models[..i]).crashed
      invariant db.publicationsRaw == old(db.publicationsRaw) && db.publications == old(db.publications)
    {
      crashed := VisitModel(db, processed, score, models[i], scored, Coherence(processed, score, models[..i]));
      CoherencePrefixStep(processed, score, models, i);
      i := i + 1;
    }
    if crashed {
      CoherenceStopped(processed, score, models, i);
    }
    assert models[..|models|] == models;
    outcome := Scored(crashed);
  }

  // ---------------------------------------------------------------------------
  // plot_coherence: the pivot of the scores
  // ---------------------------------------------------------------------------

  /** A row of `data`: `int(k)`, the other four hyperparameters as stored, and the score. */
  datatype Row = Row(k: int, prior: string, seed: string, passes: string, iterations: string, score: real)

  /** `int(x['k'])`; a `k` that is not an integer raises ValueError, modelled as None. */
  function ToRow(d: CoherenceDoc): (r: Option<Row>)
    ensures r.Some? <==> ParseInt(d.k).Some?
    ensures r.Some? ==> r.value.k == ParseInt(d.k).value && r.value.score == d.score
  {
    match ParseInt(d.k)
    case None => None
    case Some(k) => Some(Row(k, d.prior, d.seed, d.passes, d.iterations, d.score))
  }

  /** The rows of all records, or None when one of them has a `k` that does not parse. */
  function Rows(docs: seq<CoherenceDoc>): Option<seq<Row>>
  {
    if forall i :: 0 <= i < |docs| ==> ToRow(docs[i]).Some? then
      Some(seq(|docs|, i requires 0 <= i < |docs| && ToRow(docs[i]).Some? => ToRow(docs[i]).value))
    else None
  }

  /** Python's ordering of two strings: lexicographic by character. */
  predicate StrLe(a: string, b: string)
    decreases |a|
  {
    a == [] || (b != [] && (a[0] < b[0] || (a[0] == b[0] && StrLe(a[1..], b[1..]))))
  }

  lemma {:induction false} StrLeTotal(a: string, b: string)
    ensures StrLe(a, b) || StrLe(b, a)
    decreases |a|
  {
    if a != [] && b != [] && a[0] == b[0] {
      StrLeTotal(a[1..], b[1..]);
    }
  }

  /** Python's ordering of two rows: field by field, as lists compare. */
  predicate RowLe(a: Row, b: Row)
  {
    if a.k != b.k then a.k < b.k
    else if a.prior != b.prior then StrLe(a.prior, b.prior)
    else if a.seed != b.seed then StrLe(a.seed, b.seed)
    else if a.passes != b.passes then StrLe(a.passes, b.passes)
    else if a.iterations != b.iterations then StrLe(a.iterations, b.iterations)
    else a.score <= b.score
  }

  lemma RowLeTotal(a: Row, b: Row)
    ensures RowLe(a, b) || RowLe(b, a)
  {
    StrLeTotal(a.prior, b.prior);
    StrLeTotal(a.seed, b.seed);
    StrLeTotal(a.passes, b.passes);
    StrLeTotal(a.iterations, b.iterations);
  }

  predicate RowsSorted(s: seq<Row>)
  {
    forall i :: 0 < i < |s| ==> RowLe(s[i - 1], s[i])
  }

  /** Puts `x` before the first row it is at most. */
  function InsertRow(x: Row, s: seq<Row>): (r: seq<Row>)
    ensures multiset(r) == multiset(s) + multiset{x}
    ensures r != [] && (r[0] == x || (s != [] && r[0] == s[0]))
  {
    if s == [] || RowLe(x, s[0]) then [x] + s
    else
      assert s == [s[0]] + s[1..];
      [s[0]] + InsertRow(x, s[1..])
  }

  /** `sorted(data)`. */
  function SortRows(s: seq<Row>): (r: seq<Row>)
    ensures multiset(r) == multiset(s)
  {
    if s == [] then []
    else
      assert s == s[..|s| - 1] + [s[|s| - 1]];
      InsertRow(s[|s| - 1], SortRows(s[..|s| - 1]))
  }

  lemma {:induction false} InsertRowSorted(x: Row, s: seq<Row>)
    requires RowsSorted(s)
    ensures RowsSorted(InsertRow(x, s))
    decreases |s|
  {
    if s != [] && !RowLe(x, s[0]) {
      RowLeTotal(x, s[0]);
      InsertRowSorted(x, s[1..]);
    }
  }

  /** The rows come out in ascending order. */
  lemma {:induction false} SortRowsSorted(s: seq<Row>)
    ensures RowsSorted(SortRows(s))
    decreases |s|
  {
    if s != [] {
      SortRowsSorted(s[..|s| - 1]);
      InsertRowSorted(s[|s| - 1], SortRows(s[..|s| - 1]));
    }
  }

  /** The column of a row: `'{}-{}-{}-{}'.format(prior, seed, passes, iterations)`. */
  function Column(r: Row): string
  {
    r.prior + "-" + r.seed + "-" + r.passes + "-" + r.iterations
  }

  /** The row `k` of the table: the rows with that `k`, in order, each setting its column, a later one overwriting an earlier. */
  function ScoresFor(s: seq<Row>, k: int): map<string, real>
  {
    if s == [] then map[]
    else
      var m := ScoresFor(s[..|s| - 1], k);
      var r := s[|s| - 1];
      if r.k == k then m[Column(r) := r.score] else m
  }

  /** Row `k` has a column exactly for the rows with that `k`. */
  lemma {:induction false} ScoresForKeys(s: seq<Row>, k: int, col: string)
    ensures col in ScoresFor(s, k) <==> exists j :: 0 <= j < |s| && s[j].k == k && Column(s[j]) == col
    decreases |s|
  {
    if s != [] {
      var init := s[..|s| - 1];
      ScoresForKeys(init, k, col);
      if exists j :: 0 <= j < |init| && init[j].k == k && Column(init[j]) == col {
        var j :| 0 <= j < |init| && init[j].k == k && Column(init[j]) == col;
        assert s[j] == init[j];
      }
      if exists j :: 0 <= j < |s| - 1 && s[j].k == k && Column(s[j]) == col {
        var j :| 0 <= j < |s| - 1 && s[j].k == k && Column(s[j]) == col;
        assert init[j] == s[j];
      }
    }
  }

  /** A cell holds the score of the last row with that `k` and that column. */
  lemma {:induction false} ScoresForLast(s: seq<Row>, k: int, col: string) returns (j: nat)
    requires col in ScoresFor(s, k)
    ensures j < |s| && s[j].k == k && Column(s[j]) == col && ScoresFor(s, k)[col] == s[j].score
    ensures forall i :: j < i < |s| ==> !(s[i].k == k && Column(s[i]) == col)
    decreases |s|
  {
    var init := s[..|s| - 1];
    var r := s[|s| - 1];
    if r.k == k && Column(r) == col {
      j := |s| - 1;
    } else {
      j := ScoresForLast(init, k, col);
    }
  }

  /** The pivot: one row for every k from `minK` to `maxK`, in order, whether or not it has records. */
  function Pivot(sorted: seq<Row>, minK: int, maxK: int): (r: seq<(int, map<string, real>)>)
    ensures |r| == if maxK < minK then 0 else maxK - minK + 1
    ensures forall i :: 0 <= i < |r| ==> r[i].0 == minK + i
  {
    if maxK < minK then []
    else seq(maxK - minK + 1, i => (minK + i, ScoresFor(sorted, minK + i)))
  }

  /**
   * A cell of the row for `k` exists exactly when some record has that `k`
   * and that column; with the pivot's rows for `minK` to `maxK` only, records
   * with a `k` outside the range appear nowhere.
   */
  lemma PivotCells(data: seq<Row>, k: int, col: string)
    ensures col in ScoresFor(SortRows(data), k) <==> exists r :: r in data && r.k == k && Column(r) == col
  {
    var sorted := SortRows(data);
    ScoresForKeys(sorted, k, col);
    if exists r :: r in data && r.k == k && Column(r) == col {
      var r :| r in data && r.k == k && Column(r) == col;
      SortRowsMembers(data, r);
      var j :| 0 <= j < |sorted| && sorted[j] == r;
    }
    if exists j :: 0 <= j < |sorted| && sorted[j].k == k && Column(sorted[j]) == col {
      var j :| 0 <= j < |sorted| && sorted[j].k == k && Column(sorted[j]) == col;
      SortRowsMembers(data, sorted[j]);
    }
  }

  /** Sorting keeps exactly the rows it was given. */
  lemma SortRowsMembers(data: seq<Row>, r: Row)
    ensures r in SortRows(data) <==> r in data
  {
    var sorted := SortRows(data);
    assert r in sorted <==> r in multiset(sorted);
    assert r in data <==> r in multiset(data);
  }

  /** The inner loop of plot_coherence for one `k`. */
  method ScoreRow(sorted: seq<Row>, k: int) returns (m: map<string, real>)
    ensures m == ScoresFor(sorted, k)
  {
    m := map[];
    var j := 0;
    while j < |sorted|
      invariant 0 <= j <= |sorted|
      invariant m == ScoresFor(sorted[..j], k)
    {
      assert sorted[..j + 1][..j] == sorted[..j];
      if sorted[j].k == k {
        m := m[Column(sorted[j]) := sorted[j].score];
      }
      j := j + 1;
    }
    assert sorted[..|sorted|] == sorted;
  }

  /**
   * evaluation.plot_coherence without the drawing: the table of scores by k
   * and configuration, or None when a stored `k` is not an integer.
   */
  method PlotCoherence(docs: seq<CoherenceDoc>, minK: int, maxK: int) returns (table: Option<seq<(int, map<string, real>)>>)
    ensures Rows(docs).None? ==> table.None?
    ensures Rows(docs).Some? ==> table == Some(Pivot(SortRows(Rows(docs).value), minK, maxK))
  {
    var rows := Rows(docs);
    if rows.None? {
      return None;
    }
    var sorted := SortRows(rows.value);
    ghost var pivot := Pivot(sorted, minK, maxK);
    var df: seq<(int, map<string, real>)> := [];
    var k := minK;
    while k <= maxK
      invariant |df| == k - minK <= |pivot|
      invariant df == pivot[..k - minK]
    {
      var row := ScoreRow(sorted, k);
      assert pivot[k - minK] == (k, row);
      assert pivot[..k + 1 - minK] == pivot[..k - minK] + [(k, row)];
      df := df + [(k, row)];
      k := k + 1;
    }
    assert df == pivot;
    table := Some(df);
  }

  // ---------------------------------------------------------------------------
  // output_lda_topics
  // ---------------------------------------------------------------------------

  /** `'{}/{}/{}/{}/{}/{}/lda.model'.format(models_folder, K, dir_prior, random_state, num_pass, iteration)`. */
  function ModelLocation(folder: Path, c: Params): Path
  {
    Join([folder] + Segments(c) + [ModelFileName], '/')
  }

  /** For a folder that does not end with '/', the formatted location is where datamining saved that cell's model. */
  lemma ModelLocationIsModelFile(folder: Path, c: Params)
    requires ValidParams(c) && folder != "" && !EndsWith(folder, "/")
    ensures ModelLocation(folder, c) == ModelFile(folder, c)
  {
    var rest := Segments(c) + [ModelFileName];
    assert [folder] + Segments(c) + [ModelFileName] == [folder] + rest;
    assert ModelLocation(folder, c) == folder + "/" + Join(rest, '/') by {
      JoinAppend([folder], rest, '/');
    }
    assert ModelFile(folder, c) == folder + "/" + Join(rest, '/') by {
      ModelFileShape(folder, c);
    }
  }

  /** One `prob*"word"` term of `print_topic`: stripped, split on '*', the word with its quotes stripped; None when there is no '*' (IndexError). */
  function ParseTerm(score: string): Option<(string, string)>
  {
    var parts := Split(Trim(score), '*');
    if |parts| < 2 then None else Some((Strip(parts[1], {'"'}), parts[0]))
  }

  /** A term parses exactly when its trimmed text contains '*'; otherwise the source's indexing raises. */
  lemma ParseTermDefined(score: string)
    ensures ParseTerm(score).Some? <==> '*' in Trim(score)
  {
    var parts := Split(Trim(score), '*');
    if |parts| < 2 {
      assert Join(parts, '*') == parts[0];
    } else {
      assert Join(parts, '*') == parts[0] + "*" + Join(parts[1..], '*');
    }
  }

  /** The text gensim prints for one term. */
  function Render(prob: string, word: string): string
  {
    prob + "*\"" + word + "\""
  }

  /** Parsing takes a printed term back to its word and probability text. */
  lemma ParseRendered(prob: string, word: string)
    requires prob != [] && !IsSpace(prob[0]) && '*' !in prob
    requires '*' !in word && '"' !in word
    ensures ParseTerm(Render(prob, word)) == Some((word, prob))
  {
    var t := Render(prob, word);
    var quoted := "\"" + word + "\"";
    assert Split(Trim(t), '*') == [prob, quoted] by {
      assert t == prob + ['*'] + quoted;
      StripNoop(t, Whitespace);
      QuotedFree(word, '*');
      SplitTwo(prob, quoted, '*');
    }
    ParseTermOfParts(t, prob, quoted);
    QuotesStripped(word);
  }

  lemma ParseTermOfParts(score: string, prob: string, quoted: string)
    requires Split(Trim(score), '*') == [prob, quoted]
    ensures ParseTerm(score) == Some((Strip(quoted, {'"'}), prob))
  {
  }

  lemma SplitTwo(a: string, b: string, sep: char)
    requires sep !in a && sep !in b
    ensures Split(a + [sep] + b, sep) == [a, b]
  {
    SplitConcat(a, b, sep);
    SplitSepFree(a, sep);
    SplitSepFree(b, sep);
  }

  lemma QuotedFree(word: string, c: char)
    requires c !in word && c != '"'
    ensures c !in "\"" + word + "\""
  {
    var q := "\"" + word + "\"";
    forall i | 0 <= i < |q|
      ensures q[i] != c
    {
      if 0 < i < |q| - 1 {
        assert q[i] == word[i - 1];
      }
    }
  }

  lemma QuotesStripped(word: string)
    requires '"' !in word
    ensures Strip("\"" + word + "\"", {'"'}) == word
  {
    StripWrapped('"', word);
  }

  /** Stripping `c` off a text wrapped in `c` on both sides gives back the text, when it has no `c`. */
  lemma StripWrapped(c: char, word: string)
    requires c !in word
    ensures Strip([c] + word + [c], {c}) == word
  {
    var q := [c] + word + [c];
    var t := word + [c];
    assert q[0] == c && q[1..] == t;
    assert LStrip(q, {c}) == LStrip(t, {c});
    if word == [] {
      assert t == [c] && t[1..] == [];
      assert LStrip(t, {c}) == [];
      assert RStrip([], {c}) == [];
    } else {
      assert t[0] == word[0] && word[0] != c;
      assert LStrip(t, {c}) == t;
      assert t[|t| - 1] == c && t[..|t| - 1] == word;
      assert RStrip(t, {c}) == RStrip(word, {c});
      assert word[|word| - 1] != c;
      assert RStrip(word, {c}) == word;
    }
    assert Strip(q, {c}) == RStrip(LStrip(q, {c}), {c});
  }

  /** The table row of a term: the word upper-cased, and the probability with "0." shortened to ".". */
  function TermRow(t: (string, string)): seq<string>
  {
    [Upper(t.0), Replace(t.1, "0.", ".")]
  }

  /** One row per term. */
  function TermTable(terms: seq<(string, string)>): (r: seq<seq<string>>)
    ensures |r| == |terms|
  {
    if terms == [] then [] else TermTable(terms[..|terms| - 1]) + [TermRow(terms[|terms| - 1])]
  }

  /** The terms of a topic, or None when one of them has no '*'. */
  function ParseTerms(scores: seq<string>): (r: Option<seq<(string, string)>>)
    ensures r.Some? ==> |r.value| == |scores|
  {
    if scores == [] then Some([])
    else
      match ParseTerms(scores[..|scores| - 1])
      case None => None
      case Some(ts) =>
        match ParseTerm(scores[|scores| - 1])
        case None => None
        case Some(t) => Some(ts + [t])
  }

  /** Parsing the terms one after another is `MapAll` of `ParseTerm`. */
  lemma {:induction false} ParseTermsMapAll(scores: seq<string>)
    ensures ParseTerms(scores) == MapAll(ParseTerm, scores)
    decreases |scores|
  {
    if scores != [] {
      ParseTermsMapAll(scores[..|scores| - 1]);
    }
  }

  /** The parsed terms are the printed terms parsed one by one; the topic fails exactly when one of them does. */
  lemma ParseTermsEach(scores: seq<string>)
    ensures ParseTerms(scores).Some? <==> forall i :: 0 <= i < |scores| ==> ParseTerm(scores[i]).Some?
    ensures ParseTerms(scores).Some? ==> forall i :: 0 <= i < |scores| ==> ParseTerms(scores).value[i] == ParseTerm(scores[i]).value
  {
    ParseTermsMapAll(scores);
    MapAllEach(ParseTerm, scores);
  }

  /** `list_string` before stripping: every word followed by ", ". */
  function ListString(terms: seq<(string, string)>): string
  {
    if terms == [] then "" else ListString(terms[..|terms| - 1]) + terms[|terms| - 1].0 + ", "
  }

  /** Stripping ", " off the end leaves the words separated by ", ", when the last word does not itself end in ',' or ' '. */
  lemma ListStringStripped(terms: seq<(string, string)>)
    requires terms != [] && var w := terms[|terms| - 1].0; w != [] && w[|w| - 1] !in {',', ' '}
    ensures RStrip(ListString(terms), {',', ' '}) == ListString(terms[..|terms| - 1]) + terms[|terms| - 1].0
  {
    var w := terms[|terms| - 1].0;
    var body := ListString(terms[..|terms| - 1]) + w;
    assert body[|body| - 1] == w[|w| - 1];
    assert RStrip(body, {',', ' '}) == body;
    assert (body + ",")[..|body|] == body;
    assert RStrip(body + ",", {',', ' '}) == body;
    assert (body + ", ")[..|body| + 1] == body + ",";
    assert ListString(terms) == body + ", ";
  }

  /** The header of topic `k`: `'({}) {}'.format(k + 1, label.upper())`. */
  function Header(k: nat, name: string): string
  {
    "(" + NatToString(k + 1) + ") " + Upper(name)
  }

  /**
   * The table rows and the list entry of topic `k` from its printed terms:
   * a header, ["word", "prob."], one row per term, a blank row; None for a
   * topic without a label (KeyError) or a term without '*' (IndexError).
   */
  function TopicBlock(k: nat, printed: string): Option<(seq<seq<string>>, seq<string>)>
  {
    match GetTopicLabel(k)
    case None => None
    case Some(name) =>
      match ParseTerms(Split(printed, '+'))
      case None => None
      case Some(terms) => Some((TopicRows(k, name, terms), TopicEntry(k, terms)))
  }

  /** The rows topic `k` adds to `topic_table`. */
  function TopicRows(k: nat, name: string, terms: seq<(string, string)>): seq<seq<string>>
  {
    [[Header(k, name)], ["word", "prob."]] + TermTable(terms) + [[""]]
  }

  /** The entry topic `k` adds to `topic_list`. */
  function TopicEntry(k: nat, terms: seq<(string, string)>): seq<string>
  {
    [NatToString(k + 1), RStrip(ListString(terms), {',', ' '})]
  }

  /** A topic fails exactly when it has no label or a term has no '*'; otherwise it has a header, a column row, a row per term and a blank row. */
  lemma TopicBlockShape(k: nat, printed: string)
    ensures TopicBlock(k, printed).Some? <==> k < 10 && ParseTerms(Split(printed, '+')).Some?
    ensures TopicBlock(k, printed).Some? ==> var rows := TopicBlock(k, printed).value.0;
      |rows| == |Split(printed, '+')| + 3 && rows[1] == ["word", "prob."] && rows[|rows| - 1] == [""] &&
      rows[0] == [Header(k, TopicLabels[k])]
  {
  }

  /** The two CSV files of output_lda_topics: `topic-table` and `topic-list`. */
  datatype Tables = Tables(table: seq<seq<string>>, list: seq<seq<string>>)

  /** The two tables for topics 0 to K-1, or None when some topic fails. */
  function TopicTables(K: nat, printTopic: nat -> string): Option<Tables>
  {
    if K == 0 then Some(Tables([], []))
    else
      var prev := TopicTables(K - 1, printTopic);
      var block := TopicBlock(K - 1, printTopic(K - 1));
      if prev.None? || block.None? then None
      else Some(Tables(prev.value.table + block.value.0, prev.value.list + [block.value.1]))
  }

  /** One step of TopicTables, for proofs that go topic by topic. */
  lemma TopicTablesStep(K: nat, printTopic: nat -> string)
    requires K > 0
    ensures var prev, block := TopicTables(K - 1, printTopic), TopicBlock(K - 1, printTopic(K - 1));
      TopicTables(K, printTopic) ==
        if prev.None? || block.None? then None
        else Some(Tables(prev.value.table + block.value.0, prev.value.list + [block.value.1]))
  {
  }

  /** Entry `k` of a topic list holds two columns, the first of which is `k + 1`. */
  predicate Numbered(l: seq<seq<string>>)
  {
    forall k :: 0 <= k < |l| ==> |l[k]| == 2 && l[k][0] == NatToString(k + 1)
  }

  lemma NumberedSnoc(l: seq<seq<string>>, e: seq<string>)
    requires Numbered(l) && |e| == 2 && e[0] == NatToString(|l| + 1)
    ensures Numbered(l + [e])
  {
    var m := l + [e];
    forall k | 0 <= k < |m|
      ensures |m[k]| == 2 && m[k][0] == NatToString(k + 1)
    {
      if k < |l| {
        assert m[k] == l[k];
      }
    }
  }

  lemma TopicEntryNumbered(k: nat, printed: string)
    requires TopicBlock(k, printed).Some?
    ensures |TopicBlock(k, printed).value.1| == 2 && TopicBlock(k, printed).value.1[0] == NatToString(k + 1)
  {
  }

  /** `topic_list` has one entry per topic, numbered from "1" to "K". */
  lemma {:induction false} TopicListNumbered(K: nat, printTopic: nat -> string)
    requires TopicTables(K, printTopic).Some?
    ensures |TopicTables(K, printTopic).value.list| == K && Numbered(TopicTables(K, printTopic).value.list)
    decreases K
  {
    if K > 0 {
      var prev := TopicTables(K - 1, printTopic);
      var block := TopicBlock(K - 1, printTopic(K - 1));
      assert prev.Some? && block.Some? && TopicTables(K, printTopic).value.list == prev.value.list + [block.value.1] by {
        TopicTablesStep(K, printTopic);
      }
      TopicListNumbered(K - 1, printTopic);
      TopicEntryNumbered(K - 1, printTopic(K - 1));
      NumberedSnoc(prev.value.list, block.value.1);
    }
  }

  /** There are labels for ten topics only: a larger K always fails. */
  lemma {:induction false} TopicTablesAtMostTen(K: nat, printTopic: nat -> string)
    requires K > 10
    ensures TopicTables(K, printTopic).None?
    decreases K
  {
    TopicTablesStep(K, printTopic);
    if K > 11 {
      TopicTablesAtMostTen(K - 1, printTopic);
    } else {
      assert TopicBlock(10, printTopic(10)).None?;
    }
  }

  /** Why output_lda_topics produces no tables. */
  datatype TopicsFailure = ModelNotFound | Raised

  /** The inner loop of output_lda_topics for topic `k`: the term rows and `list_string`. */
  method TermRows(scores: seq<string>) returns (terms: Option<seq<(string, string)>>, rows: seq<seq<string>>, listString: string)
    ensures terms == ParseTerms(scores)
    ensures terms.Some? ==> rows == TermTable(terms.value) && listString == ListString(terms.value)
  {
    var ts: seq<(string, string)> := [];
    rows := [];
    listString := "";
    var i := 0;
    while i < |scores| && ParseTerm(scores[i]).Some?
      invariant 0 <= i <= |scores|
      invariant ParseTerms(scores[..i]) == Some(ts)
      invariant rows == TermTable(ts) && listString == ListString(ts)
    {
      var term := ParseTerm(scores[i]).value;
      TermRowsStep(scores, i, ts);
      rows := rows + [TermRow(term)];
      listString := listString + term.0 + ", ";
      ts := ts + [term];
      i := i + 1;
    }
    if i < |scores| {
      TermRowsStep(scores, i, ts);
      terms := None;
    } else {
      assert scores[..|scores|] == scores;
      terms := Some(ts);
    }
  }

  /** One step of `TermRows`: a failed term fails the topic, a parsed one extends every output. */
  lemma TermRowsStep(scores: seq<string>, i: nat, ts: seq<(string, string)>)
    requires i < |scores| && ParseTerms(scores[..i]) == Some(ts)
    ensures ParseTerm(scores[i]).None? ==> ParseTerms(scores).None?
    ensures ParseTerm(scores[i]).Some? ==>
      var t := ParseTerm(scores[i]).value;
      ParseTerms(scores[..i + 1]) == Some(ts + [t]) &&
      TermTable(ts + [t]) == TermTable(ts) + [TermRow(t)] &&
      ListString(ts + [t]) == ListString(ts) + t.0 + ", "
  {
    ParseTermsSnoc(scores, i, ts);
    if ParseTerm(scores[i]).None? {
      ParseTermsStopped(scores, i + 1);
    } else {
      TermsSnoc(ts, ParseTerm(scores[i]).value);
    }
  }

  lemma TermsSnoc(ts: seq<(string, string)>, t: (string, string))
    ensures TermTable(ts + [t]) == TermTable(ts) + [TermRow(t)]
    ensures ListString(ts + [t]) == ListString(ts) + t.0 + ", "
  {
    assert (ts + [t])[..|ts|] == ts;
  }

  /** Parsing one more term extends the parsed terms, or fails. */
  lemma ParseTermsSnoc(scores: seq<string>, i: nat, ts: seq<(string, string)>)
    requires i < |scores| && ParseTerms(scores[..i]) == Some(ts)
    ensures ParseTerm(scores[i]).None? ==> ParseTerms(scores[..i + 1]).None?
    ensures ParseTerm(scores[i]).Some? ==> ParseTerms(scores[..i + 1]) == Some(ts + [ParseTerm(scores[i]).value])
  {
    assert scores[..i + 1][..i] == scores[..i];
  }

  /** A term without '*' fails the whole topic. */
  lemma {:induction false} ParseTermsStopped(scores: seq<string>, n: nat)
    requires n <= |scores| && ParseTerms(scores[..n]).None?
    ensures ParseTerms(scores).None?
    decreases |scores|
  {
    if n < |scores| {
      assert scores[..|scores| - 1][..n] == scores[..n];
      ParseTermsStopped(scores[..|scores| - 1], n);
    } else {
      assert scores[..n] == scores;
    }
  }

  /**
   * evaluation.output_lda_topics for the model of cell `c` below `folder`,
   * without writing the CSV files: the topic table and the topic list, or
   * why there are none. `printTopic(k)` stands for `model.print_topic(k, top_n_words)`.
   */
  method OutputLdaTopics(paths: set<Path>, folder: Path, c: Params, printTopic: nat -> string)
    returns (r: Result<Tables, TopicsFailure>)
    ensures LoadLdaModel(paths, ModelLocation(folder, c)).Failure? ==> r == Failure(ModelNotFound)
    ensures LoadLdaModel(paths, ModelLocation(folder, c)).Success? ==>
      (TopicTables(c.k, printTopic).None? ==> r == Failure(Raised)) &&
      (TopicTables(c.k, printTopic).Some? ==> r == Success(TopicTables(c.k, printTopic).value))
  {
    var model := LoadLdaModel(paths, ModelLocation(folder, c));
    if model.Failure? {
      return Failure(ModelNotFound);
    }
    var topicTable: seq<seq<string>> := [];
    var topicList: seq<seq<string>> := [];
    var k := 0;
    while k < c.k
      invariant 0 <= k <= c.k
      invariant TopicTables(k, printTopic) == Some(Tables(topicTable, topicList))
    {
      var block := OutputTopic(k, printTopic(k));
      TopicTablesStep(k + 1, printTopic);
      if block.None? {
        TopicTablesFailed(c.k, printTopic, k + 1);
        return Failure(Raised);
      }
      topicTable := topicTable + block.value.0;
      topicList := topicList + [block.value.1];
      k := k + 1;
    }
    r := Success(Tables(topicTable, topicList));
  }

  /** The body of the loop of output_lda_topics for topic `k`, whose terms gensim printed as `printed`. */
  method OutputTopic(k: nat, printed: string) returns (block: Option<(seq<seq<string>>, seq<string>)>)
    ensures block == TopicBlock(k, printed)
  {
    var name := GetTopicLabel(k);
    if name.None? {
      return None;
    }
    var scores := Split(printed, '+');
    var terms, rows, listString := TermRows(scores);
    if terms.None? {
      return None;
    }
    var table := [[Header(k, name.value)], ["word", "prob."]] + rows + [[""]];
    var entry := [NatToString(k + 1), RStrip(listString, {',', ' '})];
    assert table == TopicRows(k, name.value, terms.value) && entry == TopicEntry(k, terms.value);
    block := Some((table, entry));
  }

  /** A topic that fails fails the tables of every larger K. */
  lemma {:induction false} TopicTablesFailed(K: nat, printTopic: nat -> string, n: nat)
    requires n <= K && TopicTables(n, printTopic).None?
    ensures TopicTables(K, printTopic).None?
    decreases K
  {
    if n < K {
      TopicTablesFailed(K - 1, printTopic, n);
      TopicTablesStep(K, printTopic);
    }
  }
}
