/**
 * datamining.execute_lda: a resumable grid search. Every grid cell whose
 * folder is missing gets its folder created, one LDA fit and a saved model;
 * a cell whose folder already exists is skipped. Fitting and saving are
 * outside code, so the model records which fits were requested and with
 * which arguments, and takes as parameters whether `os.makedirs` or the
 * fit raises.
 */
module Datamining {
  import opened Wrappers
  import opened FileSystem
  import opened PathCodec
  import opened Grid
  import Strings

  /** The arguments of one `models.LdaModel(...)` call. */
  datatype FitCall = FitCall(
    corpus: Path, dictionary: Path, numTopics: nat, iterations: nat, passes: nat,
    minimumProbability: nat, alpha: string, eta: string, evalEvery: Option<nat>, randomState: nat)

  function FitCallFor(corpora: Corpora, c: Params): FitCall
  {
    FitCall(corpora.corpus, corpora.dictionary, c.k, c.iterations, c.passes, 0, c.prior, c.prior, None, c.seed)
  }

  /** What the world does: whether creating a folder raises an OS error, whether a fit raises. */
  datatype Env = Env(mkdirFails: Path -> bool, fitFails: Params -> bool)

  /** The exception that ended the process. */
  datatype Failure = FitRaised | SaveRaised | NameError

  datatype Status = Running | Aborted(cell: Params, why: Failure)

  /** The state a grid search leaves: the paths on disk, the fits requested so far, and whether it is still going. */
  datatype RunState = RunState(paths: set<Path>, fits: seq<FitCall>, status: Status)

  datatype Config = Config(root: Path, corpora: Corpora, env: Env)

  /**
   * One iteration of the innermost loop. The folder is created with
   * helper_functions.create_dir, which swallows OS errors; a fit that raises
   * ends the process; saving into a folder that could not be created raises
   * IOError and ends the process.
   */
  function Step(st: RunState, cfg: Config, c: Params): RunState
  {
    if st.status.Aborted? then st
    else
      var folder := CellFolder(cfg.root, c);
      if folder in st.paths then st
      else
        var created := CreateDirResult(st.paths, folder, cfg.env.mkdirFails(folder));
        var fits := st.fits + [FitCallFor(cfg.corpora, c)];
        if cfg.env.fitFails(c) then RunState(created, fits, Aborted(c, FitRaised))
        else if folder !in created then RunState(created, fits, Aborted(c, SaveRaised))
        else RunState(created + {ModelFile(cfg.root, c)}, fits, Running)
  }

  /**
   * One iteration only adds the cell's own folder, its ancestors and its
   * model; it is skipped when the process has stopped or the folder exists;
   * otherwise it requests exactly the cell's fit, and when it goes on the
   * folder and the model are in place.
   */
  lemma StepSpec(st: RunState, cfg: Config, c: Params)
    ensures st.paths <= Step(st, cfg, c).paths <= st.paths + CellWrites(cfg.root, c)
    ensures st.status.Aborted? || CellFolder(cfg.root, c) in st.paths ==> Step(st, cfg, c) == st
    ensures st.status == Running && CellFolder(cfg.root, c) !in st.paths ==>
              Step(st, cfg, c).fits == st.fits + [FitCallFor(cfg.corpora, c)]
    ensures Step(st, cfg, c).status == Running ==>
              st.status == Running && CellFolder(cfg.root, c) in Step(st, cfg, c).paths
    ensures Step(st, cfg, c).status == Running && CellFolder(cfg.root, c) !in st.paths ==>
              ModelFile(cfg.root, c) in Step(st, cfg, c).paths
    ensures st.status == Running && Step(st, cfg, c).status.Aborted? ==> Step(st, cfg, c).status.cell == c
  {
    var folder := CellFolder(cfg.root, c);
    if st.status == Running && folder !in st.paths {
      var created := CreateDirResult(st.paths, folder, cfg.env.mkdirFails(folder));
      assert created <= st.paths + CellWrites(cfg.root, c);
    }
  }

  /** The loops over `cells`, in order, from state `st`. */
  function Run(st: RunState, cfg: Config, cells: seq<Params>): RunState
    decreases |cells|
  {
    if cells == [] then st else Run(Step(st, cfg, cells[0]), cfg, cells[1..])
  }

  predicate ValidCells(cells: seq<Params>)
  {
    forall c :: c in cells ==> ValidParams(c)
  }

  predicate Distinct(cells: seq<Params>)
  {
    forall i, j :: 0 <= i < j < |cells| ==> cells[i] != cells[j]
  }

  predicate IsPrefix<T(==)>(a: seq<T>, b: seq<T>)
  {
    |a| <= |b| && b[..|a|] == a
  }

  /** The cells whose folder does not exist, in order. */
  function MissingCells(paths: set<Path>, root: Path, cells: seq<Params>): seq<Params>
  {
    if cells == [] then []
    else (if CellFolder(root, cells[0]) in paths then [] else [cells[0]]) + MissingCells(paths, root, cells[1..])
  }

  function FitCalls(corpora: Corpora, cells: seq<Params>): seq<FitCall>
  {
    seq(|cells|, i requires 0 <= i < |cells| => FitCallFor(corpora, cells[i]))
  }

  /** Everything the loops may write for the given cells. */
  function Footprint(root: Path, cells: seq<Params>): set<Path>
  {
    set c, p | c in cells && p in CellWrites(root, c) :: p
  }

  // ---------------------------------------------------------------------------
  // Basic facts about Run
  // ---------------------------------------------------------------------------

  /** A stopped process stays stopped. */
  lemma {:induction false} RunFromAborted(st: RunState, cfg: Config, cells: seq<Params>)
    requires st.status.Aborted?
    ensures Run(st, cfg, cells) == st
    decreases |cells|
  {
    if cells != [] {
      RunFromAborted(st, cfg, cells[1..]);
    }
  }

  /** One more loop iteration is one more Step. */
  lemma {:induction false} RunSnoc(st: RunState, cfg: Config, cells: seq<Params>, c: Params)
    ensures Run(st, cfg, cells + [c]) == Step(Run(st, cfg, cells), cfg, c)
    decreases |cells|
  {
    if cells == [] {
      assert ([] + [c])[1..] == [];
    } else {
      assert (cells + [c])[1..] == cells[1..] + [c];
      RunSnoc(Step(st, cfg, cells[0]), cfg, cells[1..], c);
    }
  }

  /** The run over one more element of a sequence is one more Step. */
  lemma RunPrefixStep(st: RunState, cfg: Config, cells: seq<Params>, n: nat)
    requires n < |cells|
    ensures Run(st, cfg, cells[..n + 1]) == Step(Run(st, cfg, cells[..n]), cfg, cells[n])
  {
    assert cells[..n + 1] == cells[..n] + [cells[n]];
    RunSnoc(st, cfg, cells[..n], cells[n]);
  }

  /** A run that stopped part-way ends in the state where it stopped. */
  lemma {:induction false} RunStopsAt(st: RunState, cfg: Config, cells: seq<Params>, n: nat)
    requires n <= |cells|
    requires Run(st, cfg, cells[..n]).status.Aborted?
    ensures Run(st, cfg, cells) == Run(st, cfg, cells[..n])
    decreases |cells| - n
  {
    if n < |cells| {
      var m := cells[..n + 1];
      assert m == cells[..n] + [cells[n]];
      assert Run(st, cfg, m) == Run(st, cfg, cells[..n]) by {
        RunSnoc(st, cfg, cells[..n], cells[n]);
      }
      RunStopsAt(st, cfg, cells, n + 1);
    } else {
      assert cells[..n] == cells;
    }
  }

  lemma FootprintCons(root: Path, cells: seq<Params>)
    requires cells != []
    ensures Footprint(root, cells) == CellWrites(root, cells[0]) + Footprint(root, cells[1..])
  {
    forall p | p in Footprint(root, cells)
      ensures p in CellWrites(root, cells[0]) + Footprint(root, cells[1..])
    {
      var c :| c in cells && p in CellWrites(root, c);
      if c != cells[0] {
        assert c in cells[1..];
      }
    }
    forall p | p in Footprint(root, cells[1..])
      ensures p in Footprint(root, cells)
    {
      var c :| c in cells[1..] && p in CellWrites(root, c);
      assert c in cells;
    }
    assert cells[0] in cells;
  }

  /** Nothing is deleted, and only the cells' own folders, ancestors and models are written. */
  lemma {:induction false} RunGrows(st: RunState, cfg: Config, cells: seq<Params>)
    ensures st.paths <= Run(st, cfg, cells).paths <= st.paths + Footprint(cfg.root, cells)
    decreases |cells|
  {
    if cells != [] {
      var st1 := Step(st, cfg, cells[0]);
      var r := Run(st, cfg, cells);
      assert r == Run(st1, cfg, cells[1..]);
      assert st.paths <= st1.paths <= st.paths + CellWrites(cfg.root, cells[0]) by {
        StepSpec(st, cfg, cells[0]);
      }
      assert st1.paths <= r.paths <= st1.paths + Footprint(cfg.root, cells[1..]) by {
        RunGrows(st1, cfg, cells[1..]);
      }
      FootprintCons(cfg.root, cells);
    }
  }

  /** Fits once requested are never taken back: the log only grows at the end. */
  lemma {:induction false} RunExtendsFits(st: RunState, cfg: Config, cells: seq<Params>)
    ensures IsPrefix(st.fits, Run(st, cfg, cells).fits)
    decreases |cells|
  {
    if cells != [] {
      var st1 := Step(st, cfg, cells[0]);
      var r := Run(st, cfg, cells);
      assert r == Run(st1, cfg, cells[1..]);
      assert IsPrefix(st1.fits, r.fits) by {
        RunExtendsFits(st1, cfg, cells[1..]);
      }
      assert IsPrefix(st.fits, st1.fits);
      assert r.fits[..|st.fits|] == r.fits[..|st1.fits|][..|st.fits|];
    }
  }

  /** Paths that exist before the run still exist after it. */
  lemma RunKeeps(st: RunState, cfg: Config, cells: seq<Params>, p: Path)
    requires p in st.paths
    ensures p in Run(st, cfg, cells).paths
  {
    RunGrows(st, cfg, cells);
  }

  // ---------------------------------------------------------------------------
  // What a run fits
  // ---------------------------------------------------------------------------

  lemma FitCallsAppend(corpora: Corpora, a: seq<Params>, b: seq<Params>)
    ensures FitCalls(corpora, a + b) == FitCalls(corpora, a) + FitCalls(corpora, b)
  {
  }

  /** The missing cells do not change when the only new paths are other cells' ancestors. */
  lemma {:induction false} MissingStable(p1: set<Path>, p2: set<Path>, root: Path, cells: seq<Params>)
    requires p1 <= p2
    requires forall c :: c in cells && CellFolder(root, c) in p2 ==> CellFolder(root, c) in p1
    ensures MissingCells(p2, root, cells) == MissingCells(p1, root, cells)
    decreases |cells|
  {
    if cells != [] {
      assert cells[0] in cells;
      MissingStable(p1, p2, root, cells[1..]);
    }
  }

  /** After one step on `c`, the cells still to come are missing exactly as before. */
  lemma MissingAfterStep(st: RunState, cfg: Config, c: Params, rest: seq<Params>)
    requires ValidParams(c) && ValidCells(rest) && c !in rest
    ensures MissingCells(Step(st, cfg, c).paths, cfg.root, rest) == MissingCells(st.paths, cfg.root, rest)
  {
    forall d | d in rest
      ensures CellFolder(cfg.root, d) !in CellWrites(cfg.root, c)
    {
      OtherCellsUntouched(cfg.root, c, d);
    }
    MissingStable(st.paths, Step(st, cfg, c).paths, cfg.root, rest);
  }

  lemma DistinctTail(cells: seq<Params>)
    requires |cells| >= 1 && Distinct(cells)
    ensures Distinct(cells[1..]) && cells[0] !in cells[1..]
  {
  }

  /**
   * The fits a run requests are the missing cells in loop order: all of them
   * when the run completes, the first few when it stops early.
   */
  lemma {:induction false} RunFitsMissing(st: RunState, cfg: Config, cells: seq<Params>)
    requires st.status == Running && ValidCells(cells) && Distinct(cells)
    ensures IsPrefix(Run(st, cfg, cells).fits,
                     st.fits + FitCalls(cfg.corpora, MissingCells(st.paths, cfg.root, cells)))
    ensures Run(st, cfg, cells).status == Running ==>
              Run(st, cfg, cells).fits == st.fits + FitCalls(cfg.corpora, MissingCells(st.paths, cfg.root, cells))
    decreases |cells|
  {
    if cells != [] {
      var c, rest := cells[0], cells[1..];
      var st1 := Step(st, cfg, c);
      var r := Run(st, cfg, cells);
      assert r == Run(st1, cfg, rest);
      var want := st.fits + FitCalls(cfg.corpora, MissingCells(st.paths, cfg.root, cells));
      assert want == st1.fits + FitCalls(cfg.corpora, MissingCells(st1.paths, cfg.root, rest)) by {
        MissingStepFits(st, cfg, cells);
      }
      assert ValidCells(rest) && Distinct(rest) by {
        DistinctTail(cells);
        assert forall d :: d in rest ==> d in cells;
      }
      if st1.status.Aborted? {
        RunFromAborted(st1, cfg, rest);
        assert IsPrefix(st1.fits, want);
      } else {
        RunFitsMissing(st1, cfg, rest);
      }
    }
  }

  /** One step moves the first cell's fit (if it is missing) from the plan into the log. */
  lemma MissingStepFits(st: RunState, cfg: Config, cells: seq<Params>)
    requires st.status == Running && ValidCells(cells) && Distinct(cells) && cells != []
    ensures st.fits + FitCalls(cfg.corpora, MissingCells(st.paths, cfg.root, cells)) ==
              Step(st, cfg, cells[0]).fits + FitCalls(cfg.corpora, MissingCells(Step(st, cfg, cells[0]).paths, cfg.root, cells[1..]))
  {
    var c, rest := cells[0], cells[1..];
    var st1 := Step(st, cfg, c);
    assert MissingCells(st1.paths, cfg.root, rest) == MissingCells(st.paths, cfg.root, rest) by {
      DistinctTail(cells);
      assert ValidParams(c) by { assert c in cells; }
      assert ValidCells(rest) by { assert forall d :: d in rest ==> d in cells; }
      MissingAfterStep(st, cfg, c, rest);
    }
    var tail := FitCalls(cfg.corpora, MissingCells(st.paths, cfg.root, rest));
    if CellFolder(cfg.root, c) in st.paths {
      assert st1 == st by { StepSpec(st, cfg, c); }
      MissingSkip(st.paths, cfg.root, cells);
    } else {
      var f := FitCallFor(cfg.corpora, c);
      assert st1.fits == st.fits + [f] by { StepSpec(st, cfg, c); }
      MissingFit(st.paths, cfg, cells);
      Strings.ConcatAssoc(st.fits, [f], tail);
    }
  }

  lemma TakeAll<T>(s: seq<T>)
    ensures s[..|s|] == s
  {
  }

  lemma MissingSkip(paths: set<Path>, root: Path, cells: seq<Params>)
    requires cells != [] && CellFolder(root, cells[0]) in paths
    ensures MissingCells(paths, root, cells) == MissingCells(paths, root, cells[1..])
  {
  }

  lemma MissingFit(paths: set<Path>, cfg: Config, cells: seq<Params>)
    requires cells != [] && CellFolder(cfg.root, cells[0]) !in paths
    ensures FitCalls(cfg.corpora, MissingCells(paths, cfg.root, cells)) ==
              [FitCallFor(cfg.corpora, cells[0])] + FitCalls(cfg.corpora, MissingCells(paths, cfg.root, cells[1..]))
  {
    var rest := MissingCells(paths, cfg.root, cells[1..]);
    assert MissingCells(paths, cfg.root, cells) == [cells[0]] + rest;
    FitCallsAppend(cfg.corpora, [cells[0]], rest);
    assert FitCalls(cfg.corpora, [cells[0]]) == [FitCallFor(cfg.corpora, cells[0])];
  }

  /** A completed run leaves every cell's folder in place. */
  lemma {:induction false} RunCreatesFolders(st: RunState, cfg: Config, cells: seq<Params>)
    ensures Run(st, cfg, cells).status == Running ==>
              forall c :: c in cells ==> CellFolder(cfg.root, c) in Run(st, cfg, cells).paths
    decreases |cells|
  {
    if cells != [] && Run(st, cfg, cells).status == Running {
      var c, rest := cells[0], cells[1..];
      var st1 := Step(st, cfg, c);
      var r := Run(st, cfg, cells);
      assert r == Run(st1, cfg, rest);
      assert st1.status == Running by {
        if st1.status.Aborted? {
          RunFromAborted(st1, cfg, rest);
        }
      }
      assert CellFolder(cfg.root, c) in st1.paths by {
        StepSpec(st, cfg, c);
      }
      RunKeeps(st1, cfg, rest, CellFolder(cfg.root, c));
      RunCreatesFolders(st1, cfg, rest);
      assert forall d :: d in cells ==> d == c || d in rest;
    }
  }

  /** A completed run has saved a model in every cell whose folder was missing when it started. */
  lemma {:induction false} RunSavesModels(st: RunState, cfg: Config, cells: seq<Params>)
    requires ValidCells(cells)
    ensures Run(st, cfg, cells).status == Running ==>
              forall c :: c in cells && CellFolder(cfg.root, c) !in st.paths ==>
                ModelFile(cfg.root, c) in Run(st, cfg, cells).paths
    decreases |cells|
  {
    if cells != [] && Run(st, cfg, cells).status == Running {
      var c, rest := cells[0], cells[1..];
      var st1 := Step(st, cfg, c);
      var r := Run(st, cfg, cells);
      assert r == Run(st1, cfg, rest);
      assert ValidCells(rest) by {
        assert forall d :: d in rest ==> d in cells;
      }
      assert st1.status == Running by {
        if st1.status.Aborted? {
          RunFromAborted(st1, cfg, rest);
        }
      }
      RunSavesModels(st1, cfg, rest);
      forall d | d in cells && CellFolder(cfg.root, d) !in st.paths
        ensures ModelFile(cfg.root, d) in r.paths
      {
        if d == c {
          assert ModelFile(cfg.root, c) in st1.paths by {
            StepSpec(st, cfg, c);
          }
          RunKeeps(st1, cfg, rest, ModelFile(cfg.root, c));
        } else {
          assert d in rest;
          assert CellFolder(cfg.root, d) !in st1.paths by {
            assert ValidParams(c) && ValidParams(d) by {
              assert c in cells;
            }
            OtherCellsUntouched(cfg.root, c, d);
            StepSpec(st, cfg, c);
          }
        }
      }
    }
  }

  /** When every cell's folder exists, the loops change nothing and fit nothing. */
  lemma {:induction false} RunIdle(st: RunState, cfg: Config, cells: seq<Params>)
    requires forall c :: c in cells ==> CellFolder(cfg.root, c) in st.paths
    ensures Run(st, cfg, cells) == st
    decreases |cells|
  {
    if cells != [] {
      assert cells[0] in cells;
      assert forall c :: c in cells[1..] ==> c in cells;
      RunIdle(st, cfg, cells[1..]);
    }
  }

  /**
   * A cell whose folder exists without a model (a fit that crashed after the
   * folder was made) never gets a model from later runs.
   */
  lemma {:induction false} InterruptedCellStaysEmpty(st: RunState, cfg: Config, cells: seq<Params>, c: Params)
    requires ValidParams(c) && ValidCells(cells)
    requires CellFolder(cfg.root, c) in st.paths && ModelFile(cfg.root, c) !in st.paths
    ensures ModelFile(cfg.root, c) !in Run(st, cfg, cells).paths
    decreases |cells|
  {
    if cells != [] {
      var d, rest := cells[0], cells[1..];
      var st1 := Step(st, cfg, d);
      assert Run(st, cfg, cells) == Run(st1, cfg, rest);
      assert ValidCells(rest) by {
        assert forall e :: e in rest ==> e in cells;
      }
      assert CellFolder(cfg.root, c) in st1.paths && ModelFile(cfg.root, c) !in st1.paths by {
        StepSpec(st, cfg, d);
        if d != c {
          assert ValidParams(d) by { assert d in cells; }
          OtherCellsUntouched(cfg.root, d, c);
        }
      }
      InterruptedCellStaysEmpty(st1, cfg, rest, c);
    }
  }

  /** A cell whose folder exists is never fitted by later runs. */
  lemma {:induction false} ExistingCellNotRefit(st: RunState, cfg: Config, cells: seq<Params>, c: Params)
    requires CellFolder(cfg.root, c) in st.paths
    ensures forall i :: |st.fits| <= i < |Run(st, cfg, cells).fits| ==>
              Run(st, cfg, cells).fits[i] != FitCallFor(cfg.corpora, c)
    decreases |cells|
  {
    if cells != [] {
      var d, rest := cells[0], cells[1..];
      var st1 := Step(st, cfg, d);
      var r := Run(st, cfg, cells);
      assert r == Run(st1, cfg, rest);
      assert CellFolder(cfg.root, c) in st1.paths by {
        StepSpec(st, cfg, d);
      }
      ExistingCellNotRefit(st1, cfg, rest, c);
      forall i | |st.fits| <= i < |r.fits|
        ensures r.fits[i] != FitCallFor(cfg.corpora, c)
      {
        if i < |st1.fits| {
          assert r.fits[i] == st1.fits[i] by {
            RunExtendsFits(st1, cfg, rest);
          }
          StepFitIsCell(st, cfg, d, i);
          if d == c {
            StepSpec(st, cfg, d);
          }
        }
      }
    }
  }

  /** The only fit a step adds is its own cell's. */
  lemma StepFitIsCell(st: RunState, cfg: Config, c: Params, i: int)
    requires |st.fits| <= i < |Step(st, cfg, c).fits|
    ensures Step(st, cfg, c).fits[i] == FitCallFor(cfg.corpora, c)
    ensures st.status == Running && CellFolder(cfg.root, c) !in st.paths
  {
    StepSpec(st, cfg, c);
  }

  // ---------------------------------------------------------------------------
  // The grid search as a whole
  // ---------------------------------------------------------------------------

  function Start(paths: set<Path>): RunState
  {
    RunState(paths, [], Running)
  }

  /**
   * A grid search requests fits only for the grid cells whose folder was
   * missing, in loop order, and for all of them when it completes.
   */
  lemma GridSearchFitsMissing(paths: set<Path>, cfg: Config)
    ensures IsPrefix(Run(Start(paths), cfg, Cells()).fits, FitCalls(cfg.corpora, MissingCells(paths, cfg.root, Cells())))
    ensures Run(Start(paths), cfg, Cells()).status == Running ==>
              Run(Start(paths), cfg, Cells()).fits == FitCalls(cfg.corpora, MissingCells(paths, cfg.root, Cells()))
  {
    assert ValidCells(Cells()) && Distinct(Cells()) by {
      CellsValid();
      CellsOrdered();
    }
    RunFitsMissing(Start(paths), cfg, Cells());
    assert [] + FitCalls(cfg.corpora, MissingCells(paths, cfg.root, Cells())) ==
           FitCalls(cfg.corpora, MissingCells(paths, cfg.root, Cells()));
  }

  /** A completed grid search leaves a folder for every cell of the grid. */
  lemma GridSearchCreatesFolders(paths: set<Path>, cfg: Config)
    ensures Run(Start(paths), cfg, Cells()).status == Running ==>
              forall c :: c in Cells() ==> CellFolder(cfg.root, c) in Run(Start(paths), cfg, Cells()).paths
  {
    RunCreatesFolders(Start(paths), cfg, Cells());
  }

  /**
   * Running the grid search again after it completed, with the same save
   * folder (any corpus, any environment), fits nothing and writes nothing.
   */
  lemma RerunFitsNothing(paths: set<Path>, cfg: Config, cfg2: Config)
    requires cfg2.root == cfg.root
    requires Run(Start(paths), cfg, Cells()).status == Running
    ensures Run(Start(Run(Start(paths), cfg, Cells()).paths), cfg2, Cells()) ==
              Start(Run(Start(paths), cfg, Cells()).paths)
  {
    GridSearchCreatesFolders(paths, cfg);
    RunIdle(Start(Run(Start(paths), cfg, Cells()).paths), cfg2, Cells());
  }

  /** What ended execute_lda: a missing input, or the loops (completed or stopped by an exception). */
  datatype Outcome = Exited(missing: Missing) | Finished(status: Status)

  /**
   * The body of the nested loops of datamining.execute_lda for one cell: skip
   * a cell whose folder exists; otherwise create the folder, fit, and save the
   * model, stopping at an exception. `cells[..n]` are the cells visited before.
   */
  method VisitCell(fs: FileSystem, cfg: Config, fits: seq<FitCall>, c: Params,
                   ghost init: RunState, ghost cells: seq<Params>, ghost n: nat)
    returns (fits': seq<FitCall>, status: Status)
    requires n < |cells| && cells[n] == c
    requires Run(init, cfg, cells[..n]) == RunState(fs.paths, fits, Running)
    modifies fs
    ensures Run(init, cfg, cells[..n + 1]) == RunState(fs.paths, fits', status)
  {
    RunPrefixStep(init, cfg, cells, n);
    fits' := fits;
    status := Running;
    var target := CellFolder(cfg.root, c);
    if target !in fs.paths {
      fs.CreateDir(target, cfg.env.mkdirFails(target));
      fits' := fits' + [FitCallFor(cfg.corpora, c)];
      if cfg.env.fitFails(c) {
        return fits', Aborted(c, FitRaised);
      }
      if target !in fs.paths {
        return fits', Aborted(c, SaveRaised);
      }
      fs.paths := fs.paths + {ModelFile(cfg.root, c)};
    }
  }

  /**
   * The two innermost loops of datamining.execute_lda (pass counts, then
   * iteration caps) for the topic count, prior and seed at indices `ki`,
   * `pi`, `si`: the four cells that follow in the grid.
   */
  method VisitSeed(fs: FileSystem, cfg: Config, fits: seq<FitCall>, ki: nat, pi: nat, si: nat, ghost init: RunState)
    returns (fits': seq<FitCall>, status: Status)
    requires ki < |Ks| && pi < |Priors| && si < |Seeds|
    requires Run(init, cfg, Cells()[..ki * 8 + pi * 8 + si * 4]) == RunState(fs.paths, fits, Running)
    modifies fs
    ensures status.Running? ==> Run(init, cfg, Cells()[..ki * 8 + pi * 8 + si * 4 + 4]) == RunState(fs.paths, fits', Running)
    ensures status.Aborted? ==> Run(init, cfg, Cells()) == RunState(fs.paths, fits', status)
  {
    ghost var grid := Cells();
    fits' := fits;
    for pai := 0 to |Passes|
      invariant Run(init, cfg, grid[..ki * 8 + pi * 8 + si * 4 + pai]) == RunState(fs.paths, fits', Running)
    {
      for ii := 0 to |Iterations|
        invariant Run(init, cfg, grid[..ki * 8 + pi * 8 + si * 4 + pai + ii]) == RunState(fs.paths, fits', Running)
      {
        var c := Params(Ks[ki], Priors[pi], Seeds[si], Passes[pai], Iterations[ii]);
        ghost var n := ki * 8 + pi * 8 + si * 4 + pai + ii;
        assert n < |grid| && grid[n] == c by {
          CellsAt(ki, pi, si, pai, ii);
        }
        fits', status := VisitCell(fs, cfg, fits', c, init, grid, n);
        if status.Aborted? {
          assert Run(init, cfg, grid) == RunState(fs.paths, fits', status) by {
            RunStopsAt(init, cfg, grid, n + 1);
          }
          return;
        }
      }
    }
    status := Running;
  }

  /** The seed loop of datamining.execute_lda for the topic count and prior at indices `ki`, `pi`: eight cells. */
  method VisitPrior(fs: FileSystem, cfg: Config, fits: seq<FitCall>, ki: nat, pi: nat, ghost init: RunState)
    returns (fits': seq<FitCall>, status: Status)
    requires ki < |Ks| && pi < |Priors|
    requires Run(init, cfg, Cells()[..ki * 8 + pi * 8]) == RunState(fs.paths, fits, Running)
    modifies fs
    ensures status.Running? ==> Run(init, cfg, Cells()[..ki * 8 + pi * 8 + 8]) == RunState(fs.paths, fits', Running)
    ensures status.Aborted? ==> Run(init, cfg, Cells()) == RunState(fs.paths, fits', status)
  {
    fits' := fits;
    for si := 0 to |Seeds|
      invariant Run(init, cfg, Cells()[..ki * 8 + pi * 8 + si * 4]) == RunState(fs.paths, fits', Running)
    {
      fits', status := VisitSeed(fs, cfg, fits', ki, pi, si, init);
      if status.Aborted? {
        return;
      }
    }
    status := Running;
  }

  /** The prior loop of datamining.execute_lda for the topic count at index `ki`: eight cells. */
  method VisitTopicCount(fs: FileSystem, cfg: Config, fits: seq<FitCall>, ki: nat, ghost init: RunState)
    returns (fits': seq<FitCall>, status: Status)
    requires ki < |Ks|
    requires Run(init, cfg, Cells()[..ki * 8]) == RunState(fs.paths, fits, Running)
    modifies fs
    ensures status.Running? ==> Run(init, cfg, Cells()[..ki * 8 + 8]) == RunState(fs.paths, fits', Running)
    ensures status.Aborted? ==> Run(init, cfg, Cells()) == RunState(fs.paths, fits', status)
  {
    fits' := fits;
    for pi := 0 to |Priors|
      invariant Run(init, cfg, Cells()[..ki * 8 + pi * 8]) == RunState(fs.paths, fits', Running)
    {
      fits', status := VisitPrior(fs, cfg, fits', ki, pi, init);
      if status.Aborted? {
        return;
      }
    }
    status := Running;
  }

  /**
   * datamining.execute_lda: load the dictionary and corpus (a missing one
   * ends the process), then visit the grid with five nested loops.
   */
  method ExecuteLda(fs: FileSystem, fileFolder: Path, saveFolder: Path, env: Env)
    returns (fits: seq<FitCall>, outcome: Outcome)
    modifies fs
    ensures GetDicCorpus(old(fs.paths), fileFolder).Failure? ==>
              outcome == Exited(GetDicCorpus(old(fs.paths), fileFolder).error) && fits == [] && fs.paths == old(fs.paths)
    ensures GetDicCorpus(old(fs.paths), fileFolder).Success? ==>
              outcome.Finished? &&
              Run(Start(old(fs.paths)), Config(saveFolder, GetDicCorpus(old(fs.paths), fileFolder).value, env), Cells())
                == RunState(fs.paths, fits, outcome.status)
  {
    var loaded := GetDicCorpus(fs.paths, fileFolder);
    if loaded.Failure? {
      return [], Exited(loaded.error);
    }
    var cfg := Config(saveFolder, loaded.value, env);
    ghost var init := Start(fs.paths);
    fits := [];
    for ki := 0 to |Ks|
      invariant Run(init, cfg, Cells()[..ki * 8]) == RunState(fs.paths, fits, Running)
    {
      var status;
      fits, status := VisitTopicCount(fs, cfg, fits, ki, init);
      if status.Aborted? {
        return fits, Finished(status);
      }
    }
    assert Run(init, cfg, Cells()) == RunState(fs.paths, fits, Running) by {
      assert |Ks| * 8 == |Cells()|;
      TakeAll(Cells());
    }
    outcome := Finished(Running);
  }

  // ---------------------------------------------------------------------------
  // As written: the loop calls `create_directory`, which is not defined
  // ---------------------------------------------------------------------------

  /**
   * One iteration as the code is written: the name `create_directory` is not
   * defined anywhere, so the first cell whose folder is missing raises
   * NameError before any fit.
   */
  function StepAsWritten(st: RunState, cfg: Config, c: Params): RunState
  {
    if st.status.Aborted? || CellFolder(cfg.root, c) in st.paths then st
    else RunState(st.paths, st.fits, Aborted(c, NameError))
  }

  function RunAsWritten(st: RunState, cfg: Config, cells: seq<Params>): RunState
    decreases |cells|
  {
    if cells == [] then st else RunAsWritten(StepAsWritten(st, cfg, cells[0]), cfg, cells[1..])
  }

  /** As written, the loops never fit or write anything, and they complete only when every folder already exists. */
  lemma {:induction false} AsWrittenNeverFits(st: RunState, cfg: Config, cells: seq<Params>)
    requires st.status == Running
    ensures RunAsWritten(st, cfg, cells).paths == st.paths
    ensures RunAsWritten(st, cfg, cells).fits == st.fits
    ensures RunAsWritten(st, cfg, cells).status == Running <==>
              forall c :: c in cells ==> CellFolder(cfg.root, c) in st.paths
    decreases |cells|
  {
    if cells != [] {
      var st1 := StepAsWritten(st, cfg, cells[0]);
      assert forall c :: c in cells <==> c == cells[0] || c in cells[1..];
      if st1.status.Aborted? {
        AsWrittenFromAborted(st1, cfg, cells[1..]);
      } else {
        AsWrittenNeverFits(st1, cfg, cells[1..]);
      }
    }
  }

  lemma {:induction false} AsWrittenFromAborted(st: RunState, cfg: Config, cells: seq<Params>)
    requires st.status.Aborted?
    ensures RunAsWritten(st, cfg, cells) == st
    decreases |cells|
  {
    if cells != [] {
      AsWrittenFromAborted(st, cfg, cells[1..]);
    }
  }

  /**
   * When the first cell's folder is missing, the code as written stops there
   * with NameError and no fit, whereas the intended loop requests that cell's
   * fit before anything else.
   */
  lemma FirstCellMissing(st: RunState, cfg: Config, cells: seq<Params>)
    requires st.status == Running && cells != []
    requires CellFolder(cfg.root, cells[0]) !in st.paths
    ensures RunAsWritten(st, cfg, cells) == RunState(st.paths, st.fits, Aborted(cells[0], NameError))
    ensures IsPrefix(st.fits + [FitCallFor(cfg.corpora, cells[0])], Run(st, cfg, cells).fits)
  {
    AsWrittenFromAborted(StepAsWritten(st, cfg, cells[0]), cfg, cells[1..]);
    var st1 := Step(st, cfg, cells[0]);
    assert st1.fits == st.fits + [FitCallFor(cfg.corpora, cells[0])] by {
      StepSpec(st, cfg, cells[0]);
    }
    RunExtendsFits(st1, cfg, cells[1..]);
  }

  /**
   * On a save folder with no model folders yet, the code as written stops
   * at the first cell (k = 2, prior `auto`, seed 42, 5 passes, 200
   * iterations) with NameError and fits nothing, whereas the intended search
   * fits that cell first.
   */
  lemma AsWrittenFirstRun(paths: set<Path>, cfg: Config)
    requires CellFolder(cfg.root, Cells()[0]) !in paths
    ensures RunAsWritten(Start(paths), cfg, Cells()) == RunState(paths, [], Aborted(Params(2, "auto", 42, 5, 200), NameError))
    ensures IsPrefix([FitCallFor(cfg.corpora, Params(2, "auto", 42, 5, 200))], Run(Start(paths), cfg, Cells()).fits)
  {
    var grid := Cells();
    assert grid[0] == Params(2, "auto", 42, 5, 200) by {
      CellsAt(0, 0, 0, 0, 0);
    }
    FirstCellMissing(Start(paths), cfg, grid);
  }
}
