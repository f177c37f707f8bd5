/**
 * The filesystem side of helper_functions.py. The filesystem is the set of
 * paths that exist (directories and files alike); `os.path.exists(p)` is
 * `p in paths`. What the operating system or the network does is a parameter:
 * whether `os.makedirs` raises, whether a download fails.
 */
module FileSystem {
  import opened Strings
  import opened Wrappers

  type Path = string

  /** POSIX `os.path.join(a, b)`: an absolute `b` replaces `a`; otherwise exactly one '/' separates them. */
  function PathJoin(a: Path, b: Path): Path
  {
    if StartsWith(b, "/") then b
    else if a == "" || EndsWith(a, "/") then a + b
    else a + "/" + b
  }

  /** The directories `os.makedirs(p)` brings into existence: `p` and each ancestor obtained by cutting `p` before a '/'. */
  function DirPrefixes(p: Path): (r: set<Path>)
    ensures p in r
    ensures forall q :: q in r ==> |q| <= |p| && q == p[..|q|]
  {
    {p} + set i | 0 < i < |p| && p[i] == '/' :: p[..i]
  }

  /** `os.makedirs(p)` creates exactly `p` and its ancestors: the cuts of `p` right before a '/'. */
  lemma DirPrefixesExact(p: Path, q: Path)
    ensures q in DirPrefixes(p) <==> q == p || (0 < |q| < |p| && q == p[..|q|] && p[|q|] == '/')
  {
    if q != p && 0 < |q| < |p| && q == p[..|q|] && p[|q|] == '/' {
      var i := |q|;
      assert p[..i] in DirPrefixes(p);
    }
  }

  /**
   * The paths after helper_functions.create_dir(name): the directory and its
   * parents are made only when `name` does not exist yet, and an OS error is
   * logged instead of raised, so the paths then stay as they were.
   */
  function CreateDirResult(paths: set<Path>, name: Path, osError: bool): (r: set<Path>)
    ensures paths <= r <= paths + DirPrefixes(name)
    ensures !osError ==> name in r
    ensures name in paths ==> r == paths
    ensures osError ==> r == paths
  {
    if name in paths || osError then paths else paths + DirPrefixes(name)
  }

  /** create_dir is idempotent: once the directory exists a second call changes nothing. */
  lemma CreateDirIdempotent(paths: set<Path>, name: Path, e1: bool, e2: bool)
    requires !e1
    ensures CreateDirResult(CreateDirResult(paths, name, e1), name, e2) == CreateDirResult(paths, name, e1)
  {
  }

  /** The file save_pdf writes: `'{}/{}'.format(folder, name)`. */
  function PdfFile(folder: Path, name: string): Path
  {
    folder + "/" + name
  }

  /** Opaque artifacts are identified by the file they were loaded from. */
  datatype Corpora = Corpora(dictionary: Path, corpus: Path)

  /** Which required file was missing when the process called `exit(1)`. */
  datatype Missing = DictionaryMissing | CorpusMissing | ModelMissing

  function DictionaryFile(folder: Path): Path { folder + "/dictionary.dict" }

  function CorpusFile(folder: Path): Path { folder + "/corpus.mm" }

  /**
   * helper_functions.get_dic_corpus: the dictionary is checked first, then the
   * corpus; a missing one ends the process, otherwise both are loaded.
   */
  function GetDicCorpus(paths: set<Path>, folder: Path): (r: Result<Corpora, Missing>)
    ensures r.Success? <==> DictionaryFile(folder) in paths && CorpusFile(folder) in paths
    ensures r.Success? ==> r.value == Corpora(DictionaryFile(folder), CorpusFile(folder))
    ensures r == Failure(DictionaryMissing) <==> DictionaryFile(folder) !in paths
    ensures r == Failure(CorpusMissing) <==> DictionaryFile(folder) in paths && CorpusFile(folder) !in paths
  {
    if DictionaryFile(folder) !in paths then Failure(DictionaryMissing)
    else if CorpusFile(folder) !in paths then Failure(CorpusMissing)
    else Success(Corpora(DictionaryFile(folder), CorpusFile(folder)))
  }

  /** helper_functions.load_LDA_model: the model at `location`, or the end of the process when it is missing. */
  function LoadLdaModel(paths: set<Path>, location: Path): (r: Result<Path, Missing>)
    ensures r.Success? <==> location in paths
    ensures r.Success? ==> r.value == location
    ensures r.Failure? ==> r.error == ModelMissing
  {
    if location in paths then Success(location) else Failure(ModelMissing)
  }

  /** The last component of a path. */
  function BaseName(p: Path): string
  {
    var segs := Split(p, '/');
    segs[|segs| - 1]
  }

  /** Every component below the globbed directory is non-empty and does not start with '.': glob skips hidden names. */
  predicate Visible(rel: Path)
  {
    forall c :: c in Split(rel, '/') ==> c != [] && c[0] != '.'
  }

  /**
   * helper_functions.read_directory: the glob `dir/**/*.*`, every existing path
   * strictly below `dir` whose components below `dir` are not hidden and whose
   * last component contains a '.'.
   */
  function ReadDirectory(paths: set<Path>, dir: Path): set<Path>
  {
    set p | p in paths && StartsWith(p, dir + "/") && Visible(p[|dir| + 1..]) && '.' in BaseName(p[|dir| + 1..])
  }

  /** A path `dir/rel` is listed when `rel` has no hidden component and its base name contains a '.'. */
  lemma ListedBelow(paths: set<Path>, dir: Path, rel: Path)
    requires dir + "/" + rel in paths && Visible(rel) && '.' in BaseName(rel)
    ensures dir + "/" + rel in ReadDirectory(paths, dir)
  {
    var p := dir + "/" + rel;
    assert p[..|dir| + 1] == dir + "/" && p[|dir| + 1..] == rel;
  }

  class FileSystem {
    var paths: set<Path>

    constructor (initial: set<Path>)
      ensures paths == initial
    {
      paths := initial;
    }

    /** helper_functions.create_dir */
    method CreateDir(name: Path, osError: bool)
      modifies this
      ensures paths == CreateDirResult(old(paths), name, osError)
    {
      if name !in paths {
        if !osError {
          paths := paths + DirPrefixes(name);
        }
      }
    }

    /**
     * helper_functions.save_pdf without the download itself: the folder is
     * created, then the file is fetched only when `overwrite` is set or the
     * file does not exist. A failed download or a missing folder is logged and
     * leaves no file.
     */
    method SavePdf(folder: Path, overwrite: bool, name: string, mkdirError: bool, fetchError: bool)
      returns (fetched: bool)
      modifies this
      ensures fetched <==> overwrite || PdfFile(folder, name) !in old(paths)
      ensures old(paths) <= paths
      ensures paths - old(paths) <= DirPrefixes(folder) + {PdfFile(folder, name)}
      ensures PdfFile(folder, name) in paths <==>
                PdfFile(folder, name) in old(paths) || (fetched && !fetchError && folder in paths)
    {
      CreateDir(folder, mkdirError);
      var file := PdfFile(folder, name);
      assert file !in DirPrefixes(folder) by {
        assert |file| > |folder|;
      }
      var fileExists := file in paths;
      fetched := overwrite || !fileExists;
      if fetched && !fetchError && folder in paths {
        paths := paths + {file};
      }
    }
  }
}
