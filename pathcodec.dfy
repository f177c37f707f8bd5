/**
 * Where a grid-search model lives on disk and how the coherence step reads
 * its hyperparameters back out of that path. A model for the cell
 * (k, prior, seed, passes, iterations) is stored in the folder
 * `root/k/prior/seed/passes/iterations` (datamining.py), and evaluation.py
 * recovers the five values as components 1 to 5 of the model path.
 */
module PathCodec {
  import opened Strings
  import opened Wrappers
  import opened FileSystem

  /** One cell of the grid: the hyperparameters of one LDA fit. */
  datatype Params = Params(k: nat, prior: string, seed: nat, passes: nat, iterations: nat)

  /** A prior usable as one path component: non-empty and without '/'. */
  predicate ValidParams(c: Params)
  {
    c.prior != "" && '/' !in c.prior
  }

  /** The five path components of a cell, as `str` prints them. */
  function Segments(c: Params): seq<string>
  {
    [NatToString(c.k), c.prior, NatToString(c.seed), NatToString(c.passes), NatToString(c.iterations)]
  }

  /** `os.path.join(a, p1, ..., pn)`: the components joined on one at a time. */
  function PathJoinAll(a: Path, parts: seq<string>): Path
    decreases |parts|
  {
    if parts == [] then a else PathJoinAll(PathJoin(a, parts[0]), parts[1..])
  }

  /** The folder of a cell below `root`. */
  function CellFolder(root: Path, c: Params): Path
  {
    PathJoinAll(root, Segments(c))
  }

  const ModelFileName: string := "lda.model"

  /** The file `model.save` writes for a cell. */
  function ModelFile(root: Path, c: Params): Path
  {
    PathJoin(CellFolder(root, c), ModelFileName)
  }

  /** What `os.path.join` puts in front of a relative component. */
  function RootPrefix(root: Path): Path
  {
    if root == "" || EndsWith(root, "/") then root else root + "/"
  }

  /** The number of components of a path, counted as `split('/')` counts them. */
  function Depth(p: Path): nat
  {
    |Split(p, '/')|
  }

  /** The number of components a root contributes in front of a cell's folder. */
  function RootDepth(root: Path): nat
  {
    if root == "" then 0
    else if EndsWith(root, "/") then Depth(root[..|root| - 1])
    else Depth(root)
  }

  /** A string of digits contains no character that is not a digit. */
  lemma DigitsExclude(s: string, ch: char)
    requires AllDigits(s) && !IsDigit(ch)
    ensures ch !in s
  {
  }

  /** Components that `os.path.join` appends verbatim: non-empty and without '/'. */
  predicate PlainComponents(parts: seq<string>)
  {
    forall i :: 0 <= i < |parts| ==> parts[i] != "" && '/' !in parts[i]
  }

  lemma SegmentsPlain(c: Params)
    requires ValidParams(c)
    ensures PlainComponents(Segments(c)) && SepFree(Segments(c), '/')
  {
    DigitsExclude(NatToString(c.k), '/');
    DigitsExclude(NatToString(c.seed), '/');
    DigitsExclude(NatToString(c.passes), '/');
    DigitsExclude(NatToString(c.iterations), '/');
  }

  /** Joining a relative, slash-free component onto any path: prefix, then the component. */
  lemma JoinComponent(a: Path, b: string)
    requires b != "" && '/' !in b
    ensures PathJoin(a, b) == RootPrefix(a) + b
    ensures RootPrefix(PathJoin(a, b)) == PathJoin(a, b) + "/"
  {
    assert b[0] != '/' by { assert b[0] in b; }
    var j := RootPrefix(a) + b;
    assert j[|j| - 1] == b[|b| - 1];
    assert b[|b| - 1] in b;
  }

  /** Joining plain components: the root prefix, then the components separated by '/'. */
  lemma {:induction false} PathJoinAllShape(a: Path, parts: seq<string>)
    requires |parts| >= 1 && PlainComponents(parts)
    ensures PathJoinAll(a, parts) == RootPrefix(a) + Join(parts, '/')
    ensures RootPrefix(PathJoinAll(a, parts)) == PathJoinAll(a, parts) + "/"
    decreases |parts|
  {
    var b := PathJoin(a, parts[0]);
    JoinComponent(a, parts[0]);
    if |parts| == 1 {
      assert PathJoinAll(a, parts) == PathJoinAll(b, []) == b;
    } else {
      var rest := parts[1..];
      PlainTail(parts);
      PathJoinAllShape(b, rest);
      PrefixStep(RootPrefix(a), parts[0], Join(rest, '/'));
    }
  }

  lemma PlainTail(parts: seq<string>)
    requires |parts| >= 1 && PlainComponents(parts)
    ensures PlainComponents(parts[1..])
  {
    assert forall i :: 0 <= i < |parts| - 1 ==> parts[1..][i] == parts[i + 1];
  }

  /** The step of PathJoinAllShape, as plain sequence arithmetic. */
  lemma PrefixStep(pre: string, head: string, tail: string)
    ensures (pre + head) + "/" + tail == pre + (head + ['/'] + tail)
  {
  }

  /** A cell's folder is the root prefix followed by the five components joined by '/'. */
  lemma CellFolderShape(root: Path, c: Params)
    requires ValidParams(c)
    ensures CellFolder(root, c) == RootPrefix(root) + Join(Segments(c), '/')
  {
    SegmentsPlain(c);
    PathJoinAllShape(root, Segments(c));
  }

  /** The model file is the folder, a '/', then `lda.model`. */
  lemma ModelFileShape(root: Path, c: Params)
    requires ValidParams(c)
    ensures ModelFile(root, c) == CellFolder(root, c) + "/" + ModelFileName
    ensures ModelFile(root, c) == RootPrefix(root) + Join(Segments(c) + [ModelFileName], '/')
  {
    var f := CellFolder(root, c);
    var j := Join(Segments(c), '/');
    SegmentsPlain(c);
    PathJoinAllShape(root, Segments(c));
    ModelFileNamePlain();
    JoinComponent(f, ModelFileName);
    JoinAppend(Segments(c), [ModelFileName], '/');
    assert Join([ModelFileName], '/') == ModelFileName;
    PrefixStep(RootPrefix(root), j, ModelFileName);
  }

  lemma ModelFileNamePlain()
    ensures ModelFileName != "" && '/' !in ModelFileName
  {
  }

  lemma ModelFileNameDotted()
    ensures '.' in ModelFileName && ModelFileName[0] != '.'
  {
    assert ModelFileName[3] == '.';
  }

  /**
   * A model saved under `root` is found by `read_directory(root)`: its six
   * components below `root` are not hidden (numbers, a prior not starting
   * with '.', `lda.model`) and its base name contains a '.'.
   */
  lemma ModelFileListed(paths: set<Path>, root: Path, c: Params)
    requires ValidParams(c) && c.prior[0] != '.'
    requires root != "" && !EndsWith(root, "/")
    requires ModelFile(root, c) in paths
    ensures ModelFile(root, c) in ReadDirectory(paths, root)
  {
    var j := Join(Segments(c) + [ModelFileName], '/');
    ModelFileShape(root, c);
    assert ModelFile(root, c) == root + "/" + j;
    SavedComponentsVisible(c);
    ListedBelow(paths, root, j);
  }

  /** The components of a saved model below the root: none empty, none hidden, and they split back out of the path. */
  lemma SavedComponentsVisible(c: Params)
    requires ValidParams(c) && c.prior[0] != '.'
    ensures Split(Join(Segments(c) + [ModelFileName], '/'), '/') == Segments(c) + [ModelFileName]
    ensures Visible(Join(Segments(c) + [ModelFileName], '/'))
    ensures '.' in BaseName(Join(Segments(c) + [ModelFileName], '/'))
  {
    var parts := Segments(c) + [ModelFileName];
    SegmentsPlain(c);
    ModelFileNamePlain();
    ModelFileNameDotted();
    assert SepFree(parts, '/');
    SplitJoin(parts, '/');
    forall comp | comp in parts
      ensures comp != [] && comp[0] != '.'
    {
      var i :| 0 <= i < |parts| && parts[i] == comp;
      if i == 0 || i == 2 || i == 3 || i == 4 {
        assert IsDigit(comp[0]);
      }
    }
  }

  /** Distinct cells get distinct folders under the same root. */
  lemma CellFolderInjective(root: Path, c: Params, d: Params)
    requires ValidParams(c) && ValidParams(d)
    requires CellFolder(root, c) == CellFolder(root, d)
    ensures c == d
  {
    CellFolderShape(root, c);
    CellFolderShape(root, d);
    var pre := RootPrefix(root);
    var jc, jd := Join(Segments(c), '/'), Join(Segments(d), '/');
    assert jc == (pre + jc)[|pre|..];
    assert jd == (pre + jd)[|pre|..];
    SegmentsPlain(c);
    SegmentsPlain(d);
    JoinInjective(Segments(c), Segments(d), '/');
    NatToStringInjective(c.k, d.k);
    NatToStringInjective(c.seed, d.seed);
    NatToStringInjective(c.passes, d.passes);
    NatToStringInjective(c.iterations, d.iterations);
  }

  /** The depth of a root prefix followed by a relative tail. */
  lemma PrefixedDepth(root: Path, tail: Path)
    ensures root == "" ==> Depth(RootPrefix(root) + tail) == Depth(tail)
    ensures root != "" ==> Depth(RootPrefix(root) + tail) == RootDepth(root) + Depth(tail)
  {
    if root != "" {
      var head := if EndsWith(root, "/") then root[..|root| - 1] else root;
      assert RootDepth(root) == Depth(head);
      assert RootPrefix(root) == head + "/" by {
        if EndsWith(root, "/") {
          assert root[|root| - 1..] == "/";
          assert root == root[..|root| - 1] + root[|root| - 1..];
        }
      }
      assert RootPrefix(root) + tail == head + ['/'] + tail;
      SplitConcat(head, tail, '/');
    } else {
      assert RootPrefix(root) + tail == tail;
    }
  }

  /** Every cell folder below a root sits at the same depth. */
  lemma CellFolderDepth(root: Path, c: Params)
    requires ValidParams(c)
    ensures Depth(CellFolder(root, c)) == RootDepth(root) + 5
  {
    CellFolderShape(root, c);
    SegmentsPlain(c);
    SplitJoin(Segments(c), '/');
    PrefixedDepth(root, Join(Segments(c), '/'));
  }

  /** A model file sits exactly one level below its folder. */
  lemma ModelFileDepth(root: Path, c: Params)
    requires ValidParams(c)
    ensures Depth(ModelFile(root, c)) == RootDepth(root) + 6
  {
    ModelFileShape(root, c);
    CellFolderDepth(root, c);
    SplitConcat(CellFolder(root, c), ModelFileName, '/');
    ModelFileNamePlain();
    SplitSepFree(ModelFileName, '/');
  }

  /** A proper ancestor made by `os.makedirs` is strictly shallower. */
  lemma DirPrefixShallower(p: Path, q: Path)
    requires q in DirPrefixes(p) && q != p
    ensures Depth(q) < Depth(p)
  {
    var i :| 0 < i < |p| && p[i] == '/' && q == p[..i];
    assert p == q + ['/'] + p[i + 1..];
    SplitConcat(q, p[i + 1..], '/');
  }

  /** Everything the grid search may write for one cell: the folder, its ancestors and the model. */
  function CellWrites(root: Path, c: Params): set<Path>
  {
    DirPrefixes(CellFolder(root, c)) + {ModelFile(root, c)}
  }

  /**
   * Working on one cell never creates the folder or the model file of another
   * cell: this is why a crash leaves every other cell's state as it was.
   */
  lemma OtherCellsUntouched(root: Path, c: Params, d: Params)
    requires ValidParams(c) && ValidParams(d) && c != d
    ensures CellFolder(root, d) !in CellWrites(root, c)
    ensures ModelFile(root, d) !in CellWrites(root, c)
  {
    FolderNotWritten(root, c, d);
    ModelNotWritten(root, c, d);
  }

  lemma FolderNotWritten(root: Path, c: Params, d: Params)
    requires ValidParams(c) && ValidParams(d) && c != d
    ensures CellFolder(root, d) !in DirPrefixes(CellFolder(root, c))
    ensures CellFolder(root, d) != ModelFile(root, c)
  {
    var fc, fd := CellFolder(root, c), CellFolder(root, d);
    assert Depth(fc) == Depth(fd) == Depth(ModelFile(root, c)) - 1 by {
      CellFolderDepth(root, c);
      CellFolderDepth(root, d);
      ModelFileDepth(root, c);
    }
    if fd == fc {
      CellFolderInjective(root, c, d);
    } else if fd in DirPrefixes(fc) {
      DirPrefixShallower(fc, fd);
    }
  }

  lemma ModelNotWritten(root: Path, c: Params, d: Params)
    requires ValidParams(c) && ValidParams(d) && c != d
    ensures ModelFile(root, d) !in DirPrefixes(CellFolder(root, c))
    ensures ModelFile(root, d) != ModelFile(root, c)
  {
    var fc := CellFolder(root, c);
    var md := ModelFile(root, d);
    assert Depth(md) == Depth(fc) + 1 by {
      CellFolderDepth(root, c);
      ModelFileDepth(root, d);
    }
    if md in DirPrefixes(fc) {
      DirPrefixShallower(fc, md);
    }
    if md == ModelFile(root, c) {
      ModelFileInjective(root, c, d);
    }
  }

  /** Distinct cells get distinct model files under the same root. */
  lemma ModelFileInjective(root: Path, c: Params, d: Params)
    requires ValidParams(c) && ValidParams(d)
    requires ModelFile(root, c) == ModelFile(root, d)
    ensures c == d
  {
    ModelFileShape(root, c);
    ModelFileShape(root, d);
    SuffixCancel(CellFolder(root, c), CellFolder(root, d), ModelFileName);
    CellFolderInjective(root, c, d);
  }

  lemma SuffixCancel(x: string, y: string, t: string)
    requires x + "/" + t == y + "/" + t
    ensures x == y
  {
    assert |x| == |y|;
    assert x == (x + "/" + t)[..|x|];
    assert y == (y + "/" + t)[..|y|];
  }

  // ---------------------------------------------------------------------------
  // Reading the hyperparameters back (evaluation.calculate_coherence)
  // ---------------------------------------------------------------------------

  /** The five hyperparameters as the strings found in a model path. */
  datatype CellText = CellText(k: string, prior: string, seed: string, passes: string, iterations: string)

  function CellTextOf(c: Params): CellText
  {
    CellText(NatToString(c.k), c.prior, NatToString(c.seed), NatToString(c.passes), NatToString(c.iterations))
  }

  /**
   * Components 1 to 5 of `m.split('/')`; a path with fewer than six
   * components raises IndexError, modelled as None.
   */
  function DecodeModelPath(m: Path): (r: Option<CellText>)
    ensures r.Some? <==> Depth(m) >= 6
    ensures r.Some? ==> r.value.k in Split(m, '/') && r.value.iterations in Split(m, '/')
  {
    var segs := Split(m, '/');
    if |segs| < 6 then None
    else Some(CellText(segs[1], segs[2], segs[3], segs[4], segs[5]))
  }

  /** The five fields are components 1 to 5 of `m.split('/')`, whatever follows them. */
  lemma DecodeComponents(m: Path, head: string, k: string, prior: string, seed: string, passes: string, iterations: string, rest: seq<string>)
    requires Split(m, '/') == [head, k, prior, seed, passes, iterations] + rest
    ensures DecodeModelPath(m) == Some(CellText(k, prior, seed, passes, iterations))
  {
    var segs := Split(m, '/');
    assert segs[1] == k && segs[2] == prior && segs[3] == seed && segs[4] == passes && segs[5] == iterations;
  }

  /** The key `'{}-{}-{}-{}-{}'.format(k, prior, seed, passes, iterations)`. */
  function Key(t: CellText): string
  {
    Join([t.k, t.prior, t.seed, t.passes, t.iterations], '-')
  }

  /** Joined plain components end with a non-slash, so `os.path.join` adds a '/' after them. */
  lemma RootPrefixOfJoin(rootParts: seq<string>)
    requires |rootParts| >= 1 && PlainComponents(rootParts)
    ensures RootPrefix(Join(rootParts, '/')) == Join(rootParts, '/') + "/"
  {
    PathJoinAllShape("", rootParts);
    assert RootPrefix("") + Join(rootParts, '/') == Join(rootParts, '/');
  }

  lemma ModelPartsPlain(c: Params)
    requires ValidParams(c)
    ensures PlainComponents(Segments(c) + [ModelFileName])
  {
    var parts := Segments(c) + [ModelFileName];
    SegmentsPlain(c);
    assert forall i :: 0 <= i < |parts| ==> parts[i] == ModelFileName || parts[i] == Segments(c)[i];
  }

  lemma PlainConcat(a: seq<string>, b: seq<string>)
    requires PlainComponents(a) && PlainComponents(b)
    ensures PlainComponents(a + b) && SepFree(a + b, '/')
  {
    assert forall i :: 0 <= i < |a + b| ==> (a + b)[i] == if i < |a| then a[i] else b[i - |a|];
  }

  /** Under a root, a saved model's path splits into the root's components, the five components and `lda.model`. */
  lemma ModelFileComponents(root: Path, rootParts: seq<string>, c: Params)
    requires ValidParams(c) && |rootParts| >= 1 && PlainComponents(rootParts)
    requires root == Join(rootParts, '/')
    ensures Split(ModelFile(root, c), '/') == rootParts + Segments(c) + [ModelFileName]
  {
    var parts := Segments(c) + [ModelFileName];
    ModelPartsPlain(c);
    assert ModelFile(root, c) == root + "/" + Join(parts, '/') by {
      ModelFileShape(root, c);
      RootPrefixOfJoin(rootParts);
    }
    assert Join(rootParts + parts, '/') == root + "/" + Join(parts, '/') by {
      JoinAppend(rootParts, parts, '/');
    }
    PlainConcat(rootParts, parts);
    SplitJoin(rootParts + parts, '/');
    ConcatAssoc(rootParts, Segments(c), [ModelFileName]);
  }

  /**
   * With a root of one component (the `models` folder the pipeline uses),
   * decoding the path of a saved model gives back exactly its cell.
   */
  lemma DecodeModelFile(root: Path, c: Params)
    requires ValidParams(c) && root != "" && '/' !in root
    ensures DecodeModelPath(ModelFile(root, c)) == Some(CellTextOf(c))
  {
    ModelFileComponents(root, [root], c);
  }

  /** Distinct cells (with priors free of '-') get distinct coherence keys. */
  lemma KeyInjective(c: Params, d: Params)
    requires '-' !in c.prior && '-' !in d.prior
    requires Key(CellTextOf(c)) == Key(CellTextOf(d))
    ensures c == d
  {
    var tc, td := CellTextOf(c), CellTextOf(d);
    var fc, fd := [tc.k, tc.prior, tc.seed, tc.passes, tc.iterations], [td.k, td.prior, td.seed, td.passes, td.iterations];
    KeyFieldsFree(c);
    KeyFieldsFree(d);
    JoinInjective(fc, fd, '-');
    assert tc.k == td.k && tc.seed == td.seed && tc.passes == td.passes && tc.iterations == td.iterations by {
      assert fc[0] == fd[0] && fc[2] == fd[2] && fc[3] == fd[3] && fc[4] == fd[4];
    }
    NatToStringInjective(c.k, d.k);
    NatToStringInjective(c.seed, d.seed);
    NatToStringInjective(c.passes, d.passes);
    NatToStringInjective(c.iterations, d.iterations);
  }

  /** No field of a cell's key text holds the key separator '-'. */
  lemma KeyFieldsFree(c: Params)
    requires '-' !in c.prior
    ensures var t := CellTextOf(c); SepFree([t.k, t.prior, t.seed, t.passes, t.iterations], '-')
  {
    DigitsExclude(NatToString(c.k), '-');
    DigitsExclude(NatToString(c.seed), '-');
    DigitsExclude(NatToString(c.passes), '-');
    DigitsExclude(NatToString(c.iterations), '-');
  }

  /**
   * With a nested root such as `files/models`, component 1 is the second
   * component of the root, not the number of topics: the decoded `k` is the
   * name of the inner folder (`models`, not a number), and every other field
   * is shifted by one.
   */
  lemma DecodeNestedRoot(top: string, sub: string, c: Params)
    requires ValidParams(c) && top != "" && '/' !in top && sub != "" && '/' !in sub
    ensures DecodeModelPath(ModelFile(top + "/" + sub, c)) ==
              Some(CellText(sub, NatToString(c.k), c.prior, NatToString(c.seed), NatToString(c.passes)))
  {
    var rootParts := [top, sub];
    assert Join(rootParts, '/') == top + "/" + sub by {
      assert Join(rootParts[1..], '/') == sub;
    }
    assert PlainComponents(rootParts);
    ModelFileComponents(top + "/" + sub, rootParts, c);
    DecodeShifted(ModelFile(top + "/" + sub, c), top, sub, c);
  }

  lemma DecodeShifted(m: Path, top: string, sub: string, c: Params)
    requires Split(m, '/') == [top, sub] + Segments(c) + [ModelFileName]
    ensures DecodeModelPath(m) == Some(CellText(sub, NatToString(c.k), c.prior, NatToString(c.seed), NatToString(c.passes)))
  {
  }
}
