/**
 * preprocessing.py: turning PDFs into `publications_raw` documents (metadata
 * from the path, normalised and truncated text) and adding tokens to those
 * documents (lemmas, frequent bigrams and entities). Text extraction and
 * spaCy's analysis are inputs.
 */
module Preprocessing {
  import opened Wrappers
  import opened Strings
  import opened FileSystem
  import opened Helpers
  import opened Store
  import opened Counter

  // ---------------------------------------------------------------------------
  // Metadata from the path
  // ---------------------------------------------------------------------------

  /** The listing filter `x[-4:] == '.pdf'`. */
  predicate IsPdf(f: Path)
  {
    EndsWith(f, ".pdf")
  }

  /** The PDFs of a directory listing, in listing order. */
  function PdfFiles(listing: seq<Path>): (r: seq<Path>)
    ensures |r| <= |listing|
    ensures forall f :: f in r <==> f in listing && IsPdf(f)
  {
    if listing == [] then []
    else
      var rest := PdfFiles(listing[..|listing| - 1]);
      var f := listing[|listing| - 1];
      assert forall g :: g in listing <==> g in listing[..|listing| - 1] || g == f by {
        assert listing == listing[..|listing| - 1] + [f];
      }
      if IsPdf(f) then rest + [f] else rest
  }

  /** The filter keeps the listing order: a listing's PDFs are those of its first part, then those of the rest. */
  lemma {:induction false} PdfFilesAppend(a: seq<Path>, b: seq<Path>)
    ensures PdfFiles(a + b) == PdfFiles(a) + PdfFiles(b)
    decreases |b|
  {
    if b != [] {
      var n := |b| - 1;
      PdfFilesAppend(a, b[..n]);
      assert (a + b)[..|a + b| - 1] == a + b[..n];
      assert (a + b)[|a + b| - 1] == b[n];
    } else {
      assert a + b == a;
    }
  }

  /** A one-file listing keeps its file exactly when it is a PDF. */
  lemma PdfFilesSingle(f: Path)
    ensures PdfFiles([f]) == if IsPdf(f) then [f] else []
  {
    assert [f][..0] == [];
  }

  /** Python `s[4:-4]`: four characters off each end, nothing left from eight characters or fewer. */
  function DropFour(s: string): (r: string)
    ensures |r| == if |s| > 8 then |s| - 8 else 0
    ensures forall i :: 0 <= i < |r| ==> r[i] == s[i + 4]
  {
    if |s| > 8 then s[4..|s| - 4] else []
  }

  /** The title from a file name: dashes become spaces, the first four and the last four (`.pdf`) characters go, then the ends are stripped. */
  function Title(name: string): string
  {
    Trim(DropFour(Replace(name, "-", " ")))
  }

  datatype Meta = Meta(journal: string, year: string, title: string)

  /**
   * Journal, year and title are path segments 2, 3 and 4 (`../PDF/journal/year/name.pdf`);
   * a path with fewer than five segments raises IndexError.
   */
  function Metadata(f: Path): (r: Option<Meta>)
    ensures r.Some? <==> |Split(f, '/')| >= 5
    ensures r.Some? ==> r.value.journal == Split(f, '/')[2] && r.value.year == Split(f, '/')[3]
    ensures r.Some? ==> r.value.title == Title(Split(f, '/')[4])
  {
    var segs := Split(f, '/');
    if |segs| < 5 then None else Some(Meta(segs[2], segs[3], Title(segs[4])))
  }

  /** `'{}-{}-{}'.format(journal, year, title)`: the key that marks a PDF as processed. */
  function DocKey(journal: string, year: string, title: string): string
  {
    journal + "-" + year + "-" + title
  }

  /** The keys of the documents already in `publications_raw`. */
  function RawKeys(docs: seq<RawDoc>): (r: seq<string>)
    ensures |r| == |docs|
  {
    seq(|docs|, i requires 0 <= i < |docs| => DocKey(docs[i].journal, docs[i].year, docs[i].title))
  }

  lemma RawKeysAppend(a: seq<RawDoc>, b: seq<RawDoc>)
    ensures RawKeys(a + b) == RawKeys(a) + RawKeys(b)
  {
  }

  // ---------------------------------------------------------------------------
  // Character normalisation
  // ---------------------------------------------------------------------------

  /** Soft hyphen, em dash, en dash and minus sign, each replaced by '-'. */
  function Dashes(s: string): string
  {
    Replace(Replace(Replace(Replace(s, "\U{00AD}", "-"), "\U{2014}", "-"), "\U{2013}", "-"), "\U{2212}", "-")
  }

  /** A hyphen just before a line break is removed with the break, then every other line break becomes a space. */
  function LineBreaks(s: string): string
  {
    Replace(Replace(s, "-\n", ""), "\n", " ")
  }

  /** The fl, fi, ff, ffi and ffl ligatures spelled out. */
  function Ligatures(s: string): string
  {
    Replace(Replace(Replace(Replace(Replace(s, "\U{FB02}", "fl"), "\U{FB01}", "fi"), "\U{FB00}", "ff"), "\U{FB03}", "ffi"), "\U{FB04}", "ffl")
  }

  /** The replacements of full_text_preprocessing, in the order it makes them. */
  function Normalise(content: string): string
  {
    Ligatures(LineBreaks(Dashes(content)))
  }

  const DashChars: set<char> := {'\U{00AD}', '\U{2014}', '\U{2013}', '\U{2212}'}
  const LigatureChars: set<char> := {'\U{FB00}', '\U{FB01}', '\U{FB02}', '\U{FB03}', '\U{FB04}'}

  /** The characters no normalised text contains: line breaks, the dashes and the ligatures. */
  const Specials: set<char> := DashChars + LigatureChars + {'\n'}

  /** The dash stage leaves no special dash and brings in no character but '-'. */
  lemma DashesSpec(s: string)
    ensures forall c :: c in DashChars ==> c !in Dashes(s)
    ensures forall c :: c != '-' && c !in s ==> c !in Dashes(s)
  {
    var s1 := Replace(s, "\U{00AD}", "-");
    var s2 := Replace(s1, "\U{2014}", "-");
    var s3 := Replace(s2, "\U{2013}", "-");
    forall c | c in DashChars
      ensures c !in Dashes(s)
    {
      if c == '\U{00AD}' {
        ReplaceRemoves(s, c, "-");
        ReplaceKeepsAbsent(s1, "\U{2014}", "-", c);
        ReplaceKeepsAbsent(s2, "\U{2013}", "-", c);
        ReplaceKeepsAbsent(s3, "\U{2212}", "-", c);
      } else if c == '\U{2014}' {
        ReplaceRemoves(s1, c, "-");
        ReplaceKeepsAbsent(s2, "\U{2013}", "-", c);
        ReplaceKeepsAbsent(s3, "\U{2212}", "-", c);
      } else if c == '\U{2013}' {
        ReplaceRemoves(s2, c, "-");
        ReplaceKeepsAbsent(s3, "\U{2212}", "-", c);
      } else {
        ReplaceRemoves(s3, c, "-");
      }
    }
    forall c | c != '-' && c !in s
      ensures c !in Dashes(s)
    {
      ReplaceKeepsAbsent(s, "\U{00AD}", "-", c);
      ReplaceKeepsAbsent(s1, "\U{2014}", "-", c);
      ReplaceKeepsAbsent(s2, "\U{2013}", "-", c);
      ReplaceKeepsAbsent(s3, "\U{2212}", "-", c);
    }
  }

  /** The line-break stage leaves no line break and brings in no character but ' '. */
  lemma LineBreaksSpec(s: string)
    ensures '\n' !in LineBreaks(s)
    ensures forall c :: c != ' ' && c !in s ==> c !in LineBreaks(s)
  {
    var s1 := Replace(s, "-\n", "");
    ReplaceRemoves(s1, '\n', " ");
    forall c | c != ' ' && c !in s
      ensures c !in LineBreaks(s)
    {
      ReplaceKeepsAbsent(s, "-\n", "", c);
      ReplaceKeepsAbsent(s1, "\n", " ", c);
    }
  }

  /** The ligature stage leaves no ligature and brings in no character but 'f', 'l' and 'i'. */
  lemma LigaturesSpec(s: string)
    ensures forall c :: c in LigatureChars ==> c !in Ligatures(s)
    ensures forall c :: c !in "fli" && c !in s ==> c !in Ligatures(s)
  {
    var s1 := Replace(s, "\U{FB02}", "fl");
    var s2 := Replace(s1, "\U{FB01}", "fi");
    var s3 := Replace(s2, "\U{FB00}", "ff");
    var s4 := Replace(s3, "\U{FB03}", "ffi");
    forall c | c in LigatureChars
      ensures c !in Ligatures(s)
    {
      if c == '\U{FB02}' {
        ReplaceRemoves(s, c, "fl");
        ReplaceKeepsAbsent(s1, "\U{FB01}", "fi", c);
        ReplaceKeepsAbsent(s2, "\U{FB00}", "ff", c);
        ReplaceKeepsAbsent(s3, "\U{FB03}", "ffi", c);
        ReplaceKeepsAbsent(s4, "\U{FB04}", "ffl", c);
      } else if c == '\U{FB01}' {
        ReplaceRemoves(s1, c, "fi");
        ReplaceKeepsAbsent(s2, "\U{FB00}", "ff", c);
        ReplaceKeepsAbsent(s3, "\U{FB03}", "ffi", c);
        ReplaceKeepsAbsent(s4, "\U{FB04}", "ffl", c);
      } else if c == '\U{FB00}' {
        ReplaceRemoves(s2, c, "ff");
        ReplaceKeepsAbsent(s3, "\U{FB03}", "ffi", c);
        ReplaceKeepsAbsent(s4, "\U{FB04}", "ffl", c);
      } else if c == '\U{FB03}' {
        ReplaceRemoves(s3, c, "ffi");
        ReplaceKeepsAbsent(s4, "\U{FB04}", "ffl", c);
      } else {
        ReplaceRemoves(s4, c, "ffl");
      }
    }
    forall c | c !in "fli" && c !in s
      ensures c !in Ligatures(s)
    {
      ReplaceKeepsAbsent(s, "\U{FB02}", "fl", c);
      ReplaceKeepsAbsent(s1, "\U{FB01}", "fi", c);
      ReplaceKeepsAbsent(s2, "\U{FB00}", "ff", c);
      ReplaceKeepsAbsent(s3, "\U{FB03}", "ffi", c);
      ReplaceKeepsAbsent(s4, "\U{FB04}", "ffl", c);
    }
  }

  /** Normalised text has no line break, soft hyphen, dash or minus sign, and no ligature. */
  lemma NormaliseClean(content: string)
    ensures forall c :: c in Specials ==> c !in Normalise(content)
  {
    var d := Dashes(content);
    var l := LineBreaks(d);
    DashesSpec(content);
    LineBreaksSpec(d);
    LigaturesSpec(l);
    forall c | c in Specials
      ensures c !in Normalise(content)
    {
      if c !in LigatureChars {
        assert c !in "fli" && c != ' ';
        assert c !in l by {
          if c != '\n' {
            assert c in DashChars;
          }
        }
      }
    }
  }

  /** Text without the special characters passes every stage unchanged. */
  lemma NormaliseIdentity(s: string)
    requires forall c :: c in Specials ==> c !in s
    ensures Normalise(s) == s
  {
    ReplaceAbsent(s, "\U{00AD}", "-", '\U{00AD}');
    ReplaceAbsent(s, "\U{2014}", "-", '\U{2014}');
    ReplaceAbsent(s, "\U{2013}", "-", '\U{2013}');
    ReplaceAbsent(s, "\U{2212}", "-", '\U{2212}');
    assert Dashes(s) == s;
    ReplaceAbsent(s, "-\n", "", '\n');
    ReplaceAbsent(s, "\n", " ", '\n');
    assert LineBreaks(s) == s;
    ReplaceAbsent(s, "\U{FB02}", "fl", '\U{FB02}');
    ReplaceAbsent(s, "\U{FB01}", "fi", '\U{FB01}');
    ReplaceAbsent(s, "\U{FB00}", "ff", '\U{FB00}');
    ReplaceAbsent(s, "\U{FB03}", "ffi", '\U{FB03}');
    ReplaceAbsent(s, "\U{FB04}", "ffl", '\U{FB04}');
  }

  /** Normalising twice is normalising once. */
  lemma NormaliseIdempotent(content: string)
    ensures Normalise(Normalise(content)) == Normalise(content)
  {
    NormaliseClean(content);
    NormaliseIdentity(Normalise(content));
  }

  // ---------------------------------------------------------------------------
  // Truncation at the references and the acknowledgements
  // ---------------------------------------------------------------------------

  /** `if s.rfind(m) > 0: s = s[:s.rfind(m)]`. */
  function CutAtLast(s: string, marker: string): string
  {
    var i := RFind(s, marker);
    if i > 0 then s[..i] else s
  }

  /**
   * The cut keeps a prefix: either all of the text, when the marker occurs
   * nowhere after the first character, or everything before its last
   * occurrence.
   */
  lemma CutAtLastSpec(s: string, marker: string)
    requires |marker| > 0
    ensures var r := CutAtLast(s, marker);
      r == s[..|r|] &&
      (r == s <==> forall j :: j > 0 ==> !OccursAt(s, marker, j)) &&
      (r != s ==> |r| > 0 && OccursAt(s, marker, |r|) && forall j :: j > |r| ==> !OccursAt(s, marker, j))
  {
    var i := RFind(s, marker);
    if i > 0 {
      assert OccursAt(s, marker, i);
      assert |s[..i]| < |s|;
    }
  }

  /** full_text_preprocessing's truncation: at the last "References", then at the last "Acknowledgment". */
  function Truncate(s: string): (r: string)
    ensures |r| <= |s| && r == s[..|r|]
  {
    var t := CutAtLast(s, "References");
    CutAtLastSpec(s, "References");
    CutAtLastSpec(t, "Acknowledgment");
    CutAtLast(t, "Acknowledgment")
  }

  /** The text stored for a PDF: normalised, then truncated; it is clean. */
  function CleanText(content: string): (r: string)
    ensures forall c :: c in Specials ==> c !in r
  {
    NormaliseClean(content);
    var n := Normalise(content);
    var r := Truncate(n);
    assert forall c :: c in r ==> c in n by {
      assert r == n[..|r|];
    }
    r
  }

  // ---------------------------------------------------------------------------
  // full_text_preprocessing
  // ---------------------------------------------------------------------------

  /** What a pass over the PDFs has inserted so far, and whether it stopped on a path without enough segments. */
  datatype Pass = Pass(added: seq<RawDoc>, crashed: bool)

  /** The record inserted for a PDF. */
  function NewDoc(m: Meta, content: string): RawDoc
  {
    RawDoc(m.journal, m.title, m.year, CleanText(content), None)
  }

  /** One iteration of the loop over the PDFs; `extract` stands for pdf_to_plain. */
  function FileStep(snapshot: seq<string>, extract: Path -> Option<string>, p: Pass, f: Path): Pass
  {
    if p.crashed then p
    else match Metadata(f)
      case None => p.(crashed := true)
      case Some(m) =>
        if DocKey(m.journal, m.year, m.title) in snapshot then p
        else match extract(f)
          case None => p
          case Some(content) => p.(added := p.added + [NewDoc(m, content)])
  }

  /** The loop over `files`, from an empty pass. */
  function FullText(snapshot: seq<string>, extract: Path -> Option<string>, files: seq<Path>): Pass
  {
    if files == [] then Pass([], false)
    else FileStep(snapshot, extract, FullText(snapshot, extract, files[..|files| - 1]), files[|files| - 1])
  }

  /** Once a path has stopped the pass, the files after it change nothing. */
  lemma {:induction false} FullTextStopped(snapshot: seq<string>, extract: Path -> Option<string>, files: seq<Path>, n: nat)
    requires n <= |files| && FullText(snapshot, extract, files[..n]).crashed
    ensures FullText(snapshot, extract, files) == FullText(snapshot, extract, files[..n])
    decreases |files|
  {
    if n < |files| {
      var init := files[..|files| - 1];
      assert init[..n] == files[..n];
      FullTextStopped(snapshot, extract, init, n);
    } else {
      assert files[..n] == files;
    }
  }

  /** Records are only ever appended. */
  lemma {:induction false} FullTextGrows(snapshot: seq<string>, extract: Path -> Option<string>, files: seq<Path>)
    requires files != []
    ensures var p := FullText(snapshot, extract, files[..|files| - 1]);
      var q := FullText(snapshot, extract, files);
      |p.added| <= |q.added| && p.added == q.added[..|p.added|] && (q.crashed ==> p.crashed || q.added == p.added) && (p.crashed ==> q == p)
  {
  }

  /** At most one record per PDF. */
  lemma {:induction false} FullTextCount(snapshot: seq<string>, extract: Path -> Option<string>, files: seq<Path>)
    ensures |FullText(snapshot, extract, files).added| <= |files|
    decreases |files|
  {
    if files != [] {
      FullTextCount(snapshot, extract, files[..|files| - 1]);
    }
  }

  /**
   * Every inserted record comes from a PDF whose metadata could be read, whose
   * key was not in the snapshot and whose text could be extracted; it holds
   * that metadata and the cleaned text.
   */
  lemma {:induction false} FullTextAdded(snapshot: seq<string>, extract: Path -> Option<string>, files: seq<Path>, d: RawDoc)
    returns (f: Path)
    requires d in FullText(snapshot, extract, files).added
    ensures f in files && Metadata(f).Some? && extract(f).Some?
    ensures var m := Metadata(f).value;
      DocKey(m.journal, m.year, m.title) !in snapshot && d == NewDoc(m, extract(f).value)
    decreases |files|
  {
    var init := files[..|files| - 1];
    var last := files[|files| - 1];
    if d in FullText(snapshot, extract, init).added {
      f := FullTextAdded(snapshot, extract, init, d);
    } else {
      f := last;
    }
  }

  /** A record never holds a line break, special dash or ligature, nor tokens. */
  lemma FullTextClean(snapshot: seq<string>, extract: Path -> Option<string>, files: seq<Path>, d: RawDoc)
    requires d in FullText(snapshot, extract, files).added
    ensures forall c :: c in Specials ==> c !in d.content
    ensures d.tokens == None
  {
    var f := FullTextAdded(snapshot, extract, files, d);
  }

  /** In a pass that does not stop, every PDF with readable metadata, an unseen key and extractable text is inserted. */
  lemma {:induction false} FullTextInserts(snapshot: seq<string>, extract: Path -> Option<string>, files: seq<Path>, j: nat)
    requires j < |files| && !FullText(snapshot, extract, files).crashed
    requires Metadata(files[j]).Some? && extract(files[j]).Some?
    requires var m := Metadata(files[j]).value; DocKey(m.journal, m.year, m.title) !in snapshot
    ensures NewDoc(Metadata(files[j]).value, extract(files[j]).value) in FullText(snapshot, extract, files).added
    decreases |files|
  {
    var init := files[..|files| - 1];
    var p := FullText(snapshot, extract, init);
    var q := FullText(snapshot, extract, files);
    var d := NewDoc(Metadata(files[j]).value, extract(files[j]).value);
    FullTextGrows(snapshot, extract, files);
    if j < |files| - 1 {
      assert d in p.added by {
        assert init[j] == files[j];
        FullTextInserts(snapshot, extract, init, j);
      }
      PrefixMember(p.added, q.added, d);
    } else {
      FileStepInserts(snapshot, extract, p, files[j]);
    }
  }

  lemma PrefixMember(a: seq<RawDoc>, b: seq<RawDoc>, d: RawDoc)
    requires |a| <= |b| && a == b[..|a|] && d in a
    ensures d in b
  {
    var i :| 0 <= i < |a| && a[i] == d;
    assert b[i] == d;
  }

  /** A PDF with readable metadata, an unseen key and extractable text adds its record. */
  lemma FileStepInserts(snapshot: seq<string>, extract: Path -> Option<string>, p: Pass, f: Path)
    requires !p.crashed && Metadata(f).Some? && extract(f).Some?
    requires var m := Metadata(f).value; DocKey(m.journal, m.year, m.title) !in snapshot
    ensures FileStep(snapshot, extract, p, f).added == p.added + [NewDoc(Metadata(f).value, extract(f).value)]
  {
  }

  /** When every PDF the first pass would insert has its key in `seen`, a pass over `seen` inserts nothing. */
  lemma {:induction false} FullTextCovered(snapshot: seq<string>, seen: seq<string>, extract: Path -> Option<string>, files: seq<Path>)
    requires !FullText(snapshot, extract, files).crashed
    requires forall f :: f in files && Metadata(f).Some? && extract(f).Some? ==>
      var m := Metadata(f).value; DocKey(m.journal, m.year, m.title) in seen
    ensures FullText(seen, extract, files) == Pass([], false)
    decreases |files|
  {
    if files != [] {
      var init := files[..|files| - 1];
      FullTextGrows(snapshot, extract, files);
      FullTextCovered(snapshot, seen, extract, init);
    }
  }

  /** After a pass that does not stop, running it again with the same PDFs inserts nothing. */
  lemma FullTextRerun(snapshot: seq<string>, extract: Path -> Option<string>, files: seq<Path>)
    requires !FullText(snapshot, extract, files).crashed
    ensures FullText(snapshot + RawKeys(FullText(snapshot, extract, files).added), extract, files) == Pass([], false)
  {
    var added := FullText(snapshot, extract, files).added;
    var seen := snapshot + RawKeys(added);
    forall f | f in files && Metadata(f).Some? && extract(f).Some?
      ensures var m := Metadata(f).value; DocKey(m.journal, m.year, m.title) in seen
    {
      var m := Metadata(f).value;
      if DocKey(m.journal, m.year, m.title) !in snapshot {
        var j :| 0 <= j < |files| && files[j] == f;
        FullTextInserts(snapshot, extract, files, j);
        var d := NewDoc(m, extract(f).value);
        var i :| 0 <= i < |added| && added[i] == d;
        assert RawKeys(added)[i] == DocKey(m.journal, m.year, m.title);
      }
    }
    FullTextCovered(snapshot, seen, extract, files);
  }

  /** The loop body's rewriting of the extracted text, one replacement or cut at a time. */
  method CleanContent(extracted: string) returns (content: string)
    ensures content == CleanText(extracted)
  {
    content := Replace(extracted, "\U{00AD}", "-");
    content := Replace(content, "\U{2014}", "-");
    content := Replace(content, "\U{2013}", "-");
    content := Replace(content, "\U{2212}", "-");
    content := Replace(content, "-\n", "");
    content := Replace(content, "\n", " ");
    content := Replace(content, "\U{FB02}", "fl");
    content := Replace(content, "\U{FB01}", "fi");
    content := Replace(content, "\U{FB00}", "ff");
    content := Replace(content, "\U{FB03}", "ffi");
    content := Replace(content, "\U{FB04}", "ffl");
    if RFind(content, "References") > 0 {
      content := content[..RFind(content, "References")];
    }
    if RFind(content, "Acknowledgment") > 0 {
      content := content[..RFind(content, "Acknowledgment")];
    }
  }

  /** The pass over the first `i + 1` files is one step after the pass over the first `i`. */
  lemma FullTextPrefixStep(snapshot: seq<string>, extract: Path -> Option<string>, files: seq<Path>, i: nat)
    requires i < |files|
    ensures FullText(snapshot, extract, files[..i + 1]) == FileStep(snapshot, extract, FullText(snapshot, extract, files[..i]), files[i])
  {
    assert files[..i + 1][..i] == files[..i];
  }

  /** One iteration of full_text_preprocessing's loop: the pass so far is `p`, and its records follow `raw`. */
  method VisitFile(db: Database, processed: seq<string>, extract: Path -> Option<string>, f: Path,
                   ghost raw: seq<RawDoc>, ghost p: Pass) returns (crashed: bool)
    modifies db
    requires !p.crashed && db.publicationsRaw == raw + p.added
    ensures var q := FileStep(processed, extract, p, f);
      db.publicationsRaw == raw + q.added && crashed == q.crashed
    ensures db.coherence == old(db.coherence) && db.publications == old(db.publications)
  {
    crashed := false;
    var meta := Metadata(f);
    if meta.None? {
      crashed := true;
      assert FileStep(processed, extract, p, f) == p.(crashed := true);
    } else {
      var m := meta.value;
      if DocKey(m.journal, m.year, m.title) !in processed {
        var extracted := extract(f);
        if extracted.Some? {
          var content := CleanContent(extracted.value);
          var doc := RawDoc(m.journal, m.title, m.year, content, None);
          assert doc == NewDoc(m, extracted.value);
          assert FileStep(processed, extract, p, f) == p.(added := p.added + [doc]);
          ConcatAssoc(raw, p.added, [doc]);
          db.publicationsRaw := db.publicationsRaw + [doc];
        } else {
          assert FileStep(processed, extract, p, f) == p;
        }
      } else {
        assert FileStep(processed, extract, p, f) == p;
      }
    }
  }

  /**
   * preprocessing.full_text_preprocessing over the files of `listing` (the
   * glob of the PDF folder): the records of the pass are appended to
   * `publications_raw`; the result tells whether a path without enough
   * segments stopped it.
   */
  method FullTextPreprocessing(db: Database, listing: seq<Path>, extract: Path -> Option<string>) returns (crashed: bool)
    modifies db
    ensures var p := FullText(RawKeys(old(db.publicationsRaw)), extract, PdfFiles(listing));
      db.publicationsRaw == old(db.publicationsRaw) + p.added && crashed == p.crashed
    ensures db.coherence == old(db.coherence) && db.publications == old(db.publications)
  {
    var files := PdfFiles(listing);
    var processed := RawKeys(db.publicationsRaw);
    ghost var raw := db.publicationsRaw;
    crashed := false;
    var i := 0;
    while i < |files| && !crashed
      invariant 0 <= i <= |files|
      invariant db.publicationsRaw == raw + FullText(processed, extract, files[..i]).added
      invariant crashed == FullText(processed, extract, files[..i]).crashed
      invariant db.coherence == old(db.coherence) && db.publications == old(db.publications)
    {
      crashed := VisitFile(db, processed, extract, files[i], raw, FullText(processed, extract, files[..i]));
      FullTextPrefixStep(processed, extract, files, i);
      i := i + 1;
    }
    if crashed {
      FullTextStopped(processed, extract, files, i);
    }
    assert files[..|files|] == files;
  }

  // ---------------------------------------------------------------------------
  // general_preprocessing
  // ---------------------------------------------------------------------------

  /** `'{} {}'.format(x[0], x[1])`. */
  function Fmt(p: (string, string)): string
  {
    p.0 + " " + p.1
  }

  /** The index of the first space, or the length. */
  function SpaceIndex(s: string): (i: nat)
    ensures i <= |s|
  {
    if s == [] || s[0] == ' ' then 0 else 1 + SpaceIndex(s[1..])
  }

  lemma {:induction false} SpaceIndexFmt(a: string, b: string)
    requires ' ' !in a
    ensures SpaceIndex(a + " " + b) == |a|
    decreases |a|
  {
    if a != [] {
      assert (a + " " + b)[1..] == a[1..] + " " + b;
      SpaceIndexFmt(a[1..], b);
    }
  }

  /** Distinct bigrams whose first words have no space give distinct texts. */
  lemma FmtInjective(p: (string, string), q: (string, string))
    requires ' ' !in p.0 && ' ' !in q.0 && Fmt(p) == Fmt(q)
    ensures p == q
  {
    SpaceIndexFmt(p.0, p.1);
    SpaceIndexFmt(q.0, q.1);
    assert p.0 == Fmt(p)[..|p.0|];
    assert q.0 == Fmt(q)[..|q.0|];
    assert p.1 == Fmt(p)[|p.0| + 1..];
    assert q.1 == Fmt(q)[|q.0| + 1..];
  }

  /** `[x] * n`. */
  function Repeat(x: string, n: nat): (r: seq<string>)
    ensures multiset(r)[x] == n
    ensures forall y :: y != x ==> multiset(r)[y] == 0
  {
    if n == 0 then [] else [x] + Repeat(x, n - 1)
  }

  /** Each bigram of the list whose count reaches `min`, written out as many times as it occurs. */
  function Expand(mc: seq<((string, string), nat)>, min: int): seq<string>
  {
    if mc == [] then []
    else (if mc[0].1 >= min then Repeat(Fmt(mc[0].0), mc[0].1) else []) + Expand(mc[1..], min)
  }

  lemma {:induction false} ExpandAppend(a: seq<((string, string), nat)>, b: seq<((string, string), nat)>, min: int)
    ensures Expand(a + b, min) == Expand(a, min) + Expand(b, min)
    decreases |a|
  {
    if a != [] {
      assert (a + b)[1..] == a[1..] + b;
      ExpandAppend(a[1..], b, min);
    } else {
      assert a + b == b;
    }
  }

  /** Expansion does not depend on where an entry is inserted. */
  lemma {:induction false} ExpandInsert(e: ((string, string), nat), s: seq<((string, string), nat)>, min: int)
    ensures multiset(Expand(Insert(e, s), min)) == multiset(Expand([e], min)) + multiset(Expand(s, min))
    decreases |s|
  {
    if s == [] || e.1 > s[0].1 {
      ExpandAppend([e], s, min);
    } else {
      var head, tail := [s[0]], Insert(e, s[1..]);
      assert Insert(e, s) == head + tail;
      assert head + s[1..] == s;
      ExpandInsert(e, s[1..], min);
      ExpandAppend(head, tail, min);
      ExpandAppend(head, s[1..], min);
      MultisetInsertShuffle(Expand(head, min), Expand(tail, min), Expand([e], min), Expand(s[1..], min));
    }
  }

  lemma MultisetInsertShuffle(h: seq<string>, t: seq<string>, x: seq<string>, r: seq<string>)
    requires multiset(t) == multiset(x) + multiset(r)
    ensures multiset(h + t) == multiset(x) + multiset(h + r)
  {
  }

  lemma {:induction false} ExpandSort(s: seq<((string, string), nat)>, min: int)
    ensures multiset(Expand(SortByCount(s), min)) == multiset(Expand(s, min))
    decreases |s|
  {
    if s != [] {
      var init := s[..|s| - 1];
      ExpandSort(init, min);
      assert init + [s[|s| - 1]] == s;
      ExpandSortStep(init, s[|s| - 1], min);
    }
  }

  lemma ExpandSortStep(init: seq<((string, string), nat)>, e: ((string, string), nat), min: int)
    requires multiset(Expand(SortByCount(init), min)) == multiset(Expand(init, min))
    ensures multiset(Expand(SortByCount(init + [e]), min)) == multiset(Expand(init + [e], min))
  {
    var s := init + [e];
    assert s[..|s| - 1] == init && s[|s| - 1] == e;
    var sorted := SortByCount(init);
    var a, b, c, d := Expand(SortByCount(s), min), Expand([e], min), Expand(sorted, min), Expand(init, min);
    assert multiset(a) == multiset(b) + multiset(c) by {
      assert SortByCount(s) == Insert(e, sorted);
      ExpandInsert(e, sorted, min);
    }
    assert Expand(s, min) == d + b by {
      ExpandAppend(init, [e], min);
    }
    MultisetShuffle(a, b, c, d, Expand(s, min));
  }

  lemma MultisetShuffle(a: seq<string>, b: seq<string>, c: seq<string>, d: seq<string>, e: seq<string>)
    requires multiset(a) == multiset(b) + multiset(c) && multiset(c) == multiset(d) && e == d + b
    ensures multiset(a) == multiset(e)
  {
  }

  /** The count of a bigram's text in the expansion of a tally over distinct bigrams. */
  lemma {:induction false} ExpandTally(u: seq<(string, string)>, xs: seq<(string, string)>, min: int, p: (string, string))
    requires forall i, j :: 0 <= i < j < |u| ==> u[i] != u[j]
    requires forall q :: q in u ==> ' ' !in q.0
    requires ' ' !in p.0
    ensures multiset(Expand(Tally(u, xs), min))[Fmt(p)] ==
      if p in u && multiset(xs)[p] >= min then multiset(xs)[p] else 0
    decreases |u|
  {
    if u != [] {
      var t := Tally(u, xs);
      assert t[1..] == Tally(u[1..], xs);
      ExpandTally(u[1..], xs, min, p);
      if u[0] != p {
        if Fmt(u[0]) == Fmt(p) {
          FmtInjective(u[0], p);
        }
      } else {
        assert p !in u[1..];
      }
    }
  }

  /** The bigram tokens of general_preprocessing for a list of lemmas. */
  function BigramTokens(unigrams: seq<string>, min: int): seq<string>
  {
    Expand(MostCommon(GetBigrams(Join(unigrams, ' '))), min)
  }

  /** Both words of a bigram are words of the text. */
  lemma PairsWords(ws: seq<string>, q: (string, string))
    requires q in Pairs(ws)
    ensures q.0 in ws && q.1 in ws
  {
    var i :| 0 <= i < |Pairs(ws)| && Pairs(ws)[i] == q;
    PairsAt(ws, i);
  }

  /**
   * A bigram that occurs `n` times among the bigrams of the lemmas appears
   * exactly `n` times, as "w1 w2", when `n` reaches `min`, and not at all
   * otherwise.
   */
  lemma BigramCount(unigrams: seq<string>, min: int, p: (string, string))
    requires ' ' !in p.0
    ensures var n := multiset(GetBigrams(Join(unigrams, ' ')))[p];
      multiset(BigramTokens(unigrams, min))[Fmt(p)] == if n >= min then n else 0
  {
    var ws := Words(Join(unigrams, ' '));
    var bs := GetBigrams(Join(unigrams, ' '));
    var u := Dedup(bs);
    forall q | q in u
      ensures ' ' !in q.0
    {
      PairsWords(ws, q);
      var k :| 0 <= k < |ws| && ws[k] == q.0;
    }
    ExpandSort(Tally(u, bs), min);
    ExpandTally(u, bs, min, p);
  }

  /** spaCy's analysis of a text: its tokens and the text of its entities. */
  datatype Analysis = Analysis(tokens: seq<Token>, entities: seq<string>)

  /** `unigrams + bigrams + entities`. */
  function Tokens(a: Analysis, min: int): seq<string>
  {
    var unigrams := WordTokenizer(a.tokens);
    unigrams + BigramTokens(unigrams, min) + NamedEntityRecognition(a.entities)
  }

  /** A document is given tokens when it has none; `nlp` stands for spaCy. */
  function TokeniseDoc(d: RawDoc, nlp: string -> Analysis, min: int): RawDoc
  {
    if d.tokens.Some? then d else d.(tokens := Some(Tokens(nlp(d.content), min)))
  }

  /**
   * The collection after general_preprocessing: every document has tokens,
   * a document that had them is unchanged, and no other field changes.
   */
  function Tokenise(docs: seq<RawDoc>, nlp: string -> Analysis, min: int): (r: seq<RawDoc>)
    ensures |r| == |docs|
    ensures forall i :: 0 <= i < |docs| ==> r[i].tokens.Some? && (docs[i].tokens.Some? ==> r[i] == docs[i])
    ensures forall i :: 0 <= i < |docs| ==>
      r[i].journal == docs[i].journal && r[i].title == docs[i].title && r[i].year == docs[i].year && r[i].content == docs[i].content
  {
    seq(|docs|, i requires 0 <= i < |docs| => TokeniseDoc(docs[i], nlp, min))
  }

  /** A second run changes nothing. */
  lemma TokeniseIdempotent(docs: seq<RawDoc>, nlp: string -> Analysis, min: int)
    ensures Tokenise(Tokenise(docs, nlp, min), nlp, min) == Tokenise(docs, nlp, min)
  {
  }

  /**
   * preprocessing.general_preprocessing: each document of `publications_raw`
   * without tokens gets `unigrams + bigrams + entities` of its content.
   */
  method GeneralPreprocessing(db: Database, nlp: string -> Analysis, minBigramCount: int)
    modifies db
    ensures db.publicationsRaw == Tokenise(old(db.publicationsRaw), nlp, minBigramCount)
    ensures db.coherence == old(db.coherence) && db.publications == old(db.publications)
  {
    var docs := db.publicationsRaw;
    var i := 0;
    while i < |docs|
      invariant 0 <= i <= |docs| && |db.publicationsRaw| == |docs|
      invariant forall j :: 0 <= j < i ==> db.publicationsRaw[j] == TokeniseDoc(docs[j], nlp, minBigramCount)
      invariant forall j :: i <= j < |docs| ==> db.publicationsRaw[j] == docs[j]
      invariant db.coherence == old(db.coherence) && db.publications == old(db.publications)
    {
      var d := docs[i];
      if d.tokens.None? {
        var content := nlp(d.content);
        var unigrams := WordTokenizer(content.tokens);
        var entities := NamedEntityRecognition(content.entities);
        var bigrams := BigramTokens(unigrams, minBigramCount);
        db.publicationsRaw := db.publicationsRaw[i := d.(tokens := Some(unigrams + bigrams + entities))];
      }
      i := i + 1;
    }
  }
}
