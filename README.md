# LDA topic-modelling pipeline: a verified model of its bookkeeping

The pipeline turns a folder of PDF publications into topic models. It works in five stages:

1. `preprocessing.py` extracts and cleans the full texts. It then tokenises them into unigrams, frequent bigrams and named entities.
2. `datamining.py` runs a resumable grid search. For every grid cell it fits one gensim LDA model and saves it under a folder that encodes the hyperparameters.
3. `evaluation.py` scores every saved model by c_v coherence. It pivots the scores into a table by number of topics and configuration, and formats the topics of a chosen model as tables.
4. `interpretation.py` infers each document's topic distribution. It picks the dominant topic of each document, and groups the distributions by dominant topic and by year.
5. `helper_functions.py` supplies the file-system, tokenisation, entity and label helpers the stages share.

The model keeps the pipeline's own logic and replaces every library by a parameter or an abstract input:

- **Libraries.** gensim, spaCy, NLTK, textract and glob become parameters or abstract inputs.
- **File system.** It is a set of path strings.
- **MongoDB.** The document store is an object holding the three collections `publications_raw`, `coherence` and `publications` as sequences of records (`Store.Database`).
- **Exceptions.** An exception the code does not catch ends the operation. The model records where it ended (`Aborted`, `crashed`, `None`).

Modules, one per concern:

| module | models |
|---|---|
| `Strings` | the Python `str` operations the code relies on: `split`, `join`, `strip`, `lower`, `upper`, `replace`, `rfind`, `str(n)`, `int(s)` |
| `FileSystem` | `create_dir`, `save_pdf`, `get_dic_corpus`, `load_LDA_model`, `read_directory`; class `FileSystem` over the set of paths |
| `Helpers` | `word_tokenizer`, `get_bigrams`, `named_entity_recognition`, `get_topic_label` |
| `Counter` | `collections.Counter(...).most_common()` |
| `Grid` | the grid of `execute_lda` and its nested-loop order |
| `PathCodec` | the folder layout `root/k/prior/seed/passes/iterations/lda.model` and its decoding by `split('/')[1..5]` |
| `Datamining` | `execute_lda` as imperative loops proved against a step function `Step`/`Run` |
| `Preprocessing` | `full_text_preprocessing` and `general_preprocessing` |
| `Evaluation` | `calculate_coherence`, the pivot of `plot_coherence`, `output_lda_topics` |
| `Interpretation` | `infer_document_topic_distribution`, `get_document_title_per_topic`, the grouping of `plot_topic_co_occurrence`, `get_year_to_topics`, `get_year_to_cum_topics` |

Each loop that changes state is a method. Each method is proved equal to a function over the sequence it walks (`Run`, `FullText`, `Coherence`, `Tokenise`, `Inferred`, `GroupBy`, `TopicTables`). The lemmas state what the source promises about those functions.

## Model

| member | source | states |
|---|---|---|
| Strings.Join | preprocessing.py:165 | `sep.join(parts)` for a one-character separator: the parts with one separator between neighbours; its properties are those of `Split`, `SplitJoin` and `JoinInjective` |
| Strings.Split | evaluation.py:80 | `s.split(sep)` is never empty; no part contains the separator, and the parts joined by it give back `s` |
| Strings.SplitJoin | evaluation.py:80-88 | splitting inverts joining whenever no part contains the separator |
| Strings.JoinInjective | datamining.py:103 | separator-free component lists with the same join are equal |
| Strings.Words | helper_functions.py:165 | `text.split()` yields non-empty words without whitespace |
| Strings.WordsOfJoin | preprocessing.py:165 | `" ".join(ws).split()` gives back `ws` for a list of words |
| Strings.Strip | evaluation.py:217 | `strip(chars)` removes exactly the leading and the trailing run of `chars`: the result is a slice of the input, every character before and after it is in `chars`, and its own end characters are not |
| Strings.Trim | evaluation.py:209 | `strip()` with no argument is `Strip` over the whitespace characters, so `Strip`'s contract applies |
| Strings.RStrip | evaluation.py:227 | `rstrip(chars)` keeps a prefix and drops exactly a trailing run of `chars` |
| Strings.LStrip | evaluation.py:209 | `lstrip(chars)` keeps a suffix and drops exactly a leading run of `chars` |
| Strings.Lower | helper_functions.py:179 | `lower()` turns each ASCII capital into its small letter (code + 32) and keeps every other character |
| Strings.Upper | evaluation.py:220 | `upper()` turns each ASCII small letter into its capital (code - 32) and keeps every other character |
| Strings.Replace | preprocessing.py:87-104 | `s.replace(pat, rep)` for a non-empty pattern, scanning left to right and replacing leftmost, non-overlapping occurrences; what it guarantees is in the four rows that follow |
| Strings.ReplaceRemoves | preprocessing.py:87-104 | replacing a character by text without it removes every occurrence |
| Strings.ReplaceKeepsAbsent | preprocessing.py:87-104 | a replacement brings in no character absent from the input and the replacement text |
| Strings.ReplaceAbsent | preprocessing.py:100-104 | text lacking a character of the pattern is unchanged by the replacement |
| Strings.ReplaceCharAt | preprocessing.py:87-93 | replacing one character by another maps each position independently |
| Strings.RFind | preprocessing.py:117 | `rfind` is -1 exactly when there is no occurrence, else the index of the last occurrence |
| Strings.NatToString | datamining.py:103 | `str(n)` is canonical decimal digits whose value is `n` |
| Strings.NatToStringInjective | datamining.py:103 | distinct numbers print differently |
| Strings.ParseInt | evaluation.py:131 | `int(s)`: surrounding whitespace is ignored, then an optional '+' or '-', whitespace again, and at least one decimal digit; anything else raises (None); `ParseIntOfNatToString` gives its round trip with `str` |
| Strings.ParseSignedAfterSign | evaluation.py:131 | after a sign, `int` skips whitespace and reads the digits that follow, negated for '-' (`int('- 7') == -7`) |
| Strings.ParseSignedAfterSignFails | evaluation.py:131 | after a sign, anything but optional whitespace followed by at least one digit makes `int` raise |
| Strings.ParseIntOfNatToString | interpretation.py:251 | `int(str(n)) == n`, so the topic keys written as `str(id)` read back as their ids |
| FileSystem.PathJoin | datamining.py:103 | POSIX `os.path.join(a, b)`: an absolute `b` replaces `a`, an empty `a` or one ending in '/' is followed by `b` directly, otherwise one '/' separates them; `JoinComponent` and `PathJoinAllShape` state its results for the pipeline's components |
| FileSystem.DirPrefixes | helper_functions.py:54 | `os.makedirs(p)` creates `p`, and every directory it creates is a prefix of `p` |
| FileSystem.DirPrefixesExact | helper_functions.py:54 | `os.makedirs(p)` creates exactly `p` and its ancestors, the cuts of `p` right before a '/' |
| FileSystem.CreateDirResult | helper_functions.py:46-57 | `create_dir` only adds the directory and its ancestors; afterwards the directory exists unless the OS raised; an existing directory changes nothing; an OS error is logged and, as modelled, raised before anything was created, so the paths are unchanged |
| FileSystem.CreateDirIdempotent | helper_functions.py:52-54 | after a successful `create_dir`, a second call changes nothing |
| FileSystem.FileSystem.CreateDir | helper_functions.py:46-57 | updates the path set as `CreateDirResult` describes |
| FileSystem.FileSystem.SavePdf | helper_functions.py:90-113 | fetches exactly when `overwrite` is set or the file is absent; adds only the folder, its ancestors and the file; the file exists afterwards exactly when it existed before or a successful fetch wrote it into an existing folder |
| FileSystem.GetDicCorpus | helper_functions.py:186-207 | succeeds exactly when both `dictionary.dict` and `corpus.mm` exist, and returns those two files; a missing dictionary is reported first, a missing corpus only when the dictionary exists |
| FileSystem.LoadLdaModel | helper_functions.py:210-220 | succeeds exactly when the model file exists, and then loads that file; otherwise it reports the missing model |
| FileSystem.ReadDirectory | helper_functions.py:129-139 | the glob `dir/**/*.*`: every existing path strictly below `dir` with no hidden component (none starting with '.') below `dir` and whose last component contains a '.'; `ListedBelow` and `PathCodec.ModelFileListed` state which paths it lists |
| FileSystem.ListedBelow | helper_functions.py:136 | a path `dir/rel` that exists, has no hidden component in `rel` and a '.' in its last component is listed |
| PathCodec.ModelFileListed | helper_functions.py:136 | a model saved by `execute_lda` under a models folder without a trailing '/' is listed by `read_directory` of that folder, provided the prior does not start with '.' |
| Helpers.WordTokenizer | helper_functions.py:142-156 | at most one lemma per token; the output is as long as the input exactly when every token is alphabetic, not a stop word and longer than one character |
| Helpers.WordTokenizerAppend | helper_functions.py:153 | the filter works token by token: tokenising a concatenation concatenates the outputs |
| Helpers.WordTokenizerWords | helper_functions.py:153 | a word is in the output exactly when it is the lemma of a kept token |
| Helpers.Pairs | helper_functions.py:165 | `nltk.bigrams` gives n-1 pairs for n >= 1 words and none for no words |
| Helpers.PairsAt | helper_functions.py:165 | pair i is word i and word i+1 |
| Helpers.PairsRoundTrip | helper_functions.py:165 | with two words or more, the bigrams determine the words (`Unpair` inverts `Pairs`) |
| Helpers.GetBigrams | helper_functions.py:158-168 | `get_bigrams` gives one pair fewer than the whitespace-separated words, none for no words |
| Helpers.BigramsOfJoin | preprocessing.py:165 | the bigrams of the joined unigrams are the adjacent pairs of the unigrams |
| Helpers.LongEntities | helper_functions.py:179 | the first comprehension keeps at most one text per entity |
| Helpers.CleanEntities | helper_functions.py:180 | the second comprehension keeps at most one text per entity |
| Helpers.NamedEntityRecognition | helper_functions.py:170-183 | at most one text per entity |
| Helpers.EntitiesClean | helper_functions.py:179-180 | every kept entity is lower-case, digit-free ASCII with no surrounding whitespace, and is the stripped lower-cased text of an entity of more than two words |
| Helpers.LongSource | helper_functions.py:179 | every text of the first comprehension is the lower-cased text of an entity of more than two words |
| Helpers.CleanSource | helper_functions.py:180 | every text of the second comprehension is the stripped form of a digit-free ASCII input |
| Helpers.EntityKept | helper_functions.py:179-180 | conversely, an entity of more than two words whose lower-cased text is digit-free ASCII is kept, stripped |
| Helpers.CleanAppend | helper_functions.py:180 | the second filter works entity by entity |
| Helpers.GetTopicLabel | helper_functions.py:223-241 | a non-empty label exactly for the ids 0 to 9; any other id is a KeyError |
| Helpers.TopicLabelsDistinct | helper_functions.py:230-239 | distinct topics have distinct labels |
| Counter.Dedup | preprocessing.py:166 | the distinct elements of the input, each once |
| Counter.SortByCount | preprocessing.py:166 | the sort by count is a permutation of its input |
| Counter.SortByCountSorted | preprocessing.py:166 | the sort by count yields descending counts |
| Counter.MostCommon | preprocessing.py:166 | `Counter(xs).most_common()`: the distinct elements with their counts, sorted by descending count; `MostCommonSorted`, `MostCommonEntries` and `MostCommonDistinct` state it |
| Counter.MostCommonSorted | preprocessing.py:166 | `most_common()` lists entries by descending count |
| Counter.MostCommonEntries | preprocessing.py:166 | `(x, n)` is an entry of `most_common()` exactly when `x` occurs in the input and `n` is its number of occurrences |
| Counter.MostCommonDistinct | preprocessing.py:166 | no two entries of `most_common()` share an element: there is exactly one entry per distinct element |
| Grid.Range | datamining.py:68 | `range(lo, hi)` holds `lo` to `hi - 1` in order |
| Grid.Cells | datamining.py:67-98 | the grid has 19 * 1 * 2 * 4 * 1 = 152 cells |
| Grid.CellsAt | datamining.py:82-98 | the nested loops at indices (ki, pi, si, pai, ii) visit the cell of those list entries, at position ki*8 + pi*8 + si*4 + pai + ii |
| Grid.CellsMembership | datamining.py:68-76 | a cell is visited exactly when k is in 2..20, the prior is `auto`, the seed is 42 or 99, passes are 5, 10, 15 or 20 and iterations are 200 |
| Grid.CellsValid | datamining.py:103 | every grid cell can be written as path components |
| Grid.CellAtBefore | datamining.py:82-98 | the cells come in strictly increasing nested-loop order (k, then seed, then passes) |
| Grid.CellsOrdered | datamining.py:82-98 | the loops visit the cells in strictly increasing order, so no cell comes twice |
| PathCodec.SegmentsPlain | datamining.py:103 | the five components of a cell are non-empty and contain no '/' |
| PathCodec.JoinComponent | datamining.py:103 | `os.path.join(a, b)` for a plain component is the root prefix of `a` followed by `b` |
| PathCodec.PathJoinAllShape | datamining.py:103 | `os.path.join` over plain components is the root prefix followed by the components separated by '/' |
| PathCodec.CellFolderShape | datamining.py:103 | the target folder is the root prefix followed by `k/prior/seed/passes/iterations` |
| PathCodec.ModelFileShape | datamining.py:122 | the model file is the target folder, '/', then `lda.model` |
| PathCodec.CellFolderInjective | datamining.py:103 | distinct cells have distinct target folders |
| PathCodec.ModelFileInjective | datamining.py:122 | distinct cells have distinct model files |
| PathCodec.CellFolderDepth | datamining.py:103 | every target folder lies five components below the root |
| PathCodec.ModelFileDepth | datamining.py:122 | every model file lies six components below the root |
| PathCodec.DirPrefixShallower | helper_functions.py:54 | a proper ancestor created by `os.makedirs` is strictly shallower |
| PathCodec.OtherCellsUntouched | datamining.py:103-122 | working on one cell never creates the folder or the model file of another cell |
| PathCodec.ModelFileComponents | datamining.py:122 | splitting a model path on '/' gives the root's components, the five cell components and `lda.model` |
| PathCodec.DecodeModelPath | evaluation.py:80-88 | decoding succeeds exactly when the path has at least six components (otherwise IndexError); `k` and `iterations` are components of the path |
| PathCodec.DecodeComponents | evaluation.py:80-88 | the five fields are components 1 to 5 of `m.split('/')`, in the order k, prior, seed, passes, iterations, whatever follows them |
| PathCodec.DecodeModelFile | evaluation.py:80-88 | under a one-component models root, decoding a saved model's path gives back exactly its cell |
| PathCodec.KeyInjective | evaluation.py:72 | distinct cells (priors without '-') have distinct keys `k-prior-seed-passes-iterations` |
| PathCodec.DecodeNestedRoot | datamining.py:43 | under a two-component root such as the default `files/models`, the decoded `k` is the inner folder's name and every other field is shifted by one |
| PathCodec.DecodeShifted | evaluation.py:80-88 | a path split into two root components, the cell and `lda.model` decodes one component off |
| Datamining.Step | datamining.py:102-125 | one turn of the innermost loop as intended: skip after an uncaught exception or when the folder exists; otherwise create the folder with `create_dir`, request the fit, and save the model, stopping on a fit that raises or a save into a folder that could not be created; `StepSpec` states it |
| Datamining.Run | datamining.py:82-125 | the five nested loops as one pass of `Step` over the grid cells in loop order; the `Run…` lemmas below state what it does |
| Datamining.StepSpec | datamining.py:102-125 | one iteration adds only the cell's folder, its ancestors and its model; it is skipped (no create, fit or save) when the folder exists or the process has stopped; otherwise it requests exactly one fit with `num_topics = k`, `iterations`, `passes`, `alpha = eta = prior` and `random_state = seed`; when it goes on, the folder and the model exist; it stops only at its own cell |
| Datamining.RunFromAborted | datamining.py:110-122 | after an uncaught exception nothing else happens |
| Datamining.RunStopsAt | datamining.py:82-125 | a run that stopped part-way ends in the state where it stopped |
| Datamining.RunGrows | datamining.py:103-122 | nothing is deleted, and nothing outside the cells' folders, their ancestors and their models is written |
| Datamining.RunKeeps | datamining.py:103-122 | every path that existed before the run still exists after it |
| Datamining.RunExtendsFits | datamining.py:110-119 | fits once requested stay in the log; later fits come after them |
| Datamining.StepFitIsCell | datamining.py:105-119 | the only fit an iteration requests is its own cell's, and only when the folder was missing |
| Datamining.RunFitsMissing | datamining.py:82-125 | the fits requested are the cells whose folders were missing, in loop order: all of them when the run completes, a prefix when it stops |
| Datamining.RunCreatesFolders | datamining.py:105-108 | a completed run leaves every cell's folder in place |
| Datamining.RunSavesModels | datamining.py:105-122 | a completed run has saved a model in every cell whose folder was missing at the start |
| Datamining.RunIdle | datamining.py:105 | when every folder exists, the loops create nothing, fit nothing and save nothing |
| Datamining.InterruptedCellStaysEmpty | datamining.py:103-122 | a folder without a model (left by a fit that raised) is skipped by every later run, so it never gets a model |
| Datamining.ExistingCellNotRefit | datamining.py:105 | a cell whose folder exists is never fitted again |
| Datamining.GridSearchFitsMissing | datamining.py:67-125 | a grid search requests one fit per grid cell whose folder was missing, in loop order (a prefix of them when it stops); `GridSearchCreatesFolders` states that a completed search leaves every grid folder |
| Datamining.GridSearchCreatesFolders | datamining.py:82-108 | a completed grid search leaves a folder for every one of the 152 cells |
| Datamining.RerunFitsNothing | datamining.py:82-125 | a second run with the same save folder after a completed one fits nothing and writes nothing |
| Datamining.VisitCell | datamining.py:102-125 | the loop body changes the file system and the fit log exactly as one more step of `Run` |
| Datamining.VisitSeed | datamining.py:94-125 | the pass and iteration loops perform the next four steps of `Run`, or end the run where it stopped |
| Datamining.VisitPrior | datamining.py:90-125 | the seed loop performs the next eight steps of `Run`, or ends the run where it stopped |
| Datamining.VisitTopicCount | datamining.py:86-125 | the prior loop performs the next eight steps of `Run`, or ends the run where it stopped |
| Datamining.ExecuteLda | datamining.py:43-125 | a missing dictionary or corpus ends the process before any fit or write; otherwise the final paths, the fits and the status are those of `Run` over the whole grid from the initial paths |
| Datamining.RunAsWritten | datamining.py:82-110 | the loops as written: a cell whose folder is missing calls the undefined `create_directory`, which raises NameError before any fit; the three rows that follow state the consequences |
| Datamining.AsWrittenNeverFits | datamining.py:105-108 | as written, the loops never fit or write anything, and they complete only when every grid folder already exists |
| Datamining.FirstCellMissing | datamining.py:105-110 | as written, the first cell with a missing folder stops the process with NameError; the intended loop fits it |
| Datamining.AsWrittenFirstRun | datamining.py:82-110 | on a fresh save folder the code as written stops at the first cell with NameError and no fit; the intended code fits that cell first |
| Preprocessing.PdfFiles | preprocessing.py:59 | exactly the listed paths whose last four characters are `.pdf`, and no more of them than were listed |
| Preprocessing.PdfFilesAppend | preprocessing.py:59 | the filter keeps listing order: the PDFs of `a + b` are those of `a` followed by those of `b` |
| Preprocessing.PdfFilesSingle | preprocessing.py:59 | a one-path listing keeps its path exactly when it ends in `.pdf` |
| Preprocessing.Title | preprocessing.py:70 | the title of a file name: dashes replaced by spaces, `[4:-4]`, then stripped of whitespace |
| Preprocessing.DropFour | preprocessing.py:70 | `s[4:-4]` drops four characters at each end, and is empty for eight characters or fewer |
| Preprocessing.Metadata | preprocessing.py:68-70 | the metadata exists exactly when the path has at least five '/'-segments (otherwise IndexError); journal and year are segments 2 and 3, and the title is `Title` of segment 4 |
| Preprocessing.DashesSpec | preprocessing.py:86-93 | no soft hyphen, em dash, en dash or minus sign is left, and nothing but '-' is brought in |
| Preprocessing.LineBreaksSpec | preprocessing.py:94-97 | no line break is left, and nothing but ' ' is brought in |
| Preprocessing.LigaturesSpec | preprocessing.py:99-104 | no fl, fi, ff, ffi or ffl ligature is left, and nothing but 'f', 'l' and 'i' is brought in |
| Preprocessing.NormaliseClean | preprocessing.py:86-104 | normalised text contains no line break, special dash or ligature |
| Preprocessing.NormaliseIdentity | preprocessing.py:86-104 | text without those characters passes normalisation unchanged |
| Preprocessing.NormaliseIdempotent | preprocessing.py:86-104 | normalising twice is normalising once |
| Preprocessing.CutAtLast | preprocessing.py:117-124 | one `if s.rfind(m) > 0: s = s[:s.rfind(m)]` cut; `CutAtLastSpec` states it |
| Preprocessing.CutAtLastSpec | preprocessing.py:117-118 | the cut keeps a prefix; it keeps everything exactly when the marker occurs nowhere after position 0, and otherwise ends right before the marker's last occurrence |
| Preprocessing.Truncate | preprocessing.py:117-124 | the truncated text is a prefix of the input |
| Preprocessing.CleanText | preprocessing.py:86-124 | the stored text contains no line break, special dash or ligature |
| Preprocessing.CleanContent | preprocessing.py:86-124 | the step-by-step reassignments of `content` compute `CleanText` |
| Preprocessing.FileStep | preprocessing.py:65-130 | one turn of the loop over the PDFs: nothing after an IndexError; a path with fewer than five segments raises; a key already in the snapshot or a PDF whose text is not extracted is skipped; otherwise the cleaned record is appended; `FileStepInserts` states it |
| Preprocessing.FullText | preprocessing.py:59-130 | the loop over the PDFs, in order, as repeated `FileStep`; the `FullText…` lemmas below state what it inserts |
| Preprocessing.FullTextStopped | preprocessing.py:65-70 | once a path without enough segments has raised, the files after it change nothing |
| Preprocessing.FullTextGrows | preprocessing.py:127-130 | records are only appended, never changed |
| Preprocessing.FullTextCount | preprocessing.py:65-130 | at most one record per PDF |
| Preprocessing.FullTextAdded | preprocessing.py:75-130 | every record comes from a PDF whose metadata could be read, whose key was not in the snapshot and whose text was extracted (content not None); it holds that metadata and the cleaned text |
| Preprocessing.FullTextClean | preprocessing.py:84-130 | a stored record never contains a line break, special dash or ligature, and has no tokens |
| Preprocessing.FullTextInserts | preprocessing.py:76-130 | in a pass that does not stop, every PDF with readable metadata, an unseen key and extracted text gets its record |
| Preprocessing.FileStepInserts | preprocessing.py:80-130 | such a PDF appends exactly its record |
| Preprocessing.FullTextCovered | preprocessing.py:62-78 | when every insertable PDF's key is in the snapshot, the pass inserts nothing |
| Preprocessing.FullTextRerun | preprocessing.py:62-78 | after a pass that does not stop, a second pass over the same PDFs inserts nothing |
| Preprocessing.VisitFile | preprocessing.py:65-130 | the loop body appends to `publications_raw` exactly what one more step of `FullText` appends, and touches no other collection |
| Preprocessing.FullTextPreprocessing | preprocessing.py:43-130 | `publications_raw` becomes its old records followed by those of `FullText` over the PDFs, with the keys of the old records as the snapshot; the other collections are unchanged |
| Preprocessing.FmtInjective | preprocessing.py:166 | distinct bigrams whose first word has no space format to distinct texts `"w1 w2"` |
| Preprocessing.Repeat | preprocessing.py:166 | `[x] * n` holds `x` exactly `n` times and nothing else |
| Preprocessing.ExpandSort | preprocessing.py:166-167 | which texts the expansion holds, and how often, does not depend on the order of the counted entries |
| Preprocessing.ExpandTally | preprocessing.py:166-167 | the expansion of a tally holds each bigram's text as often as the bigram occurs when that count reaches the threshold, and not at all otherwise |
| Preprocessing.BigramTokens | preprocessing.py:165-167 | the bigram tokens: the bigrams of the space-joined unigrams, counted, each repeated its count times when that reaches the threshold; `BigramCount` states it |
| Preprocessing.PairsWords | preprocessing.py:165 | both words of a bigram are unigrams of the document |
| Preprocessing.BigramCount | preprocessing.py:165-167 | a bigram occurring n times appears exactly n times as `"w1 w2"` among the tokens when n >= `min_bigram_count`, and not at all otherwise |
| Preprocessing.Tokens | preprocessing.py:169 | `unigrams + bigrams + entities` of one document's analysis |
| Preprocessing.Tokenise | preprocessing.py:147-176 | afterwards every document has tokens; a document that already had them is unchanged; journal, title, year and content are never changed |
| Preprocessing.TokeniseIdempotent | preprocessing.py:150 | a second run changes nothing |
| Preprocessing.GeneralPreprocessing | preprocessing.py:132-176 | `publications_raw` becomes `Tokenise` of its old records (`unigrams + bigrams + entities` for documents without tokens); the other collections are unchanged |
| Evaluation.ModelPaths | evaluation.py:69 | exactly the listed paths ending in `lda.model`, and no more of them than were listed |
| Evaluation.ModelPathsAppend | evaluation.py:69 | the filter keeps listing order: the models of `a + b` are those of `a` followed by those of `b` |
| Evaluation.ModelPathsSingle | evaluation.py:69 | a one-path listing keeps its path exactly when it ends in `lda.model` |
| Evaluation.ModelStep | evaluation.py:75-113 | one turn of the loop over the models: nothing after an IndexError; a path with fewer than six components raises; a key already scored is skipped; otherwise the decoded fields and the model's score are appended; `ModelStepInserts` states it |
| Evaluation.Coherence | evaluation.py:69-113 | the loop over the models, in order, as repeated `ModelStep`; the `Coherence…` lemmas below state what it inserts |
| Evaluation.CoherenceStopped | evaluation.py:80-88 | once a path with too few components has raised, the models after it change nothing |
| Evaluation.CoherenceGrows | evaluation.py:108-109 | records are only appended; existing records are never updated |
| Evaluation.CoherenceCount | evaluation.py:75-113 | at most one record per model |
| Evaluation.CoherenceAdded | evaluation.py:93-109 | every record belongs to a model path that decodes and whose key was not in the snapshot; it holds the five decoded strings and that model's score |
| Evaluation.ModelStepInserts | evaluation.py:93-109 | a model whose key is unscored is loaded and scored, and appends exactly its record |
| Evaluation.CoherenceLoads | evaluation.py:93-109 | the scan loads and scores exactly the models it records: one load per record, in order, each a listed model whose key was unscored, and each record holds that model's fields and score |
| Evaluation.CoherenceInserts | evaluation.py:93-109 | in a scan that does not stop, every model whose key is unscored gets its record |
| Evaluation.CoherenceCovered | evaluation.py:72-113 | when every decodable model's key is in the snapshot, no model is loaded or scored and nothing is inserted |
| Evaluation.CoherenceRerun | evaluation.py:72-113 | after a scan that does not stop, a second scan of the same models loads nothing and inserts nothing |
| Evaluation.VisitModel | evaluation.py:75-113 | the loop body appends to `coherence` exactly what one more step of `Coherence` appends, and touches no other collection |
| Evaluation.CalculateCoherence | evaluation.py:54-113 | a missing dictionary or corpus ends the process with no record; a raw document without tokens raises KeyError before any record; otherwise `coherence` gains exactly the records of `Coherence` over the model paths, with the already-scored keys as the snapshot |
| Evaluation.ToRow | evaluation.py:131 | a row exists exactly when `int(k)` parses; it holds that integer and the record's score |
| Evaluation.Rows | evaluation.py:131 | the list comprehension over the records: the row of each record, in order, or none when some `int(k)` raises |
| Evaluation.InsertRow | evaluation.py:143 | insertion adds exactly one row to the multiset of rows |
| Evaluation.SortRows | evaluation.py:143 | `sorted(data)` is a permutation of `data` |
| Evaluation.SortRowsSorted | evaluation.py:143 | `sorted(data)` is in ascending order, comparing rows field by field as Python lists compare |
| Evaluation.SortRowsMembers | evaluation.py:143 | sorting keeps exactly the rows it was given |
| Evaluation.ScoresFor | evaluation.py:143-145 | the inner loop for one k: the rows with that k, in order, each setting its column and a later one overwriting an earlier; `ScoresForKeys` and `ScoresForLast` state it |
| Evaluation.ScoresForKeys | evaluation.py:143-145 | row k has a column exactly for the rows with that k |
| Evaluation.ScoresForLast | evaluation.py:143-145 | a cell holds the score of the last row, in sorted order, with that k and that column |
| Evaluation.Pivot | evaluation.py:137-148 | one row for every k from `min_k` to `max_k`, in order, whether or not it has records |
| Evaluation.PivotCells | evaluation.py:131-145 | the row for k has a column exactly when some record has that k and configuration; records with a k outside the range appear nowhere |
| Evaluation.ScoreRow | evaluation.py:143-145 | the inner loop computes the row of `Pivot` for its k |
| Evaluation.PlotCoherence | evaluation.py:115-148 | the table is the pivot of the sorted rows, or nothing when a stored k is not an integer |
| Evaluation.ModelLocation | evaluation.py:184 | the formatted location `folder/K/prior/seed/passes/iterations/lda.model`; `ModelLocationIsModelFile` states where it points |
| Evaluation.ModelLocationIsModelFile | evaluation.py:184 | the formatted model location is where `execute_lda` saved that cell's model, for a folder without a trailing '/' |
| Evaluation.ParseTerm | evaluation.py:209-217 | one term: stripped, split on '*', the probability text before it and the word after it with its quotes stripped, or none when there is no '*'; `ParseTermDefined` and `ParseRendered` state it |
| Evaluation.ParseTermDefined | evaluation.py:209-217 | a term parses exactly when its stripped text contains '*' (otherwise IndexError) |
| Evaluation.ParseRendered | evaluation.py:203-217 | parsing a term printed as `prob*"word"` gives back the word and the probability text |
| Evaluation.ParseTerms | evaluation.py:206-217 | the parsed terms, when there are any, are as many as the printed terms |
| Evaluation.ParseTermsEach | evaluation.py:206-217 | the topic parses exactly when every printed term does, and then term i is the parse of printed term i |
| Wrappers.MapAll | evaluation.py:206-217 | a comprehension that may raise: the results of `f` on every element, as many as the elements, or none |
| Wrappers.MapAllEach | evaluation.py:206-217 | `MapAll` succeeds exactly when `f` succeeds on every element, and then holds `f` of each element in order |
| Evaluation.ParseTermsStopped | evaluation.py:212-217 | a term without '*' fails the whole topic |
| Evaluation.ListStringStripped | evaluation.py:222-227 | the list entry is the words separated by ", ", when the last word does not end in ',' or ' ' |
| Evaluation.TopicBlock | evaluation.py:192-227 | the rows and the list entry topic k adds, or none on the KeyError of a missing label or the IndexError of a term without '*'; `TopicBlockShape` states it |
| Evaluation.TopicBlockShape | evaluation.py:190-227 | a topic fails exactly when it has no label or a term has no '*'; otherwise it adds a header `(k+1) LABEL`, a `["word", "prob."]` row, one row per term and a blank row |
| Evaluation.TopicTables | evaluation.py:190-227 | the two tables after the loop over topics 0 to K-1, or none when some topic raises; the `TopicTables…` and `TopicList…` lemmas state it |
| Evaluation.TopicEntryNumbered | evaluation.py:227 | the list entry of topic k has two columns, the first being `str(k+1)` |
| Evaluation.TopicListNumbered | evaluation.py:190-227 | `topic_list` has K entries numbered "1" to "K" |
| Evaluation.TopicTablesAtMostTen | evaluation.py:190-193 | with K > 10 the tables always fail (there are labels for ten topics only) |
| Evaluation.TopicTablesFailed | evaluation.py:190-227 | a topic that fails fails the tables for every larger K |
| Evaluation.TermRows | evaluation.py:206-222 | the term loop computes the parsed terms, their table rows (`WORD`, probability with "0." shortened to ".") and `list_string` |
| Evaluation.OutputTopic | evaluation.py:192-227 | the body for topic k computes that topic's rows and list entry |
| Evaluation.OutputLdaTopics | evaluation.py:169-227 | a missing model ends the process; otherwise the result is the topic table and the topic list for K topics, or the exception a topic raises |
| Interpretation.TopicDict | interpretation.py:99-101 | the keys are exactly `str(id)` of the returned pairs |
| Interpretation.TopicDictValues | interpretation.py:99-101 | with distinct ids, each id's probability is stored under its own key |
| Interpretation.BuildTopicDict | interpretation.py:99-101 | the loop builds `TopicDict` |
| Interpretation.Inferred | interpretation.py:86-107 | the records the inference loop inserts, one per document with tokens, in order, never more than the documents; `InferredFrom` and `InferredCount` state it |
| Interpretation.InferredFrom | interpretation.py:86-107 | every inserted record copies journal, year and title from a document with tokens, and holds the topic dict of that document's tokens |
| Interpretation.InferredCount | interpretation.py:86-107 | there is one record per document with tokens, and none for documents without |
| Interpretation.InferDocumentTopicDistribution | interpretation.py:55-107 | a missing dictionary, corpus or model ends the process with no insert; otherwise `publications` gains the inferred records in document order; the other collections are unchanged |
| Interpretation.DominantTopic | interpretation.py:136 | `max` over the topic dict: none exactly for an empty dict; otherwise a key whose proportion no other topic exceeds |
| Interpretation.GetDocumentTitlePerTopic | interpretation.py:110-141 | one row per publication with its year, title, journal and a dominant topic; fails exactly when some publication has no topics |
| Interpretation.SortBy | interpretation.py:251 | `sorted(..., key=int)`: every element once, in ascending id order |
| Interpretation.SortedTopics | interpretation.py:251 | the topic vector exists exactly when every key is an integer, and lists the proportions by ascending topic id |
| Interpretation.MaxOf | interpretation.py:254 | `max(topics)` is an element and bounds every element |
| Interpretation.IndexOf | interpretation.py:254 | `index(x)` is the first position holding `x` |
| Interpretation.DominantIndex | interpretation.py:254 | the dominant id is the smallest index attaining the maximum; none for an empty vector |
| Interpretation.GroupBy | interpretation.py:257-260 | the dict of lists built by appending each value to the list of its key, creating the list at the key's first occurrence; the three `GroupBy…` lemmas state it |
| Interpretation.GroupByKeys | interpretation.py:257-260 | the groups' keys are exactly the keys that occur |
| Interpretation.GroupByPick | interpretation.py:257-260 | each group holds the values of its key, in document order |
| Interpretation.GroupByTotal | interpretation.py:257-260 | each document lands in exactly one group: the groups hold as many lists as there are documents |
| Interpretation.CoOccurrenceGroups | interpretation.py:248-260 | each publication's topic vector goes to the group of its dominant id; fails exactly when some publication has a non-integer key or no topics |
| Interpretation.AddDominant | interpretation.py:250-260 | one turn of the grouping loop appends the vector to the group of its dominant id, or fails for that publication |
| Interpretation.GetYearToTopics | interpretation.py:336-359 | each topic vector goes to the list of `int(year)`; fails exactly when some year or topic key is not an integer |
| Interpretation.AddYear | interpretation.py:347-357 | one turn of the loop appends the vector to the list of its year, or fails for that publication |
| Interpretation.GetYearToCumTopics | interpretation.py:362-382 | the result has the same keys as the input, each list replaced by its column mean |

## Left out

- gensim is not modelled: LDA fitting, model saving and loading, coherence scoring, `print_topic`, `doc2bow` and `get_document_topics`. Fitting is a logged `FitCall`; the other calls are function parameters (`score`, `printTopic`, `topicsOf`). The models `calculate_coherence` loads and scores are logged in the `loaded` sequence of its scan, so that which models are scored can be stated. Whether a fit or a `makedirs` raises is a parameter (`Env`).
- spaCy and NLTK parsing are not modelled: a token is a record (alphabetic, stop word, length, lemma), and `nlp` is a parameter.
- PDF text extraction (`pdf_to_plain`) is a parameter returning an optional text.
- The listings that `PdfFiles` and `ModelPaths` filter are input sequences, not derived from `FileSystem.ReadDirectory`: the glob's set of paths is modelled, its order is not, and the filters keep the order they are given.
- Strings.ParseInt: Unicode decimal digits and Unicode whitespace, which Python 2 `int` accepts on `unicode` input, are rejected; only ASCII digits and ASCII whitespace are read.
- FileSystem.CreateDirResult: a `makedirs` that fails part-way is modelled as creating nothing; the ancestors it may already have created before raising are not modelled.
- Web download (the body of `save_pdf`, `return_html`) and `extraction.py` are network I/O; a failed download is a parameter.
- `database.py` is a thin MongoDB shim and is not part of this model; the collections are sequences in `Store.Database`.
- `transformation.py` (dictionary and corpus building) is gensim I/O and is not part of this model.
- Plotting, pandas layout, CSV writing, logging, `set_logger` and the phase switches of `start.py` are left out.
- Floating point is left out: `np.mean` (and the co-occurrence means scaled by 100, interpretation.py:264-267) is the `mean` parameter of `GetYearToCumTopics`, which also stands for that loop.
- Python 2 dict iteration order is not modelled. Where it matters, the model leaves it open. `Interpretation.DominantTopic` returns some maximal key when several tie. `Interpretation.SortedTopics` leaves open the order of distinct keys with the same integer value (such as "1" and "01").
- Counter.MostCommon breaks ties in count by first occurrence; Python 2 breaks them by its dict order.
- Strings.Replace requires a non-empty pattern: Python's insertion of `rep` between characters for an empty pattern is not modelled, and every pattern the code passes is non-empty.
- Lower and upper case are mapped for ASCII letters only; Unicode case mapping is not modelled.
- Preprocessing.BigramTokens: the per-bigram counts are proved, and `Counter.MostCommonSorted` proves the descending count order of the entries, but the order of the expanded token runs is not stated on the tokens themselves.
- PathCodec.DecodeModelPath: decoding inverts the folder layout only under a one-component models root (the `models` of start.py:108). `PathCodec.DecodeNestedRoot` shows the shifted fields under the two-component default `files/models` of datamining.py:43.
- Helpers.NamedEntityRecognition follows the code's `> 2` words; the doc comment at helper_functions.py:173 says "at least two".
- Datamining.ExecuteLda models the intended `create_dir` call; the code as written is modelled separately (see Findings).
- FileSystem.FileSystem.SavePdf: the downloaded bytes are not modelled, only whether the file exists.
- Evaluation.CalculateCoherence: the coherence score of a model is a parameter and is not tied to the texts or the dictionary.

## Findings

| source | as written | input that shows it | evidently intended | confidence | as-written member | corrected member |
|---|---|---|---|---|---|---|
| datamining.py:108 | calls `create_directory(target_folder)`, a name defined nowhere (the helper is `create_dir`, helper_functions.py:46), so the first cell with a missing folder raises NameError before any fit | a save folder with no model folders yet: the run stops at k = 2, prior `auto`, seed 42, 5 passes, 200 iterations, with no fit | create the folder with `create_dir`, fit, and save, for every cell whose folder is missing | not executed | Datamining.AsWrittenFirstRun | Datamining.GridSearchFitsMissing |
