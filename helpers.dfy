/**
 * The text helpers of helper_functions.py: the token filter, word bigrams,
 * the entity filter and the topic labels. spaCy's analysis of a text is an
 * input: a sequence of tokens with their attributes, and the text of each
 * entity.
 */
module Helpers {
  import opened Wrappers
  import opened Strings

  /** A spaCy token as word_tokenizer reads it: its text, its lemma (`lemma_`) and two flags. */
  datatype Token = Token(text: string, lemmaForm: string, isAlpha: bool, isStop: bool)

  /** The filter of word_tokenizer: alphabetic, not a stop word, longer than one character. */
  predicate Kept(t: Token)
  {
    t.isAlpha && !t.isStop && |t.text| > 1
  }

  /**
   * helper_functions.word_tokenizer: the lemmas of the kept tokens in
   * document order; nothing is lost exactly when every token is kept.
   */
  function WordTokenizer(doc: seq<Token>): (r: seq<string>)
    ensures |r| <= |doc|
    ensures |r| == |doc| <==> forall j :: 0 <= j < |doc| ==> Kept(doc[j])
  {
    if doc == [] then []
    else
      var rest := WordTokenizer(doc[1..]);
      assert forall j :: 1 <= j < |doc| ==> doc[j] == doc[1..][j - 1];
      (if Kept(doc[0]) then [doc[0].lemmaForm] else []) + rest
  }

  /** The tokenizer works token by token: splitting the document splits the output. */
  lemma {:induction false} WordTokenizerAppend(a: seq<Token>, b: seq<Token>)
    ensures WordTokenizer(a + b) == WordTokenizer(a) + WordTokenizer(b)
    decreases |a|
  {
    if a != [] {
      assert (a + b)[0] == a[0] && (a + b)[1..] == a[1..] + b;
      WordTokenizerAppend(a[1..], b);
      var h := if Kept(a[0]) then [a[0].lemmaForm] else [];
      calc {
        WordTokenizer(a + b);
        h + WordTokenizer(a[1..] + b);
        h + (WordTokenizer(a[1..]) + WordTokenizer(b));
        { ConcatAssoc(h, WordTokenizer(a[1..]), WordTokenizer(b)); }
        WordTokenizer(a) + WordTokenizer(b);
      }
    } else {
      assert a + b == b;
    }
  }

  /** A word is in the output exactly when it is the lemma of a kept token. */
  lemma {:induction false} WordTokenizerWords(doc: seq<Token>, w: string)
    ensures w in WordTokenizer(doc) <==> exists j :: 0 <= j < |doc| && Kept(doc[j]) && doc[j].lemmaForm == w
    decreases |doc|
  {
    if doc != [] {
      WordTokenizerWords(doc[1..], w);
      if exists j :: 1 <= j < |doc| && Kept(doc[j]) && doc[j].lemmaForm == w {
        var j :| 1 <= j < |doc| && Kept(doc[j]) && doc[j].lemmaForm == w;
        assert doc[1..][j - 1] == doc[j];
      }
      if exists j :: 0 <= j < |doc| - 1 && Kept(doc[1..][j]) && doc[1..][j].lemmaForm == w {
        var j :| 0 <= j < |doc| - 1 && Kept(doc[1..][j]) && doc[1..][j].lemmaForm == w;
        assert doc[j + 1] == doc[1..][j];
      }
    }
  }

  // ---------------------------------------------------------------------------
  // get_bigrams
  // ---------------------------------------------------------------------------

  /** `nltk.bigrams`: each word paired with the one after it. */
  function Pairs(ws: seq<string>): (r: seq<(string, string)>)
    ensures |r| == if ws == [] then 0 else |ws| - 1
  {
    if |ws| < 2 then [] else [(ws[0], ws[1])] + Pairs(ws[1..])
  }

  /** The i-th pair is the i-th word and its successor. */
  lemma {:induction false} PairsAt(ws: seq<string>, i: nat)
    requires i + 1 < |ws|
    ensures Pairs(ws)[i] == (ws[i], ws[i + 1])
    decreases i
  {
    if i > 0 {
      PairsAt(ws[1..], i - 1);
    }
  }

  /** The words a chain of bigrams was made from: the first word, then every second component. */
  function Unpair(r: seq<(string, string)>): (ws: seq<string>)
    requires r != []
    ensures |ws| == |r| + 1
  {
    [r[0].0] + seq(|r|, i requires 0 <= i < |r| => r[i].1)
  }

  /** With two words or more, the bigrams determine the words. */
  lemma PairsRoundTrip(ws: seq<string>)
    requires |ws| >= 2
    ensures Unpair(Pairs(ws)) == ws
  {
    var r := Pairs(ws);
    var u := Unpair(r);
    forall i | 0 <= i < |ws|
      ensures u[i] == ws[i]
    {
      if i == 0 {
        PairsAt(ws, 0);
      } else {
        PairsAt(ws, i - 1);
      }
    }
  }

  /** helper_functions.get_bigrams: the bigrams of the whitespace-separated words of `text`. */
  function GetBigrams(text: string): (r: seq<(string, string)>)
    ensures |r| == if Words(text) == [] then 0 else |Words(text)| - 1
  {
    Pairs(Words(text))
  }

  /** The bigrams of a list of words joined by spaces are the bigrams of that list. */
  lemma BigramsOfJoin(ws: seq<string>)
    requires IsWordList(ws)
    ensures GetBigrams(Join(ws, ' ')) == Pairs(ws)
  {
    WordsOfJoin(ws);
  }

  // ---------------------------------------------------------------------------
  // named_entity_recognition
  // ---------------------------------------------------------------------------

  predicate IsAscii(s: string)
  {
    forall i :: 0 <= i < |s| ==> s[i] < 128 as char
  }

  predicate NoDigit(s: string)
  {
    forall i :: 0 <= i < |s| ==> !IsDigit(s[i])
  }

  predicate NoUpper(s: string)
  {
    forall i :: 0 <= i < |s| ==> !IsUpper(s[i])
  }

  /** The first comprehension: the lower-cased text of each entity of more than two words. */
  function LongEntities(ents: seq<string>): (r: seq<string>)
    ensures |r| <= |ents|
  {
    if ents == [] then [] else LongOne(ents[0]) + LongEntities(ents[1..])
  }

  /** What the first comprehension keeps of one entity. */
  function LongOne(e: string): (r: seq<string>)
    ensures |r| <= 1
  {
    if |Words(e)| > 2 then [Lower(e)] else []
  }

  /** The second comprehension: entities without digits and within ASCII, stripped of surrounding whitespace. */
  function CleanEntities(xs: seq<string>): (r: seq<string>)
    ensures |r| <= |xs|
  {
    if xs == [] then [] else CleanOne(xs[0]) + CleanEntities(xs[1..])
  }

  /** What the second comprehension keeps of one entity. */
  function CleanOne(x: string): (r: seq<string>)
    ensures |r| <= 1
  {
    if NoDigit(x) && IsAscii(x) then [Trim(x)] else []
  }

  /** helper_functions.named_entity_recognition: at most one text per entity. */
  function NamedEntityRecognition(ents: seq<string>): (r: seq<string>)
    ensures |r| <= |ents|
  {
    CleanEntities(LongEntities(ents))
  }

  /**
   * Every kept entity is lower-case, digit-free ASCII text with no surrounding
   * whitespace: the stripped, lower-cased text of an entity of more than two
   * words.
   */
  lemma EntitiesClean(ents: seq<string>, x: string)
    requires x in NamedEntityRecognition(ents)
    ensures NoDigit(x) && IsAscii(x) && NoUpper(x)
    ensures x == [] || (!IsSpace(x[0]) && !IsSpace(x[|x| - 1]))
    ensures exists j :: 0 <= j < |ents| && |Words(ents[j])| > 2 && x == Trim(Lower(ents[j]))
  {
    var y := CleanSource(LongEntities(ents), x);
    var j := LongSource(ents, y);
    assert NoUpper(y);
    TrimKeeps(y);
  }

  /** Stripping keeps what holds of every character. */
  lemma TrimKeeps(y: string)
    ensures NoDigit(y) ==> NoDigit(Trim(y))
    ensures IsAscii(y) ==> IsAscii(Trim(y))
    ensures NoUpper(y) ==> NoUpper(Trim(y))
  {
    var a, b :| 0 <= a <= b <= |y| && Trim(y) == y[a..b];
    SliceKeeps(y, a, b);
  }

  /** A slice keeps what holds of every character. */
  lemma SliceKeeps(y: string, a: nat, b: nat)
    requires a <= b <= |y|
    ensures NoDigit(y) ==> NoDigit(y[a..b])
    ensures IsAscii(y) ==> IsAscii(y[a..b])
    ensures NoUpper(y) ==> NoUpper(y[a..b])
  {
    assert forall i :: 0 <= i < b - a ==> y[a..b][i] == y[a + i];
  }

  lemma {:induction false} CleanSource(xs: seq<string>, x: string) returns (y: string)
    requires x in CleanEntities(xs)
    ensures y in xs && NoDigit(y) && IsAscii(y) && x == Trim(y)
    decreases |xs|
  {
    if NoDigit(xs[0]) && IsAscii(xs[0]) && x == Trim(xs[0]) {
      y := xs[0];
    } else {
      assert x !in CleanOne(xs[0]);
      y := CleanSource(xs[1..], x);
    }
  }

  lemma {:induction false} LongSource(ents: seq<string>, y: string) returns (j: nat)
    requires y in LongEntities(ents)
    ensures j < |ents| && |Words(ents[j])| > 2 && y == Lower(ents[j])
    decreases |ents|
  {
    if |Words(ents[0])| > 2 && y == Lower(ents[0]) {
      j := 0;
    } else {
      assert y !in LongOne(ents[0]);
      var j' := LongSource(ents[1..], y);
      j := j' + 1;
      assert ents[1..][j'] == ents[j];
    }
  }

  /** An entity of more than two words whose lower-cased text has no digit and is ASCII is kept. */
  lemma {:induction false} EntityKept(ents: seq<string>, j: nat)
    requires j < |ents| && |Words(ents[j])| > 2
    requires NoDigit(Lower(ents[j])) && IsAscii(Lower(ents[j]))
    ensures Trim(Lower(ents[j])) in NamedEntityRecognition(ents)
    decreases j
  {
    if j > 0 {
      EntityKept(ents[1..], j - 1);
      CleanAppend(LongOne(ents[0]), LongEntities(ents[1..]));
    }
  }

  /** The second filter works entity by entity. */
  lemma {:induction false} CleanAppend(a: seq<string>, b: seq<string>)
    ensures CleanEntities(a + b) == CleanEntities(a) + CleanEntities(b)
    decreases |a|
  {
    if a != [] {
      assert (a + b)[0] == a[0] && (a + b)[1..] == a[1..] + b;
      CleanAppend(a[1..], b);
      var h := CleanOne(a[0]);
      calc {
        CleanEntities(a + b);
        h + CleanEntities(a[1..] + b);
        h + (CleanEntities(a[1..]) + CleanEntities(b));
        { ConcatAssoc(h, CleanEntities(a[1..]), CleanEntities(b)); }
        CleanEntities(a) + CleanEntities(b);
      }
    } else {
      assert a + b == b;
    }
  }

  // ---------------------------------------------------------------------------
  // get_topic_label
  // ---------------------------------------------------------------------------

  /** The labels of helper_functions.get_topic_label, by topic id. */
  const TopicLabels: seq<string> := [
    "Convergence", "State, Policy, Action", "Linear Algebra", "NLP", "Inference",
    "Computer Vision", "Graphical Models", "Neural Network Learning", "Stimulus Response",
    "Neural Network Structure"]

  /** helper_functions.get_topic_label: a label for the ids 0 to 9; any other id is a KeyError. */
  function GetTopicLabel(k: int): (r: Option<string>)
    ensures r.Some? <==> 0 <= k < 10
    ensures r.Some? ==> r.value != []
  {
    if 0 <= k < |TopicLabels| then Some(TopicLabels[k]) else None
  }

  /** Distinct topics get distinct labels. */
  lemma TopicLabelsDistinct(a: int, b: int)
    requires GetTopicLabel(a).Some? && GetTopicLabel(b).Some? && a != b
    ensures GetTopicLabel(a) != GetTopicLabel(b)
  {
  }
}
