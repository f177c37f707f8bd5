/**
 * The bookkeeping of interpretation.py: the topic dict stored for each
 * publication, the dominant topic of a publication, the topic vector sorted by
 * topic id, and the grouping of those vectors by year and by dominant topic.
 * gensim's inference is a parameter (`topicsOf`: the `(id, probability)`
 * pairs of `get_document_topics` for a document's tokens); means and plots are
 * not modelled.
 */
module Interpretation {
  import opened Wrappers
  import opened Strings
  import opened FileSystem
  import opened PathCodec
  import opened Store
  import Evaluation

  // ---------------------------------------------------------------------------
  // infer_document_topic_distribution
  // ---------------------------------------------------------------------------

  /** The dict built from the `(id, probability)` pairs: key `str(id)`, a later pair overwriting an earlier one. */
  function TopicDict(topics: seq<(nat, real)>): (dic: map<string, real>)
    ensures forall key :: key in dic <==> exists i :: 0 <= i < |topics| && NatToString(topics[i].0) == key
  {
    if topics == [] then map[]
    else
      var rest := TopicDict(topics[..|topics| - 1]);
      var t := topics[|topics| - 1];
      assert forall i :: 0 <= i < |topics| - 1 ==> topics[..|topics| - 1][i] == topics[i];
      rest[NatToString(t.0) := t.1]
  }

  /** With distinct ids, as gensim returns them, each id's probability is stored under its own key. */
  lemma {:induction false} TopicDictValues(topics: seq<(nat, real)>, i: nat)
    requires i < |topics|
    requires forall a, b :: 0 <= a < b < |topics| ==> topics[a].0 != topics[b].0
    ensures NatToString(topics[i].0) in TopicDict(topics)
    ensures TopicDict(topics)[NatToString(topics[i].0)] == topics[i].1
    decreases |topics|
  {
    var n := |topics| - 1;
    var init := topics[..n];
    var key := NatToString(topics[i].0);
    TopicDictLast(topics);
    if i < n {
      assert forall a :: 0 <= a < n ==> init[a] == topics[a];
      TopicDictValues(init, i);
      assert key != NatToString(topics[n].0) by {
        assert DigitsValue(key) != DigitsValue(NatToString(topics[n].0));
      }
      UpdateOther(TopicDict(init), NatToString(topics[n].0), topics[n].1, key);
    }
  }

  lemma TopicDictLast(topics: seq<(nat, real)>)
    requires topics != []
    ensures TopicDict(topics) ==
      TopicDict(topics[..|topics| - 1])[NatToString(topics[|topics| - 1].0) := topics[|topics| - 1].1]
  {
  }

  lemma UpdateOther<K, V>(m: map<K, V>, k: K, v: V, other: K)
    requires other in m && other != k
    ensures other in m[k := v] && m[k := v][other] == m[other]
  {
  }

  /** The loop that fills `dic_topics`. */
  method BuildTopicDict(topics: seq<(nat, real)>) returns (dic: map<string, real>)
    ensures dic == TopicDict(topics)
  {
    dic := map[];
    for i := 0 to |topics|
      invariant dic == TopicDict(topics[..i])
    {
      assert topics[..i + 1][..i] == topics[..i];
      dic := dic[NatToString(topics[i].0) := topics[i].1];
    }
    assert topics[..|topics|] == topics;
  }

  /** The `publications` record of a document with tokens: its metadata and its topic dict. */
  function Infer(d: RawDoc, topicsOf: seq<string> -> seq<(nat, real)>): Publication
    requires d.tokens.Some?
  {
    Publication(d.journal, d.year, d.title, TopicDict(topicsOf(d.tokens.value)))
  }

  /** The records the inference loop inserts: one per document with tokens, in order. */
  function Inferred(docs: seq<RawDoc>, topicsOf: seq<string> -> seq<(nat, real)>): (r: seq<Publication>)
    ensures |r| <= |docs|
  {
    if docs == [] then []
    else
      var d := docs[|docs| - 1];
      Inferred(docs[..|docs| - 1], topicsOf) + (if d.tokens.Some? then [Infer(d, topicsOf)] else [])
  }

  /** Every inserted record copies journal, year and title from a document that has tokens, and holds that document's topics. */
  lemma {:induction false} InferredFrom(docs: seq<RawDoc>, topicsOf: seq<string> -> seq<(nat, real)>, j: nat) returns (i: nat)
    requires j < |Inferred(docs, topicsOf)|
    ensures i < |docs| && docs[i].tokens.Some?
    ensures var p := Inferred(docs, topicsOf)[j];
      p.journal == docs[i].journal && p.year == docs[i].year && p.title == docs[i].title &&
      p.topics == TopicDict(topicsOf(docs[i].tokens.value))
    decreases |docs|
  {
    var n := |docs| - 1;
    var init := Inferred(docs[..n], topicsOf);
    if j < |init| {
      i := InferredFrom(docs[..n], topicsOf, j);
      assert docs[..n][i] == docs[i];
    } else {
      i := n;
    }
  }

  /** Every document with tokens gets its record, and documents without tokens get none. */
  lemma {:induction false} InferredCount(docs: seq<RawDoc>, topicsOf: seq<string> -> seq<(nat, real)>)
    ensures |Inferred(docs, topicsOf)| == |set i | 0 <= i < |docs| && docs[i].tokens.Some?|
    decreases |docs|
  {
    if docs != [] {
      var n := |docs| - 1;
      InferredCount(docs[..n], topicsOf);
      TokenisedSnoc(docs);
    }
  }

  /** The documents with tokens among one more document. */
  lemma TokenisedSnoc(docs: seq<RawDoc>)
    requires docs != []
    ensures var n := |docs| - 1;
      (set i | 0 <= i < |docs| && docs[i].tokens.Some?) ==
        (set i | 0 <= i < n && docs[..n][i].tokens.Some?) + (if docs[n].tokens.Some? then {n} else {})
  {
    var n := |docs| - 1;
    assert forall i :: 0 <= i < n ==> docs[..n][i] == docs[i];
  }

  /**
   * interpretation.infer_document_topic_distribution: after the corpus files
   * and the model are found, one `publications` record for every document of
   * `publications_raw` that has tokens. Returns which file was missing when the
   * process exits instead.
   */
  method InferDocumentTopicDistribution(db: Database, paths: set<Path>, fileFolder: Path, modelsFolder: Path, c: Params,
                                        topicsOf: seq<string> -> seq<(nat, real)>)
    returns (missing: Option<Missing>)
    modifies db
    ensures GetDicCorpus(paths, fileFolder).Failure? ==>
      missing == Some(GetDicCorpus(paths, fileFolder).error) && db.publications == old(db.publications)
    ensures GetDicCorpus(paths, fileFolder).Success? && LoadLdaModel(paths, Evaluation.ModelLocation(modelsFolder, c)).Failure? ==>
      missing == Some(ModelMissing) && db.publications == old(db.publications)
    ensures GetDicCorpus(paths, fileFolder).Success? && LoadLdaModel(paths, Evaluation.ModelLocation(modelsFolder, c)).Success? ==>
      missing == None && db.publications == old(db.publications) + Inferred(old(db.publicationsRaw), topicsOf)
    ensures db.publicationsRaw == old(db.publicationsRaw) && db.coherence == old(db.coherence)
  {
    var corpora := GetDicCorpus(paths, fileFolder);
    if corpora.Failure? {
      return Some(corpora.error);
    }
    var model := LoadLdaModel(paths, Evaluation.ModelLocation(modelsFolder, c));
    if model.Failure? {
      return Some(ModelMissing);
    }
    var docs := db.publicationsRaw;
    for i := 0 to |docs|
      invariant db.publications == old(db.publications) + Inferred(docs[..i], topicsOf)
      invariant db.publicationsRaw == old(db.publicationsRaw) && db.coherence == old(db.coherence)
    {
      assert docs[..i + 1][..i] == docs[..i];
      var d := docs[i];
      if d.tokens.Some? {
        var topics := BuildTopicDict(topicsOf(d.tokens.value));
        db.publications := db.publications + [Publication(d.journal, d.year, d.title, topics)];
      }
    }
    assert docs[..|docs|] == docs;
    missing := None;
  }

  // ---------------------------------------------------------------------------
  // get_document_title_per_topic
  // ---------------------------------------------------------------------------

  /** `key` is a topic of `m` whose proportion `p` no other topic exceeds. */
  predicate IsDominant(m: map<string, real>, key: string, p: real)
  {
    key in m && m[key] == p && forall k :: k in m ==> m[k] <= p
  }

  /**
   * `max(d['topics'].iteritems(), key = itemgetter(1))`: the dict is visited in
   * an order the model leaves open, and a later item replaces the best so far
   * only when its proportion is larger. An empty dict raises.
   */
  method DominantTopic(m: map<string, real>) returns (r: Option<(string, real)>)
    ensures r.None? <==> |m| == 0
    ensures r.Some? ==> IsDominant(m, r.value.0, r.value.1)
  {
    var remaining := m.Keys;
    r := None;
    while remaining != {}
      invariant remaining <= m.Keys
      invariant r.None? <==> remaining == m.Keys
      invariant r.Some? ==> r.value.0 in m && m[r.value.0] == r.value.1
      invariant r.Some? ==> forall k :: k in m && k !in remaining ==> m[k] <= r.value.1
      decreases |remaining|
    {
      var key :| key in remaining;
      if r.None? || m[key] > r.value.1 {
        r := Some((key, m[key]));
      }
      remaining := remaining - {key};
    }
    if |m| == 0 {
      assert m.Keys == {};
    } else {
      assert m.Keys != {};
    }
  }

  /** A row of `titles-to-topics`. */
  datatype TitleRow = TitleRow(year: string, title: string, journal: string, topicId: string, proportion: real)

  /**
   * interpretation.get_document_title_per_topic: one row per publication with
   * its dominant topic, or None when a publication has no topics (`max` of
   * nothing raises).
   */
  method GetDocumentTitlePerTopic(pubs: seq<Publication>) returns (titles: Option<seq<TitleRow>>)
    ensures titles.None? <==> exists i :: 0 <= i < |pubs| && |pubs[i].topics| == 0
    ensures titles.Some? ==> |titles.value| == |pubs| && forall i :: 0 <= i < |pubs| ==>
      var row, p := titles.value[i], pubs[i];
      row.year == p.year && row.title == p.title && row.journal == p.journal &&
      IsDominant(p.topics, row.topicId, row.proportion)
  {
    var rows: seq<TitleRow> := [];
    for i := 0 to |pubs|
      invariant |rows| == i
      invariant forall j :: 0 <= j < i ==> |pubs[j].topics| != 0
      invariant forall j :: 0 <= j < i ==>
        rows[j].year == pubs[j].year && rows[j].title == pubs[j].title && rows[j].journal == pubs[j].journal &&
        IsDominant(pubs[j].topics, rows[j].topicId, rows[j].proportion)
    {
      var d := pubs[i];
      var dominant := DominantTopic(d.topics);
      if dominant.None? {
        return None;
      }
      rows := rows + [TitleRow(d.year, d.title, d.journal, dominant.value.0, dominant.value.1)];
    }
    titles := Some(rows);
  }

  // ---------------------------------------------------------------------------
  // The topic vector: `[value for key, value in sorted(d['topics'].iteritems(), key=lambda x: int(x[0]))]`
  // ---------------------------------------------------------------------------

  /** Every key of the dict is read by `int()` without error. */
  predicate IntKeys(m: map<string, real>)
  {
    forall k :: k in m ==> ParseInt(k).Some?
  }

  /** `int(key)`; only consulted for keys that parse. */
  function KeyId(k: string): int
  {
    if ParseInt(k).Some? then ParseInt(k).value else 0
  }

  /** `order` lists every key of `m` once, by ascending `int(key)`. */
  predicate KeyOrder(order: seq<string>, m: map<string, real>)
    requires IntKeys(m)
  {
    (forall i :: 0 <= i < |order| ==> order[i] in m) &&
    (forall k :: k in m ==> k in order) &&
    (forall i, j :: 0 <= i < j < |order| ==> order[i] != order[j]) &&
    (forall i, j :: 0 <= i < j < |order| ==> KeyId(order[i]) <= KeyId(order[j]))
  }

  /** `v` is the topic vector of `m` when its keys are taken in `order`. */
  predicate IsTopicVector(v: seq<real>, order: seq<string>, m: map<string, real>)
  {
    IntKeys(m) && KeyOrder(order, m) && |v| == |order| && forall i :: 0 <= i < |v| ==> v[i] == m[order[i]]
  }

  /** A key order has one entry per topic. */
  lemma KeyOrderLength(order: seq<string>, m: map<string, real>)
    requires IntKeys(m) && KeyOrder(order, m)
    ensures |order| == |m|
  {
    var keys := set i | 0 <= i < |order| :: order[i];
    assert keys == m.Keys;
    DistinctCard(order);
  }

  /** The elements of a sequence without repetitions are as many as its length. */
  lemma {:induction false} DistinctCard(order: seq<string>)
    requires forall i, j :: 0 <= i < j < |order| ==> order[i] != order[j]
    ensures |set i | 0 <= i < |order| :: order[i]| == |order|
    decreases |order|
  {
    if order != [] {
      var n := |order| - 1;
      DistinctCard(order[..n]);
      var before := set i | 0 <= i < n :: order[..n][i];
      assert before == set i | 0 <= i < n :: order[i];
      assert (set i | 0 <= i < |order| :: order[i]) == before + {order[n]};
      assert order[n] !in before;
    }
  }

  /** An element of `s` on which `id` is smallest. */
  lemma {:induction false} Smallest<T>(s: set<T>, id: T -> int) returns (x: T)
    requires s != {}
    ensures x in s && forall y :: y in s ==> id(x) <= id(y)
    decreases |s|
  {
    x :| x in s;
    if s != {x} {
      var y := Smallest(s - {x}, id);
      if id(y) < id(x) {
        x := y;
      }
    }
  }

  /** The elements of `s` by ascending `id`, each once; elements with the same id come in an order left open. */
  method SortBy<T>(s: set<T>, id: T -> int) returns (order: seq<T>)
    ensures forall i :: 0 <= i < |order| ==> order[i] in s
    ensures forall x :: x in s ==> x in order
    ensures forall i, j :: 0 <= i < j < |order| ==> order[i] != order[j]
    ensures forall i, j :: 0 <= i < j < |order| ==> id(order[i]) <= id(order[j])
  {
    order := [];
    var remaining := s;
    while remaining != {}
      invariant SortState(s, remaining, order, id)
      decreases |remaining|
    {
      ghost var least := Smallest(remaining, id);
      var x :| x in remaining && forall y :: y in remaining ==> id(x) <= id(y);
      SortStep(s, remaining, order, id, x);
      order := order + [x];
      remaining := remaining - {x};
    }
  }

  /** The invariant of SortBy's selection loop: `order` is the sorted part, `remaining` the rest. */
  ghost predicate SortState<T>(s: set<T>, remaining: set<T>, order: seq<T>, id: T -> int)
  {
    remaining <= s &&
    (forall i :: 0 <= i < |order| ==> order[i] in s && order[i] !in remaining) &&
    (forall x :: x in s ==> x in remaining || x in order) &&
    (forall i, j :: 0 <= i < j < |order| ==> order[i] != order[j]) &&
    (forall i, j :: 0 <= i < j < |order| ==> id(order[i]) <= id(order[j])) &&
    (forall i, x :: 0 <= i < |order| && x in remaining ==> id(order[i]) <= id(x))
  }

  /** Moving a least remaining element to the end of `order` keeps the invariant. */
  lemma SortStep<T>(s: set<T>, remaining: set<T>, order: seq<T>, id: T -> int, x: T)
    requires SortState(s, remaining, order, id)
    requires x in remaining && forall y :: y in remaining ==> id(x) <= id(y)
    ensures SortState(s, remaining - {x}, order + [x], id)
  {
    var order', rest := order + [x], remaining - {x};
    var n := |order|;
    assert forall i :: 0 <= i < n ==> order'[i] == order[i];
    assert order'[n] == x;
    forall i | 0 <= i < |order'|
      ensures order'[i] in s && order'[i] !in rest
    {
    }
    forall i, j | 0 <= i < j < |order'|
      ensures order'[i] != order'[j] && id(order'[i]) <= id(order'[j])
    {
      if j == n {
        assert order[i] !in remaining;
      }
    }
    forall i, y | 0 <= i < |order'| && y in rest
      ensures id(order'[i]) <= id(y)
    {
    }
  }

  /**
   * The topic vector of a publication: its proportions by ascending topic id,
   * or None when a key is not an integer (`int()` raises). Keys with the same
   * id come in an order the model leaves open, as the dict's order decides it
   * in the source.
   */
  method SortedTopics(m: map<string, real>) returns (v: Option<seq<real>>, ghost order: seq<string>)
    ensures v.None? <==> !IntKeys(m)
    ensures v.Some? ==> IsTopicVector(v.value, order, m)
  {
    order := [];
    if exists k :: k in m && ParseInt(k).None? {
      return None, order;
    }
    var keys := SortBy(m.Keys, KeyId);
    order := keys;
    v := Some(seq(|keys|, i requires 0 <= i < |keys| => m[keys[i]]));
  }

  // ---------------------------------------------------------------------------
  // plot_topic_co_occurrence: `topics.index(max(topics))` and the grouping
  // ---------------------------------------------------------------------------

  /** `max(v)`. */
  function MaxOf(v: seq<real>): (m: real)
    requires v != []
    ensures m in v && forall i :: 0 <= i < |v| ==> v[i] <= m
  {
    if |v| == 1 then v[0]
    else
      var rest := MaxOf(v[1..]);
      assert forall i :: 1 <= i < |v| ==> v[i] == v[1..][i - 1];
      if v[0] >= rest then v[0] else rest
  }

  /** `v.index(x)`: the first position holding `x`. */
  function IndexOf(v: seq<real>, x: real): (i: nat)
    requires x in v
    ensures i < |v| && v[i] == x && forall j :: 0 <= j < i ==> v[j] != x
  {
    if v[0] == x then 0
    else
      assert x in v[1..] by {
        var k :| 0 <= k < |v| && v[k] == x;
        assert v[1..][k - 1] == x;
      }
      var j := IndexOf(v[1..], x);
      assert forall k :: 1 <= k <= j ==> v[k] == v[1..][k - 1];
      j + 1
  }

  /**
   * The dominant topic id of a topic vector: the first position of its
   * largest proportion; None for an empty vector (`max` of nothing raises).
   */
  function DominantIndex(v: seq<real>): (r: Option<nat>)
    ensures r.Some? <==> v != []
    ensures r.Some? ==> (r.value < |v| && (forall i :: 0 <= i < |v| ==> v[i] <= v[r.value]) &&
      forall i :: 0 <= i < r.value ==> v[i] < v[r.value])
  {
    if v == [] then None else Some(IndexOf(v, MaxOf(v)))
  }

  /** The values whose key is `k`, in order. */
  function Pick<K(==), V>(keys: seq<K>, vals: seq<V>, k: K): seq<V>
    requires |keys| == |vals|
  {
    if keys == [] then []
    else
      var n := |keys| - 1;
      Pick(keys[..n], vals[..n], k) + (if keys[n] == k then [vals[n]] else [])
  }

  /**
   * The dict of lists a loop builds by appending each value to the list of its
   * key, creating the list on the key's first occurrence.
   */
  function GroupBy<K(==), V>(keys: seq<K>, vals: seq<V>): map<K, seq<V>>
    requires |keys| == |vals|
  {
    if keys == [] then map[]
    else
      var n := |keys| - 1;
      var g := GroupBy(keys[..n], vals[..n]);
      g[keys[n] := (if keys[n] in g then g[keys[n]] else []) + [vals[n]]]
  }

  /** The keys of the groups are exactly the keys that occur. */
  lemma {:induction false} GroupByKeys<K, V>(keys: seq<K>, vals: seq<V>, k: K)
    requires |keys| == |vals|
    ensures k in GroupBy(keys, vals) <==> k in keys
    decreases |keys|
  {
    if keys != [] {
      var n := |keys| - 1;
      GroupByKeys(keys[..n], vals[..n], k);
      assert keys == keys[..n] + [keys[n]];
    }
  }

  /** Each group holds the values of its key, in document order. */
  lemma {:induction false} GroupByPick<K, V>(keys: seq<K>, vals: seq<V>, k: K)
    requires |keys| == |vals| && k in GroupBy(keys, vals)
    ensures GroupBy(keys, vals)[k] == Pick(keys, vals, k)
    decreases |keys|
  {
    var n := |keys| - 1;
    var g := GroupBy(keys[..n], vals[..n]);
    if k in g {
      GroupByPick(keys[..n], vals[..n], k);
    } else if keys[n] == k {
      assert Pick(keys[..n], vals[..n], k) == [] by {
        PickAbsent(keys[..n], vals[..n], k);
      }
    }
  }

  lemma {:induction false} PickAbsent<K, V>(keys: seq<K>, vals: seq<V>, k: K)
    requires |keys| == |vals| && k !in GroupBy(keys, vals)
    ensures Pick(keys, vals, k) == []
    decreases |keys|
  {
    if keys != [] {
      var n := |keys| - 1;
      PickAbsent(keys[..n], vals[..n], k);
    }
  }

  /** The number of values over all groups. */
  ghost function Total<K, V>(g: map<K, seq<V>>): nat
    decreases |g.Keys|
  {
    if g.Keys == {} then 0
    else
      var k :| k in g.Keys;
      |g[k]| + Total(g - {k})
  }

  /** Any key can be counted first. */
  lemma {:induction false} TotalRemove<K, V>(g: map<K, seq<V>>, k: K)
    requires k in g
    ensures Total(g) == |g[k]| + Total(g - {k})
    decreases |g.Keys|
  {
    var j :| j in g.Keys && Total(g) == |g[j]| + Total(g - {j});
    if j != k {
      var gj, gk := g - {j}, g - {k};
      RemoveOther(g, j, k);
      RemoveOther(g, k, j);
      TotalRemove(gj, k);
      TotalRemove(gk, j);
      RemoveCommutes(g, j, k);
    }
  }

  /** Removing two keys in either order leaves the same map. */
  lemma RemoveCommutes<K, V>(g: map<K, seq<V>>, j: K, k: K)
    ensures (g - {j}) - {k} == (g - {k}) - {j}
  {
    var a, b := (g - {j}) - {k}, (g - {k}) - {j};
    assert a.Keys == g.Keys - {j, k} == b.Keys;
    forall x | x in a.Keys
      ensures a[x] == b[x]
    {
      assert a[x] == g[x] == b[x];
    }
  }

  /** Removing one key shrinks the map and keeps every other key's group. */
  lemma RemoveOther<K, V>(g: map<K, seq<V>>, j: K, k: K)
    requires j in g && k in g && j != k
    ensures |(g - {j}).Keys| < |g.Keys|
    ensures k in g - {j} && (g - {j})[k] == g[k]
  {
    assert (g - {j}).Keys == g.Keys - {j};
  }

  /** Every value lands in exactly one group: the groups together hold as many values as there are documents. */
  lemma {:induction false} GroupByTotal<K, V>(keys: seq<K>, vals: seq<V>)
    requires |keys| == |vals|
    ensures Total(GroupBy(keys, vals)) == |vals|
    decreases |keys|
  {
    if keys != [] {
      var n := |keys| - 1;
      var g := GroupBy(keys[..n], vals[..n]);
      var k := keys[n];
      var h := GroupBy(keys, vals);
      GroupByTotal(keys[..n], vals[..n]);
      TotalRemove(h, k);
      if k in g {
        TotalRemove(g, k);
        assert h - {k} == g - {k};
      } else {
        assert h - {k} == g;
      }
    }
  }

  // ---------------------------------------------------------------------------
  // The two groupings
  // ---------------------------------------------------------------------------

  /** Appending one more value to the groups. */
  lemma GroupBySnoc<K, V>(keys: seq<K>, vals: seq<V>, k: K, v: V)
    requires |keys| == |vals|
    ensures var g := GroupBy(keys, vals);
      GroupBy(keys + [k], vals + [v]) == g[k := (if k in g then g[k] else []) + [v]]
  {
    assert (keys + [k])[..|keys|] == keys && (vals + [v])[..|vals|] == vals;
  }

  /** `vecs` and `orders` hold the topic vector of each publication, and the key order it was read in. */
  predicate VectorsOf(pubs: seq<Publication>, vecs: seq<seq<real>>, orders: seq<seq<string>>)
  {
    |vecs| == |pubs| && |orders| == |pubs| &&
    forall i :: 0 <= i < |pubs| ==> IsTopicVector(vecs[i], orders[i], pubs[i].topics)
  }

  lemma VectorsSnoc(pubs: seq<Publication>, vecs: seq<seq<real>>, orders: seq<seq<string>>, p: Publication, v: seq<real>, o: seq<string>)
    requires VectorsOf(pubs, vecs, orders) && IsTopicVector(v, o, p.topics)
    ensures VectorsOf(pubs + [p], vecs + [v], orders + [o])
  {
    forall i | 0 <= i < |pubs| + 1
      ensures IsTopicVector((vecs + [v])[i], (orders + [o])[i], (pubs + [p])[i].topics)
    {
      if i < |pubs| {
        assert (vecs + [v])[i] == vecs[i] && (orders + [o])[i] == orders[i] && (pubs + [p])[i] == pubs[i];
      }
    }
  }

  /** `years` holds `int(year)` of each publication. */
  predicate YearsOf(pubs: seq<Publication>, years: seq<int>)
  {
    |years| == |pubs| && forall i :: 0 <= i < |pubs| ==> ParseInt(pubs[i].year) == Some(years[i])
  }

  lemma YearsSnoc(pubs: seq<Publication>, years: seq<int>, p: Publication, y: int)
    requires YearsOf(pubs, years) && ParseInt(p.year) == Some(y)
    ensures YearsOf(pubs + [p], years + [y])
  {
    forall i | 0 <= i < |pubs| + 1
      ensures ParseInt((pubs + [p])[i].year) == Some((years + [y])[i])
    {
      if i < |pubs| {
        assert (pubs + [p])[i] == pubs[i];
      }
    }
  }

  /** `ids` holds the dominant topic id of each vector. */
  predicate DominantsOf(vecs: seq<seq<real>>, ids: seq<nat>)
  {
    |ids| == |vecs| && forall i :: 0 <= i < |vecs| ==> DominantIndex(vecs[i]) == Some(ids[i])
  }

  lemma DominantsSnoc(vecs: seq<seq<real>>, ids: seq<nat>, v: seq<real>, id: nat)
    requires DominantsOf(vecs, ids) && DominantIndex(v) == Some(id)
    ensures DominantsOf(vecs + [v], ids + [id])
  {
    forall i | 0 <= i < |vecs| + 1
      ensures DominantIndex((vecs + [v])[i]) == Some((ids + [id])[i])
    {
      if i < |vecs| {
        assert (vecs + [v])[i] == vecs[i];
      }
    }
  }

  /** A publication whose topic dict the co-occurrence plot can read: integer keys, at least one topic. */
  predicate HasDominant(p: Publication)
  {
    IntKeys(p.topics) && |p.topics| != 0
  }

  /** A publication get_year_to_topics can read: an integer year and integer topic keys. */
  predicate HasYear(p: Publication)
  {
    ParseInt(p.year).Some? && IntKeys(p.topics)
  }

  lemma PrefixSnoc<T>(s: seq<T>, i: nat)
    requires i < |s|
    ensures s[..i + 1] == s[..i] + [s[i]]
  {
  }

  /** Publications whose vectors and dominant ids were read all have a dominant topic. */
  lemma AllHaveDominant(pubs: seq<Publication>, vecs: seq<seq<real>>, orders: seq<seq<string>>, ids: seq<nat>)
    requires VectorsOf(pubs, vecs, orders) && DominantsOf(vecs, ids)
    ensures forall i :: 0 <= i < |pubs| ==> HasDominant(pubs[i])
  {
    forall i | 0 <= i < |pubs|
      ensures HasDominant(pubs[i])
    {
      assert IsTopicVector(vecs[i], orders[i], pubs[i].topics);
      KeyOrderLength(orders[i], pubs[i].topics);
      assert DominantIndex(vecs[i]).Some?;
    }
  }

  /** Publications whose years and vectors were read all have a year and integer topic keys. */
  lemma AllHaveYear(pubs: seq<Publication>, years: seq<int>, vecs: seq<seq<real>>, orders: seq<seq<string>>)
    requires YearsOf(pubs, years) && VectorsOf(pubs, vecs, orders)
    ensures forall i :: 0 <= i < |pubs| ==> HasYear(pubs[i])
  {
    forall i | 0 <= i < |pubs|
      ensures HasYear(pubs[i])
    {
      assert IsTopicVector(vecs[i], orders[i], pubs[i].topics);
    }
  }

  /**
   * The grouping loop of plot_topic_co_occurrence: each publication's topic
   * vector appended to the list of its dominant topic id; None when a topic key
   * is not an integer or a publication has no topics.
   */
  method CoOccurrenceGroups(pubs: seq<Publication>)
    returns (r: Option<map<nat, seq<seq<real>>>>, ghost ids: seq<nat>, ghost vecs: seq<seq<real>>, ghost orders: seq<seq<string>>)
    ensures r.None? <==> exists i :: 0 <= i < |pubs| && !HasDominant(pubs[i])
    ensures r.Some? ==> VectorsOf(pubs, vecs, orders) && DominantsOf(vecs, ids) && r.value == GroupBy(ids, vecs)
  {
    var groups: map<nat, seq<seq<real>>> := map[];
    ids, vecs, orders := [], [], [];
    for i := 0 to |pubs|
      invariant VectorsOf(pubs[..i], vecs, orders) && DominantsOf(vecs, ids)
      invariant groups == GroupBy(ids, vecs)
    {
      var ok;
      PrefixSnoc(pubs, i);
      ok, groups, ids, vecs, orders := AddDominant(pubs[..i], pubs[i], groups, ids, vecs, orders);
      if !ok {
        return None, ids, vecs, orders;
      }
    }
    assert pubs[..|pubs|] == pubs;
    AllHaveDominant(pubs, vecs, orders, ids);
    r := Some(groups);
  }

  /** One turn of the grouping loop: reads `p` and appends its vector to the list of its dominant topic. */
  method AddDominant(ghost done: seq<Publication>, p: Publication, groups: map<nat, seq<seq<real>>>,
                     ghost ids: seq<nat>, ghost vecs: seq<seq<real>>, ghost orders: seq<seq<string>>)
    returns (ok: bool, groups': map<nat, seq<seq<real>>>, ghost ids': seq<nat>, ghost vecs': seq<seq<real>>, ghost orders': seq<seq<string>>)
    requires VectorsOf(done, vecs, orders) && DominantsOf(vecs, ids) && groups == GroupBy(ids, vecs)
    ensures ok <==> HasDominant(p)
    ensures ok ==> (VectorsOf(done + [p], vecs', orders') && DominantsOf(vecs', ids') &&
      groups' == GroupBy(ids', vecs'))
  {
    groups', ids', vecs', orders' := groups, ids, vecs, orders;
    var topics, order := SortedTopics(p.topics);
    if topics.None? {
      return false, groups', ids', vecs', orders';
    }
    KeyOrderLength(order, p.topics);
    var dominant := DominantIndex(topics.value);
    if dominant.None? {
      return false, groups', ids', vecs', orders';
    }
    var id := dominant.value;
    var members := if id in groups then groups[id] else [];
    groups' := groups[id := members + [topics.value]];
    GroupBySnoc(ids, vecs, id, topics.value);
    VectorsSnoc(done, vecs, orders, p, topics.value, order);
    DominantsSnoc(vecs, ids, topics.value, id);
    ok, ids', vecs', orders' := true, ids + [id], vecs + [topics.value], orders + [order];
  }

  /**
   * interpretation.get_year_to_topics: each publication's topic vector appended
   * to the list of `int(year)`; None when a year or a topic key is not an
   * integer.
   */
  method GetYearToTopics(pubs: seq<Publication>)
    returns (r: Option<map<int, seq<seq<real>>>>, ghost years: seq<int>, ghost vecs: seq<seq<real>>, ghost orders: seq<seq<string>>)
    ensures r.None? <==> exists i :: 0 <= i < |pubs| && !HasYear(pubs[i])
    ensures r.Some? ==> YearsOf(pubs, years) && VectorsOf(pubs, vecs, orders) && r.value == GroupBy(years, vecs)
  {
    var yearToTopics: map<int, seq<seq<real>>> := map[];
    years, vecs, orders := [], [], [];
    for i := 0 to |pubs|
      invariant YearsOf(pubs[..i], years) && VectorsOf(pubs[..i], vecs, orders)
      invariant yearToTopics == GroupBy(years, vecs)
    {
      var ok;
      PrefixSnoc(pubs, i);
      ok, yearToTopics, years, vecs, orders := AddYear(pubs[..i], pubs[i], yearToTopics, years, vecs, orders);
      if !ok {
        return None, years, vecs, orders;
      }
    }
    assert pubs[..|pubs|] == pubs;
    AllHaveYear(pubs, years, vecs, orders);
    r := Some(yearToTopics);
  }

  /** One turn of the loop of get_year_to_topics: reads `p` and appends its vector to the list of its year. */
  method AddYear(ghost done: seq<Publication>, p: Publication, yearToTopics: map<int, seq<seq<real>>>,
                 ghost years: seq<int>, ghost vecs: seq<seq<real>>, ghost orders: seq<seq<string>>)
    returns (ok: bool, yearToTopics': map<int, seq<seq<real>>>, ghost years': seq<int>, ghost vecs': seq<seq<real>>, ghost orders': seq<seq<string>>)
    requires YearsOf(done, years) && VectorsOf(done, vecs, orders) && yearToTopics == GroupBy(years, vecs)
    ensures ok <==> HasYear(p)
    ensures ok ==> (YearsOf(done + [p], years') && VectorsOf(done + [p], vecs', orders') &&
      yearToTopics' == GroupBy(years', vecs'))
  {
    yearToTopics', years', vecs', orders' := yearToTopics, years, vecs, orders;
    var year := ParseInt(p.year);
    if year.None? {
      return false, yearToTopics', years', vecs', orders';
    }
    var members := if year.value in yearToTopics then yearToTopics[year.value] else [];
    var topics, order := SortedTopics(p.topics);
    if topics.None? {
      return false, yearToTopics', years', vecs', orders';
    }
    yearToTopics' := yearToTopics[year.value := members + [topics.value]];
    GroupBySnoc(years, vecs, year.value, topics.value);
    YearsSnoc(done, years, p, year.value);
    VectorsSnoc(done, vecs, orders, p, topics.value, order);
    ok, years', vecs', orders' := true, years + [year.value], vecs + [topics.value], orders + [order];
  }

  /**
   * interpretation.get_year_to_cum_topics: the same keys, each list replaced by
   * its column mean. `mean` stands for `np.mean(np.array(v), axis=0)`.
   */
  method GetYearToCumTopics<K>(yearToTopics: map<K, seq<seq<real>>>, mean: seq<seq<real>> -> seq<real>)
    returns (cum: map<K, seq<real>>)
    ensures cum.Keys == yearToTopics.Keys
    ensures forall k :: k in cum ==> cum[k] == mean(yearToTopics[k])
  {
    cum := map[];
    var remaining := yearToTopics.Keys;
    while remaining != {}
      invariant remaining <= yearToTopics.Keys
      invariant cum.Keys == yearToTopics.Keys - remaining
      invariant forall k :: k in cum ==> cum[k] == mean(yearToTopics[k])
      decreases |remaining|
    {
      var k :| k in remaining;
      cum := cum[k := mean(yearToTopics[k])];
      remaining := remaining - {k};
    }
  }
}
