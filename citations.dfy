/** The citation view `json_bundle` (app.py lines 52-76): relations whose
    source article is in the corpus, each with its citing articles pruned
    to the corpus. The store's `find_one` by PMID is a lookup in `corpus`. */
module CitationView {
  import opened Wrappers
  import opened Records
  import opened Seqs
  import opened Links
  import opened Articles

  type Corpus = map<string, ArticleRec>

  /** The entries of `citedBy` found in the corpus, in order, duplicates kept. */
  function KnownIds(citedBy: seq<string>, corpus: Corpus): (r: seq<string>)
    ensures |r| <= |citedBy|
    ensures forall i :: 0 <= i < |r| ==> r[i] in corpus
  {
    if citedBy == [] then []
    else
      var rest := KnownIds(citedBy[..|citedBy| - 1], corpus);
      var c := citedBy[|citedBy| - 1];
      if c in corpus then rest + [c] else rest
  }

  /** Pruning keeps every occurrence of a corpus id and no other id, in the
      original order. */
  lemma {:induction false} KnownIdsExact(citedBy: seq<string>, corpus: Corpus)
    ensures IsSubsequence(KnownIds(citedBy, corpus), citedBy)
    ensures forall c :: multiset(KnownIds(citedBy, corpus))[c] == if c in corpus then multiset(citedBy)[c] else 0
  {
    if citedBy != [] {
      var p, c := citedBy[..|citedBy| - 1], citedBy[|citedBy| - 1];
      KnownIdsExact(p, corpus);
      assert citedBy == p + [c];
      if c in corpus {
        SubsequenceExtend(KnownIds(p, corpus), p, c);
      } else {
        SubsequenceSkip(KnownIds(p, corpus), p, c);
      }
    }
  }

  /** The inner loop over `relation['citedby']` (app.py lines 64-68). */
  method PruneCitedBy(citedBy: seq<string>, corpus: Corpus) returns (kept: seq<string>)
    ensures kept == KnownIds(citedBy, corpus)
  {
    kept := [];
    var i := 0;
    while i < |citedBy|
      invariant 0 <= i <= |citedBy|
      invariant kept == KnownIds(citedBy[..i], corpus)
    {
      assert citedBy[..i + 1][..i] == citedBy[..i];
      if citedBy[i] in corpus {
        kept := kept + [citedBy[i]];
      }
      i := i + 1;
    }
    assert citedBy[..i] == citedBy;
  }

  /** The entry for a relation whose source article is `a`. */
  function Entry(a: ArticleRec, citedBy: seq<string>, corpus: Corpus): (r: Result<Citation, Error>)
    ensures r.Err? <==> a.ids == []
    ensures r.Ok? ==>
      (r.value.title == a.title && r.value.year == a.pubDate.year &&
       forall i :: 0 <= i < |r.value.citedBy| ==> r.value.citedBy[i] in corpus)
  {
    match DoiLink(a.ids)
    case Err(e) => Err(e)
    case Ok(l) => Ok(Citation(a.title, KnownIds(citedBy, corpus), a.pubDate.year, l))
  }

  /** `citations_dict` after the loop over `relations`. */
  function Bundle(relations: seq<Relation>, corpus: Corpus): (r: Result<map<string, Citation>, Error>)
    ensures r.Ok? ==> forall p :: p in r.value ==> p in corpus && r.value[p].title == corpus[p].title
  {
    if relations == [] then Ok(map[])
    else
      match Bundle(relations[..|relations| - 1], corpus)
      case Err(e) => Err(e)
      case Ok(m) =>
        var rel := relations[|relations| - 1];
        if rel.pmid !in corpus then Ok(m)
        else
          match Entry(corpus[rel.pmid], rel.citedBy, corpus)
          case Err(e) => Err(e)
          case Ok(c) => Ok(m[rel.pmid := c])
  }

  /** Once a prefix of the relations has failed, the whole view fails with
      the same error. */
  lemma {:induction false} BundleErrorPersists(relations: seq<Relation>, corpus: Corpus, i: nat)
    requires i <= |relations| && Bundle(relations[..i], corpus).Err?
    ensures Bundle(relations, corpus) == Bundle(relations[..i], corpus)
    decreases |relations| - i
  {
    if i < |relations| {
      assert relations[..i + 1][..i] == relations[..i];
      BundleErrorPersists(relations, corpus, i + 1);
    } else {
      assert relations[..i] == relations;
    }
  }

  /** The view fails exactly when some relation's source article has an
      empty identifier list. */
  lemma {:induction false} BundleFails(relations: seq<Relation>, corpus: Corpus)
    ensures Bundle(relations, corpus).Err? <==>
      exists i :: 0 <= i < |relations| && relations[i].pmid in corpus && corpus[relations[i].pmid].ids == []
    ensures Bundle(relations, corpus).Err? ==> Bundle(relations, corpus).error == EmptyIdList
  {
    if relations != [] {
      var p := relations[..|relations| - 1];
      BundleFails(p, corpus);
      assert forall i :: 0 <= i < |p| ==> p[i] == relations[i];
    }
  }

  /** The view's keys are exactly the PMIDs of relations whose source
      article exists; the other relations contribute nothing. */
  lemma {:induction false} BundleKeys(relations: seq<Relation>, corpus: Corpus)
    requires Bundle(relations, corpus).Ok?
    ensures Bundle(relations, corpus).value.Keys == set r | r in relations && r.pmid in corpus :: r.pmid
  {
    if relations != [] {
      var p, rel := relations[..|relations| - 1], relations[|relations| - 1];
      BundleKeys(p, corpus);
      assert relations == p + [rel];
      assert (set r | r in relations && r.pmid in corpus :: r.pmid) ==
        (set r | r in p && r.pmid in corpus :: r.pmid) + (if rel.pmid in corpus then {rel.pmid} else {});
    }
  }

  /** `k` is the last relation about its PMID. */
  ghost predicate IsLastFor(relations: seq<Relation>, k: int) {
    0 <= k < |relations| && forall j :: k < j < |relations| ==> relations[j].pmid != relations[k].pmid
  }

  /** The entry under a PMID comes from the LAST relation about it: the
      source's title, year and link, and that relation's pruned citers. */
  lemma {:induction false} BundleEntryIsLast(relations: seq<Relation>, corpus: Corpus, k: int)
    requires Bundle(relations, corpus).Ok? && IsLastFor(relations, k) && relations[k].pmid in corpus
    ensures var p := relations[k].pmid;
      var a := corpus[p];
      p in Bundle(relations, corpus).value && DoiLink(a.ids).Ok? &&
      Bundle(relations, corpus).value[p] ==
        Citation(a.title, KnownIds(relations[k].citedBy, corpus), a.pubDate.year, DoiLink(a.ids).value)
  {
    var p := relations[..|relations| - 1];
    if k < |relations| - 1 {
      assert IsLastFor(p, k);
      BundleEntryIsLast(p, corpus, k);
    }
  }

  /** `json_bundle` (app.py lines 55-76): each source article is fetched as
      a fresh dictionary, and `get_link` sorts and annotates that copy. */
  method BuildBundle(relations: seq<Relation>, corpus: Corpus) returns (r: Result<map<string, Citation>, Error>)
    ensures r == Bundle(relations, corpus)
  {
    var citations: map<string, Citation> := map[];
    var i := 0;
    while i < |relations|
      invariant 0 <= i <= |relations|
      invariant Bundle(relations[..i], corpus) == Ok(citations)
    {
      var relation := relations[i];
      assert relations[..i + 1][..i] == relations[..i];
      if relation.pmid in corpus {
        var citedBy := PruneCitedBy(relation.citedBy, corpus);
        var article := new Article(corpus[relation.pmid]);
        var title, year := article.title, article.pubDate.year;
        var st := GetLink(article);
        if st.Fail? {
          BundleErrorPersists(relations, corpus, i + 1);
          return Err(st.error);
        }
        citations := citations[relation.pmid := Citation(title, citedBy, year, article.link.value)];
      }
      i := i + 1;
    }
    assert relations[..i] == relations;
    r := Ok(citations);
  }

  /** Citers missing from the corpus are pruned. */
  lemma BundleExample()
    ensures var corpus := map["1" := ArticleRec("1", "A", PubDate(Some(2016), None, None), NoAbstract, ["1"], None, None),
                              "2" := ArticleRec("2", "B", PubDate(None, None, None), NoAbstract, ["2"], None, None)];
      Bundle([Relation("1", ["2", "9"])], corpus) ==
        Ok(map["1" := Citation("A", ["2"], Some(2016), None)])
  {
    var corpus := map["1" := ArticleRec("1", "A", PubDate(Some(2016), None, None), NoAbstract, ["1"], None, None),
                       "2" := ArticleRec("2", "B", PubDate(None, None, None), NoAbstract, ["2"], None, None)];
    assert KnownIds(["2", "9"], corpus) == ["2"] by {
      assert ["2", "9"][..1] == ["2"];
      assert ["2"][..0] == [];
    }
    assert [Relation("1", ["2", "9"])][..0] == [];
  }
}
