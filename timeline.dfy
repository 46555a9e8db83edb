/** The timeline view `json_timeline` (app.py lines 107-133): articles with
    a Year, in order, each normalised in place. The text search is taken
    as already applied: `records` is what the store query returned. */
module TimelineView {
  import opened Wrappers
  import opened Records
  import opened Seqs
  import opened Dates
  import opened Abstracts
  import opened Links
  import opened Articles

  /** The articles that have a Year, in order. */
  function WithYear(records: seq<ArticleRec>): (r: seq<ArticleRec>)
    ensures |r| <= |records|
    ensures forall i :: 0 <= i < |r| ==> HasYear(r[i])
  {
    if records == [] then []
    else
      var rest := WithYear(records[..|records| - 1]);
      var a := records[|records| - 1];
      if HasYear(a) then rest + [a] else rest
  }

  /** The filter keeps every dated article, in order, and nothing else. */
  lemma {:induction false} WithYearExact(records: seq<ArticleRec>)
    ensures IsSubsequence(WithYear(records), records)
    ensures forall a :: multiset(WithYear(records))[a] == if HasYear(a) then multiset(records)[a] else 0
  {
    if records != [] {
      var p, a := records[..|records| - 1], records[|records| - 1];
      WithYearExact(p);
      assert records == p + [a];
      if HasYear(a) {
        SubsequenceExtend(WithYear(p), p, a);
      } else {
        SubsequenceSkip(WithYear(p), p, a);
      }
    }
  }

  /** One iteration's update of a dated article (app.py lines 124-129):
      `fix_abstract`, then `PubDatetime`, then `get_link`. */
  function Normalise(a: ArticleRec): (r: Result<ArticleRec, Error>)
    requires HasYear(a)
    ensures r.Ok? ==> HasYear(r.value) && r.value.pmid == a.pmid && r.value.pubDatetime.Some?
  {
    match WithFixedAbstract(a)
    case Err(e) => Err(e)
    case Ok(a1) =>
      match ResolveDate(a1.pubDate)
      case Err(e) => Err(e)
      case Ok(t) => WithLink(a1.(pubDatetime := Some(t)))
  }

  /** A normalised article keeps its identity and date, and carries the
      resolved date, the normalised abstract, the sorted identifiers and the
      link; it fails on the first of the three steps that raises. */
  lemma NormaliseFields(a: ArticleRec)
    requires HasYear(a)
    ensures Normalise(a).Ok? <==>
      NormalAbstract(a.abstractField).Ok? && ResolveDate(a.pubDate).Ok? && a.ids != []
    ensures Normalise(a).Err? ==>
      Normalise(a).error ==
        if NormalAbstract(a.abstractField).Err? then EmptyAbstractText
        else if ResolveDate(a.pubDate).Err? then UnknownMonth(a.pubDate.month.GetOr("Jan"))
        else EmptyIdList
    ensures Normalise(a).Ok? ==>
      var n := Normalise(a).value;
      n.pmid == a.pmid && n.title == a.title && n.pubDate == a.pubDate &&
      n.abstractField == NormalAbstract(a.abstractField).value &&
      n.ids == SortByLength(a.ids) &&
      n.link == Some(DoiLink(a.ids).value) &&
      n.pubDatetime == Some(ResolveDate(a.pubDate).value)
  {
  }

  /** `valid_articles` after the loop over `records`. */
  function Timeline(records: seq<ArticleRec>): (r: Result<seq<ArticleRec>, Error>)
    ensures r.Ok? ==> |r.value| <= |records| && forall i :: 0 <= i < |r.value| ==> HasYear(r.value[i])
  {
    if records == [] then Ok([])
    else
      match Timeline(records[..|records| - 1])
      case Err(e) => Err(e)
      case Ok(out) =>
        var a := records[|records| - 1];
        if !HasYear(a) then Ok(out)
        else
          match Normalise(a)
          case Err(e) => Err(e)
          case Ok(n) => Ok(out + [n])
  }

  /** The timeline is the dated articles, in order, each normalised; it
      fails exactly when normalising some dated article fails. */
  lemma {:induction false} TimelineIsFilterMap(records: seq<ArticleRec>)
    ensures Timeline(records).Ok? <==>
      forall i :: 0 <= i < |records| && HasYear(records[i]) ==> Normalise(records[i]).Ok?
    ensures Timeline(records).Ok? ==>
      |Timeline(records).value| == |WithYear(records)| &&
      forall i :: 0 <= i < |WithYear(records)| ==>
        Normalise(WithYear(records)[i]).Ok? &&
        Timeline(records).value[i] == Normalise(WithYear(records)[i]).value
  {
    if records != [] {
      var p := records[..|records| - 1];
      TimelineIsFilterMap(p);
      assert forall i :: 0 <= i < |p| ==> p[i] == records[i];
    }
  }

  /** Each timeline entry is a normalised dated input article: the output
      is no longer than the input, and entry i carries the PMID and title of
      the i-th dated article, the dated articles being taken in input order. */
  lemma TimelineEntries(records: seq<ArticleRec>)
    requires Timeline(records).Ok?
    ensures |Timeline(records).value| <= |records|
    ensures forall i :: 0 <= i < |Timeline(records).value| ==>
      var n := Timeline(records).value[i];
      n.pubDate.year.Some? && n.pubDatetime.Some? && n.pubDatetime.value.year == n.pubDate.year.value &&
      n.link.Some? && n.abstractField.Text?
    ensures |Timeline(records).value| == |WithYear(records)| && IsSubsequence(WithYear(records), records)
    ensures forall i :: 0 <= i < |Timeline(records).value| ==>
      Timeline(records).value[i].pmid == WithYear(records)[i].pmid &&
      Timeline(records).value[i].title == WithYear(records)[i].title
  {
    TimelineIsFilterMap(records);
    WithYearExact(records);
    forall i | 0 <= i < |WithYear(records)| ensures var n := Timeline(records).value[i];
      n.pubDate.year.Some? && n.pubDatetime.Some? && n.pubDatetime.value.year == n.pubDate.year.value &&
      n.link.Some? && n.abstractField.Text? &&
      n.pmid == WithYear(records)[i].pmid && n.title == WithYear(records)[i].title
    {
      NormaliseFields(WithYear(records)[i]);
    }
  }

  /** Once a prefix has failed, the whole view fails with the same error. */
  lemma {:induction false} TimelineErrorPersists(records: seq<ArticleRec>, i: nat)
    requires i <= |records| && Timeline(records[..i]).Err?
    ensures Timeline(records) == Timeline(records[..i])
    decreases |records| - i
  {
    if i < |records| {
      assert records[..i + 1][..i] == records[..i];
      TimelineErrorPersists(records, i + 1);
    } else {
      assert records[..i] == records;
    }
  }

  /** The body of the loop for a dated article (app.py lines 124-129),
      updating `art` in place; the first step that raises ends it. */
  method NormaliseInPlace(art: Article) returns (r: Outcome<Error>)
    requires HasYear(art.Value())
    modifies art
    ensures r.Pass? <==> Normalise(old(art.Value())).Ok?
    ensures r.Pass? ==> art.Value() == Normalise(old(art.Value())).value
    ensures r.Fail? ==> Normalise(old(art.Value())) == Err(r.error)
  {
    r := FixAbstract(art);
    if r.Fail? {
      return;
    }
    var date := ResolveDate(art.pubDate);
    if date.Err? {
      return Fail(date.error);
    }
    art.pubDatetime := Some(date.value);
    r := GetLink(art);
  }

  /** `json_timeline` up to the template: the store hands out fresh
      dictionaries, and each dated one is updated in place and kept. */
  method BuildTimeline(records: seq<ArticleRec>) returns (r: Result<seq<Article>, Error>)
    ensures r.Err? ==> Timeline(records) == Err(r.error)
    ensures r.Ok? ==>
      (Timeline(records).Ok? && |r.value| == |Timeline(records).value| &&
       forall i :: 0 <= i < |r.value| ==> r.value[i].Value() == Timeline(records).value[i])
  {
    var valid: seq<Article> := [];
    var i := 0;
    while i < |records|
      invariant 0 <= i <= |records|
      invariant Timeline(records[..i]).Ok?
      invariant |valid| == |Timeline(records[..i]).value|
      invariant forall j :: 0 <= j < |valid| ==> valid[j].Value() == Timeline(records[..i]).value[j]
    {
      assert records[..i + 1][..i] == records[..i];
      var art := new Article(records[i]);
      if art.pubDate.year.Some? {
        var st := NormaliseInPlace(art);
        if st.Fail? {
          TimelineErrorPersists(records, i + 1);
          return Err(st.error);
        }
        valid := valid + [art];
      }
      i := i + 1;
    }
    assert records[..i] == records;
    r := Ok(valid);
  }
}
