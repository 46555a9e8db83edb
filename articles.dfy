/** Article documents as mutable objects, and the two procedures that
    update them in place: `fix_abstract` and `get_link`. */
module Articles {
  import opened Wrappers
  import opened Records
  import opened Abstracts
  import opened Links

  /** One article dictionary fetched from the store. */
  class Article {
    var pmid: string
    var title: string
    var pubDate: PubDate
    var abstractField: Abstract
    var ids: seq<string>
    var link: Option<Option<string>>
    var pubDatetime: Option<DateTriple>

    /** The document's current contents. */
    function Value(): ArticleRec
      reads this
    {
      ArticleRec(pmid, title, pubDate, abstractField, ids, link, pubDatetime)
    }

    /** A fresh dictionary holding the stored document `r`. */
    constructor (r: ArticleRec)
      ensures Value() == r
    {
      pmid, title, pubDate, abstractField := r.pmid, r.title, r.pubDate, r.abstractField;
      ids, link, pubDatetime := r.ids, r.link, r.pubDatetime;
    }
  }

  /** The document after `fix_abstract`. */
  function WithFixedAbstract(a: ArticleRec): (r: Result<ArticleRec, Error>)
    ensures r.Ok? <==> NormalAbstract(a.abstractField).Ok?
    ensures r.Ok? ==> r.value.abstractField.Text? && r.value.(abstractField := a.abstractField) == a
  {
    match NormalAbstract(a.abstractField)
    case Err(e) => Err(e)
    case Ok(b) => Ok(a.(abstractField := b))
  }

  /** The document after `get_link`: the identifier list sorted by length
      and the link key written. */
  function WithLink(a: ArticleRec): (r: Result<ArticleRec, Error>)
    ensures r.Ok? <==> a.ids != []
    ensures r.Ok? ==> r.value.link.Some? && r.value.(ids := a.ids, link := a.link) == a
  {
    match DoiLink(a.ids)
    case Err(e) => Err(e)
    case Ok(l) => Ok(a.(ids := SortByLength(a.ids), link := Some(l)))
  }

  /** `fix_abstract(art)`: rewrites the abstract in place; on IndexError
      nothing has been written. */
  method FixAbstract(art: Article) returns (r: Outcome<Error>)
    modifies art
    ensures r.Pass? <==> WithFixedAbstract(old(art.Value())).Ok?
    ensures r.Pass? ==> art.Value() == WithFixedAbstract(old(art.Value())).value
    ensures r.Fail? ==> r.error == EmptyAbstractText && art.Value() == old(art.Value())
  {
    match art.abstractField {
      case NoAbstract =>
        art.abstractField := Text(" ");
      case EmptyAbstract =>
        art.abstractField := Text(" ");
      case Sections(texts) =>
        if texts == [] {
          return Fail(EmptyAbstractText);
        }
        art.abstractField := Text(texts[0]);
      case Text(text) =>
        if text == "" {
          return Fail(EmptyAbstractText);
        }
        art.abstractField := Text(text[..1]);
    }
    r := Pass;
  }

  /** `get_link(art)`: sorts `ArticleIdList` in place by length, then writes
      the link of the longest identifier; an empty list raises IndexError
      after the (empty) sort. */
  method GetLink(art: Article) returns (r: Outcome<Error>)
    modifies art
    ensures SortedByLength(art.ids) && multiset(art.ids) == multiset(old(art.ids))
    ensures r.Pass? <==> old(art.ids) != []
    ensures r.Pass? ==> art.Value() == WithLink(old(art.Value())).value
    ensures r.Fail? ==> r.error == EmptyIdList && art.Value() == old(art.Value())
  {
    SortByLengthIsStable(art.ids);
    art.ids := SortByLength(art.ids);
    if |art.ids| == 0 {
      return Fail(EmptyIdList);
    }
    var last := art.ids[|art.ids| - 1];
    if '/' in last {
      art.link := Some(Some(DoiPrefix + last));
    } else {
      art.link := Some(None);
    }
    r := Pass;
  }
}
