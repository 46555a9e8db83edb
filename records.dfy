/** The records the core reads: articles as stored, citation relations,
    and the failures that abort a request. */
module Records {
  import opened Wrappers

  /** Exceptions raised by the view builders. Any of them aborts the whole
      request (the web layer answers with a server error). */
  datatype Error =
    | UnknownMonth(key: string)                    // KeyError from the month table
    | EmptyIdList                                  // IndexError: last entry of an empty ArticleIdList
    | EmptyAbstractText                            // IndexError: first entry of an empty AbstractText
    | InvalidDate(year: int, month: int, day: int) // ValueError from datetime.date
    | NoDatedArticles                              // KeyError: the empty DataFrame has no 'date' column

  /** `...JournalIssue.PubDate`: each key may be missing. Year and Day are
      already integers (Python's `int()` on the stored text). */
  datatype PubDate = PubDate(year: Option<int>, month: Option<string>, day: Option<int>)

  /** `MedlineCitation.Article.Abstract`. */
  datatype Abstract =
    | NoAbstract                     // the 'Abstract' key is missing
    | EmptyAbstract                  // 'Abstract' is the empty string
    | Sections(texts: seq<string>)   // {'AbstractText': [section, ...]}, as stored
    | Text(text: string)             // {'AbstractText': text}, as normalised

  /** A resolved (year, month number, day) triple. */
  datatype DateTriple = DateTriple(year: int, month: int, day: int)

  /** The fields of an article document that the core reads or writes.
      `link` and `pubDatetime` are keys the core adds: the outer Option says
      whether the key is present, and `link`'s inner Option is the URL or None. */
  datatype ArticleRec = ArticleRec(
    pmid: string,
    title: string,
    pubDate: PubDate,
    abstractField: Abstract,
    ids: seq<string>,
    link: Option<Option<string>>,
    pubDatetime: Option<DateTriple>)

  /** A citation document: the articles in `citedBy` claim to cite `pmid`. */
  datatype Relation = Relation(pmid: string, citedBy: seq<string>)

  /** An entry of the citation view, keyed by the source PMID. */
  datatype Citation = Citation(title: string, citedBy: seq<string>, year: Option<int>, link: Option<string>)

  /** `'Year' in date`: only such articles enter the timeline and the time series. */
  predicate HasYear(a: ArticleRec) {
    a.pubDate.year.Some?
  }
}
