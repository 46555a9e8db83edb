/** The abstract normaliser (app.py lines 27-33), on the Abstract field. */
module Abstracts {
  import opened Wrappers
  import opened Records

  /** The Abstract that `fix_abstract` leaves behind: `{'AbstractText': " "}`
      when the field is missing or "", else `AbstractText[0]`, which raises
      IndexError on an empty list or string (and takes the first character
      of a text that is already a string). */
  function NormalAbstract(a: Abstract): (r: Result<Abstract, Error>)
    ensures r.Ok? ==> r.value.Text?
    ensures r.Err? <==> (a.Sections? && a.texts == []) || (a.Text? && a.text == "")
    ensures r.Err? ==> r.error == EmptyAbstractText
  {
    match a
    case NoAbstract => Ok(Text(" "))
    case EmptyAbstract => Ok(Text(" "))
    case Sections(texts) => if texts == [] then Err(EmptyAbstractText) else Ok(Text(texts[0]))
    case Text(text) => if text == "" then Err(EmptyAbstractText) else Ok(Text(text[..1]))
  }

  /** An absent or empty abstract becomes a single space; stored sections
      are replaced by the first one, the others are dropped. */
  lemma NormalAbstractCases(a: Abstract)
    ensures a.NoAbstract? || a.EmptyAbstract? ==> NormalAbstract(a) == Ok(Text(" "))
    ensures a.Sections? && a.texts != [] ==> NormalAbstract(a) == Ok(Text(a.texts[0]))
  {
  }

  /** The normalisation is not idempotent: applied a second time it keeps
      only the first character of the first section. */
  lemma NormalAbstractTwice(first: string, rest: seq<string>)
    requires first != ""
    ensures NormalAbstract(Sections([first] + rest)) == Ok(Text(first))
    ensures NormalAbstract(NormalAbstract(Sections([first] + rest)).value) == Ok(Text(first[..1]))
  {
  }
}
