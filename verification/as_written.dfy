/** The two formatting paths of the renderer that raise as the Ruby text is
    written, kept beside the corrected definitions the rest of the model
    uses, with the inputs on which the two differ. */
module Iso690AsWritten {
  import opened Wrappers
  import opened Text
  import opened Bibitem
  import opened Iso690Render

  /** The Ruby exceptions the two paths raise. */
  datatype RubyError =
    | NoMethodError   // `nil.upcase`, or the call `given ""` (render.rb:35)
    | NameError       // the undefined local `r` in `r.text` (render.rb:96)

  /** `extract_personname` as written: the third branch of the `front`
      choice calls `given ""`, a method that does not exist, so any person
      with initials and no complete name raises. */
  function ExtractPersonNameAsWritten(person: Person): (r: Result<string, RubyError>)
    ensures r.Failure? <==>
      person.completeName.None? && (person.surname.None? || |person.initials| > 0)
  {
    match person.completeName
    case Some(name) => Success(name)
    case None =>
      match person.surname
      case None => Failure(NoMethodError)
      case Some(surname) =>
        if |person.forenames| == 0 && |person.initials| == 0 then Success(Upper(surname) + ", ")
        else if |person.initials| == 0 then Success(Upper(surname) + ", " + Join(person.forenames, " "))
        else Failure(NoMethodError)
  }

  /** Where the written code does not raise, it agrees with the corrected
      definition; it raises on exactly the people with initials. */
  lemma PersonNameAsWrittenAgrees(person: Person)
    requires person.completeName.None? && person.surname.Some?
    ensures |person.initials| == 0 ==>
      ExtractPersonNameAsWritten(person).Success? &&
      ExtractPersonNameAsWritten(person).value == ExtractPersonName(person).value
    ensures |person.initials| > 0 ==>
      ExtractPersonNameAsWritten(person).Failure? && ExtractPersonName(person).Success?
  {
  }

  /** "J. Smith" without forenames: the written code raises, the corrected
      definition gives "SMITH, J". */
  lemma InitialsOnlyCounterexample()
    ensures ExtractPersonNameAsWritten(Person(None, Some("Smith"), [], ["J"])) == Failure(NoMethodError)
    ensures ExtractPersonName(Person(None, Some("Smith"), [], ["J"])) == Success("SMITH, J")
  {
    assert Upper("Smith") == "SMITH" by {
      assert |Upper("Smith")| == 5;
      assert UpperChar('S') == 'S' && UpperChar('m') == 'M' && UpperChar('i') == 'I';
      assert UpperChar('t') == 'T' && UpperChar('h') == 'H';
    }
    assert GivenNames(Person(None, Some("Smith"), [], ["J"])) == "J";
    assert "SMITH" + ", " + "J" == "SMITH, J";
  }

  /** `series` as written: a formatted reference reaches `r.text`, where
      `r` is undefined. */
  function SeriesTextAsWritten(ss: seq<Series>, recordType: string): (r: Result<string, RubyError>)
    ensures r.Failure? <==> SelectSeries(ss).Some? && SelectSeries(ss).value.formattedRef.Some?
    ensures r.Success? ==> r.value == SeriesText(ss, recordType)
  {
    match SelectSeries(ss)
    case Some(s) =>
      if s.formattedRef.Some? then Failure(NameError) else Success(SeriesText(ss, recordType))
    case None => Success(SeriesText(ss, recordType))
  }

  /** A series with a formatted reference: the written code raises, the
      corrected definition returns the reference. */
  lemma FormattedRefCounterexample()
    ensures SeriesTextAsWritten([Series(None, Some("Notes 12"), None, None, None)], "book") == Failure(NameError)
    ensures SeriesText([Series(None, Some("Notes 12"), None, None, None)], "book") == "Notes 12"
  {
  }
}
