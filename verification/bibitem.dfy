/** The bibliographic record the renderer reads, as typed values in place
    of the markup tree. Every child the renderer looks up with `at` is an
    `Option`; every child it iterates with `xpath` is a sequence in
    document order. */
module Bibitem {
  import opened Wrappers

  datatype Organization = Organization(name: Option<string>)

  /** A person is named either by one complete name or by a surname with
      forenames and initials. */
  datatype Person = Person(
    completeName: Option<string>,
    surname: Option<string>,
    forenames: seq<string>,
    initials: seq<string>)

  /** A contributor with its role (`author`, `publisher`, ...); the record
      format expects exactly one of organization and person, but neither
      or both can occur. */
  datatype Contributor = Contributor(
    role: string,
    organization: Option<Organization>,
    person: Option<Person>)

  datatype Date = Date(dateType: Option<string>, text: string)

  datatype Series = Series(
    seriesType: Option<string>,
    formattedRef: Option<string>,
    title: Option<string>,
    number: Option<string>,
    partNumber: Option<string>)

  datatype DocIdentifier = DocIdentifier(idType: Option<string>, text: string)

  /** One `bibitem`: its `type` attribute and its children. */
  datatype Record = Record(
    recordType: Option<string>,
    contributors: seq<Contributor>,
    title: Option<string>,
    medium: Option<string>,
    edition: Option<string>,
    place: Option<string>,
    dates: seq<Date>,
    series: seq<Series>,
    identifiers: seq<DocIdentifier>,
    accessLocation: Option<string>)

  /** A record with no attribute and no children. */
  const EmptyRecord: Record := Record(None, [], None, None, None, None, [], [], [], None)
}
