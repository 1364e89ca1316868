/** The ISO 690 citation renderer: each field of a record is looked up,
    formatted, wrapped in its punctuation and appended in a fixed order.

    Where the Ruby text cannot run as written, the evident intent of the
    surrounding lines is modelled; each such choice is marked "Intent:". */
module Iso690Render {
  import opened Wrappers
  import opened Text
  import opened Query
  import opened Bibitem

  /** The one failure the renderer can raise on a record: a person with
      neither a complete name nor a surname (`nil.upcase`). */
  datatype RenderError = MissingSurname

  /** The ordinal spell-out (`spellout-ordinal` of a number rule set) is a
      locale-dependent library call, so it is a parameter of the model. */
  type Spellout = nat -> string

  // ---------------------------------------------------------------- names

  /** `multiplenames`: "A", "A and B", "A, B and C" (no serial comma). */
  function MultipleNames(names: seq<string>): (r: string)
    ensures |names| == 0 ==> r == ""
    ensures |names| == 1 ==> r == names[0]
  {
    if |names| == 0 then ""
    else if |names| == 1 then names[0]
    else if |names| == 2 then names[0] + " and " + names[1]
    else Join(names[..|names| - 1], ", ") + " and " + names[|names| - 1]
  }

  /** `extract_orgname`: the organization's name, `"--"` when it has none. */
  function ExtractOrgName(org: Organization): (r: string)
    ensures org.name.Some? ==> r == org.name.value
    ensures org.name.None? ==> r == "--"
  {
    org.name.GetOr("--")
  }

  /** The given-name part of a structured person name. Intent (line 35,
      which calls `given` as a method): the list built at lines 27-29, that
      is the forenames, or the initials when there are no forenames,
      joined by spaces. */
  function GivenNames(person: Person): (r: string)
    ensures |person.forenames| > 0 ==> person.forenames[0] <= r
    ensures |person.forenames| == 1 ==> r == person.forenames[0]
    ensures |person.forenames| == 0 && |person.initials| > 0 ==> person.initials[0] <= r
    ensures |person.forenames| == 0 && |person.initials| == 1 ==> r == person.initials[0]
    ensures |person.forenames| == 0 && |person.initials| == 0 ==> r == ""
  {
    Join(if |person.forenames| > 0 then person.forenames else person.initials, " ")
  }

  /** `extract_personname`: the complete name verbatim, else
      "SURNAME, given names". Intent: `surname.upcase` upper-cases the
      surname's text. */
  function ExtractPersonName(person: Person): (r: Result<string, RenderError>)
    ensures r.Failure? <==> person.completeName.None? && person.surname.None?
    ensures person.completeName.Some? ==> r == Success(person.completeName.value)
    ensures person.completeName.None? && person.surname.Some? ==>
      r == Success(Upper(person.surname.value) + ", " + GivenNames(person))
  {
    match person.completeName
    case Some(name) => Success(name)
    case None =>
      match person.surname
      case None => Failure(MissingSurname)
      case Some(surname) => Success(Upper(surname) + ", " + GivenNames(person))
  }

  /** `extractname`: an organization wins over a person; a contributor with
      neither is rendered `"--"`. */
  function ExtractName(c: Contributor): (r: Result<string, RenderError>)
    ensures c.organization.Some? ==> r == Success(ExtractOrgName(c.organization.value))
    ensures c.organization.None? && c.person.Some? ==> r == ExtractPersonName(c.person.value)
    ensures c.organization.None? && c.person.None? ==> r == Success("--")
  {
    if c.organization.Some? then Success(ExtractOrgName(c.organization.value))
    else if c.person.Some? then ExtractPersonName(c.person.value)
    else Success("--")
  }

  /** The names of `cs` in order; fails as soon as one name cannot be formed. */
  function ExtractNames(cs: seq<Contributor>): (r: Result<seq<string>, RenderError>)
    ensures r.Success? <==> forall i :: 0 <= i < |cs| ==> ExtractName(cs[i]).Success?
    ensures r.Success? ==> |r.value| == |cs|
    ensures r.Success? ==> forall i :: 0 <= i < |cs| ==> r.value[i] == ExtractName(cs[i]).value
    decreases |cs|
  {
    if |cs| == 0 then Success([])
    else
      var first :- ExtractName(cs[0]);
      var rest :- ExtractNames(cs[1..]);
      Success([first] + rest)
  }

  /** The roles tried for the creator names, highest priority first. */
  const CreatorRoles: seq<string> :=
    ["author", "performer", "publisher", "adapter", "translator", "distributor"]

  /** `contributor[role = '...']`: the contributors with that role, in order. */
  function WithRole(cs: seq<Contributor>, role: string): seq<Contributor> {
    Filter(cs, (c: Contributor) => c.role == role)
  }

  /** The contributors of the first role in `roles` that has any; empty
      when none has. */
  function FirstPopulatedRole(cs: seq<Contributor>, roles: seq<string>): (r: seq<Contributor>)
    ensures r == [] <==> forall k :: 0 <= k < |roles| ==> WithRole(cs, roles[k]) == []
    ensures r != [] ==>
      exists k :: 0 <= k < |roles| && r == WithRole(cs, roles[k]) &&
        forall j :: 0 <= j < k ==> WithRole(cs, roles[j]) == []
    decreases |roles|
  {
    if |roles| == 0 then []
    else
      var group := WithRole(cs, roles[0]);
      if group != [] then group
      else
        var r := FirstPopulatedRole(cs, roles[1..]);
        assert forall k :: 1 <= k < |roles| ==> roles[k] == roles[1..][k - 1];
        r
  }

  /** The creator group of `creatornames`. Intent (lines 49-54): the `||`
      chain picks the first role that has contributors; roles are never merged. */
  function SelectCreators(cs: seq<Contributor>): seq<Contributor> {
    FirstPopulatedRole(cs, CreatorRoles)
  }

  /** `creatornames`: the names of the selected creator group, joined. */
  function CreatorNames(cs: seq<Contributor>): (r: Result<string, RenderError>)
    ensures r.Success? <==> ExtractNames(SelectCreators(cs)).Success?
    ensures r.Success? ==> r.value == MultipleNames(ExtractNames(SelectCreators(cs)).value)
  {
    var names :- ExtractNames(SelectCreators(cs));
    Success(MultipleNames(names))
  }

  // -------------------------------------------------------------- fields

  /** `edition`: absent gives "", a numeral is spelled out as an ordinal,
      any other text is kept. Intent: the digit test and `to_i` apply to
      the edition's text. */
  function Edition(edition: Option<string>, spell: Spellout): (r: string)
    ensures edition.None? ==> r == ""
    ensures edition.Some? && !IsNumeral(edition.value) ==> r == edition.value
    ensures edition.Some? && IsNumeral(edition.value) ==> r == spell(DecimalValue(edition.value))
  {
    match edition
    case None => ""
    case Some(text) => if IsNumeral(text) then spell(DecimalValue(text)) else text
  }

  predicate IsPublisherOrganization(c: Contributor) {
    c.role == "publisher" && c.organization.Some? && c.organization.value.name.Some?
  }

  /** `contributor[role = 'publisher']/organization/name`, first match. */
  function PublisherName(cs: seq<Contributor>): (r: Option<string>)
    ensures r.None? <==> forall i :: 0 <= i < |cs| ==> !IsPublisherOrganization(cs[i])
    ensures r.Some? ==>
      exists i :: 0 <= i < |cs| && IsPublisherOrganization(cs[i]) &&
        cs[i].organization.value.name.value == r.value &&
        forall j :: 0 <= j < i ==> !IsPublisherOrganization(cs[j])
  {
    match First(cs, IsPublisherOrganization)
    case None => None
    case Some(c) => Some(c.organization.value.name.value)
  }

  /** `placepub`: "place: publisher", or whichever of the two exists. */
  function PlacePub(place: Option<string>, cs: seq<Contributor>): (r: string)
    ensures place.Some? && PublisherName(cs).Some? ==> r == place.value + ": " + PublisherName(cs).value
    ensures place.Some? && PublisherName(cs).None? ==> r == place.value
    ensures place.None? && PublisherName(cs).Some? ==> r == PublisherName(cs).value
    ensures place.None? && PublisherName(cs).None? ==> r == ""
  {
    var publisher := PublisherName(cs);
    (if place.Some? then place.value else "")
    + (if place.Some? && publisher.Some? then ": " else "")
    + (if publisher.Some? then publisher.value else "")
  }

  predicate IsPublished(d: Date) {
    d.dateType == Some("published")
  }

  /** `date[@type = 'published']`: the text of the first published date. */
  function PublishedDate(dates: seq<Date>): (r: Option<string>)
    ensures r.None? <==> forall i :: 0 <= i < |dates| ==> !IsPublished(dates[i])
    ensures r.Some? ==>
      exists i :: 0 <= i < |dates| && IsPublished(dates[i]) && dates[i].text == r.value &&
        forall j :: 0 <= j < i ==> !IsPublished(dates[j])
  {
    match First(dates, IsPublished)
    case None => None
    case Some(d) => Some(d.text)
  }

  predicate IsMainSeries(s: Series) {
    s.seriesType == Some("main")
  }

  predicate IsUntypedSeries(s: Series) {
    s.seriesType.None?
  }

  /** The series node: the first typed `main`, else the first untyped one,
      else the first of any type. */
  function SelectSeries(ss: seq<Series>): (r: Option<Series>)
    ensures r.None? <==> |ss| == 0
    ensures r.Some? ==> r.value in ss
    ensures (exists i :: 0 <= i < |ss| && IsMainSeries(ss[i])) ==>
      r.Some? && IsMainSeries(r.value) && r == First(ss, IsMainSeries)
    ensures (forall i :: 0 <= i < |ss| ==> !IsMainSeries(ss[i])) && (exists i :: 0 <= i < |ss| && IsUntypedSeries(ss[i])) ==>
      r.Some? && IsUntypedSeries(r.value) && r == First(ss, IsUntypedSeries)
    ensures (forall i :: 0 <= i < |ss| ==> !IsMainSeries(ss[i]) && !IsUntypedSeries(ss[i])) && |ss| > 0 ==>
      r == Some(ss[0])
  {
    var main := First(ss, IsMainSeries);
    if main.Some? then main
    else
      var untyped := First(ss, IsUntypedSeries);
      if untyped.Some? then untyped
      else if |ss| == 0 then None
      else Some(ss[0])
  }

  /** The title part of a series: italic exactly when the record type is an
      included work. */
  function SeriesTitle(s: Series, recordType: string): (r: string)
    ensures r == "" <==> s.title.None? || s.title.value == ""
    ensures r != "" && Included(recordType) ==>
      |r| == |s.title.value| + 9 && r[..4] == " <I>" && r[4..|r| - 5] == s.title.value && r[|r| - 5..] == "</I>."
    ensures r != "" && !Included(recordType) ==>
      |r| == |s.title.value| + 2 && r[0] == ' ' && r[1..|r| - 1] == s.title.value && r[|r| - 1] == '.'
  {
    match s.title
    case None => ""
    case Some(t) => if Included(recordType) then Wrap(t, " <I>", "</I>.") else Wrap(t)
  }

  /** The text of the chosen series: its formatted reference alone if it
      has one (intent at line 96: `f.text`), otherwise title, " number"
      and ".partnumber". */
  function SeriesEntry(s: Series, recordType: string): (r: string)
    ensures s.formattedRef.Some? ==> r == s.formattedRef.value
  {
    match s.formattedRef
    case Some(f) => f
    case None =>
      SeriesTitle(s, recordType)
      + (if s.number.Some? then " " + s.number.value else "")
      + (if s.partNumber.Some? then "." + s.partNumber.value else "")
  }

  /** `series`: the chosen series' text, "" when the record has no series. */
  function SeriesText(ss: seq<Series>, recordType: string): (r: string)
    ensures |ss| == 0 ==> r == ""
    ensures |ss| > 0 ==> r == SeriesEntry(SelectSeries(ss).value, recordType)
  {
    match SelectSeries(ss)
    case None => ""
    case Some(s) => SeriesEntry(s, recordType)
  }

  /** One identifier: "type text", or the text alone when untyped. */
  function IdentifierText(id: DocIdentifier): string {
    (if id.idType.Some? then id.idType.value + " " else "") + id.text
  }

  function IdentifierTexts(ids: seq<DocIdentifier>): (r: seq<string>)
    ensures |r| == |ids|
    ensures forall i :: 0 <= i < |ids| ==> r[i] == IdentifierText(ids[i])
  {
    seq(|ids|, i requires 0 <= i < |ids| => IdentifierText(ids[i]))
  }

  /** `standardidentifier`: every identifier in document order, joined by ". ". */
  function StandardIdentifier(ids: seq<DocIdentifier>): (r: string)
    ensures |ids| == 0 ==> r == ""
    ensures |ids| == 1 ==> r == IdentifierText(ids[0])
  {
    Join(IdentifierTexts(ids), ". ")
  }

  /** `accessLocation`: the access location's text, "" when absent. */
  function AccessLocation(rec: Record): (r: string)
    ensures rec.accessLocation.None? ==> r == ""
    ensures rec.accessLocation.Some? ==> r == rec.accessLocation.value
  {
    rec.accessLocation.GetOr("")
  }

  /** `included`: the record types whose titles are parts of a larger work. */
  predicate Included(recordType: string)
    ensures Included(recordType) <==> recordType in ["article", "presentation"]
  {
    recordType == "article" || recordType == "presentation"
  }

  /** `wrap`: nothing for empty text, else the text between its delimiters. */
  function Wrap(text: string, startDelim: string := " ", endDelim: string := "."): (r: string)
    ensures r == "" <==> text == ""
  {
    if text == "" then "" else startDelim + text + endDelim
  }

  /** The `type` attribute, `"book"` when absent. */
  function RecordType(rec: Record): (r: string)
    ensures rec.recordType.None? ==> r == "book"
    ensures rec.recordType.Some? ==> r == rec.recordType.value
  {
    rec.recordType.GetOr("book")
  }

  // ------------------------------------------------------------ assembly

  /** The text of each citation field before it is wrapped, and whether the
      main title is set in italics. */
  datatype CitationText = CitationText(
    creators: string,
    title: string,
    italicTitle: bool,
    medium: string,
    edition: string,
    placePub: string,
    date: string,
    series: string,
    identifiers: string,
    accessLocation: string)

  /** Each field wrapped in its punctuation, in the fixed order of `parse`:
      creators, title, medium, edition, place and publisher, date, series,
      identifiers, access location. */
  function Assemble(c: CitationText): (r: string)
    ensures r == "" <==>
      c.creators == "" && c.title == "" && c.medium == "" && c.edition == "" &&
      c.placePub == "" && c.date == "" && c.series == "" && c.identifiers == "" &&
      c.accessLocation == ""
  {
    Wrap(c.creators)
    + (if c.italicTitle then Wrap(c.title, " <I>", "</I>.") else Wrap(c.title))
    + Wrap(c.medium, " [", "].")
    + Wrap(c.edition)
    + Wrap(c.placePub)
    + Wrap(c.date)
    + Wrap(c.series)
    + Wrap(c.identifiers)
    + Wrap(c.accessLocation, "At: ", ".")
  }

  /** The field texts of a record whose creator names are `names`. The main
      title is italic when the record type is NOT an included work, as
      line 139 is written. Intent: `series` receives the record type and
      its text is wrapped plainly (line 144); the access location is
      wrapped as "At: ...". (line 146). */
  function CitationFields(rec: Record, names: string, spell: Spellout): (c: CitationText)
    ensures c.italicTitle <==> !Included(RecordType(rec))
  {
    var recordType := RecordType(rec);
    CitationText(
      names,
      rec.title.GetOr(""),
      !Included(recordType),
      rec.medium.GetOr(""),
      Edition(rec.edition, spell),
      PlacePub(rec.place, rec.contributors),
      PublishedDate(rec.dates).GetOr(""),
      SeriesText(rec.series, recordType),
      StandardIdentifier(rec.identifiers),
      AccessLocation(rec))
  }

  /** `parse`: the citation of a record, or the error raised while naming
      its creators. */
  function Parse(rec: Record, spell: Spellout): (r: Result<string, RenderError>)
    ensures r.Success? <==> CreatorNames(rec.contributors).Success?
  {
    var names :- CreatorNames(rec.contributors);
    Success(Assemble(CitationFields(rec, names, spell)))
  }
}
