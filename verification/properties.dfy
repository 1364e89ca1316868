/** Properties of the ISO 690 renderer that relate several calls, or relate
    an operation to an independent description of what it should produce. */
module Iso690Properties {
  import opened Wrappers
  import opened Text
  import opened Query
  import opened Bibitem
  import opened Iso690Render

  // ---------------------------------------------------------------- names

  /** From two names on, the phrase is the comma-joined list of all but the
      last name, then " and " and the last: the two-name case is no exception. */
  lemma MultipleNamesLastJoinedByAnd(names: seq<string>)
    requires |names| >= 2
    ensures MultipleNames(names) == Join(names[..|names| - 1], ", ") + " and " + names[|names| - 1]
  {
    if |names| == 2 {
      assert names[..1] == [names[0]];
    }
  }

  /** Read from the front: a name followed by a list of at least two names
      is that name, ", ", and the phrase for the rest. */
  lemma MultipleNamesCons(name: string, rest: seq<string>)
    requires |rest| >= 2
    ensures MultipleNames([name] + rest) == name + ", " + MultipleNames(rest)
  {
    var names := [name] + rest;
    var front := rest[..|rest| - 1];
    assert names[..|names| - 1] == [name] + front;
    assert ([name] + front)[1..] == front;
    assert Join([name] + front, ", ") == name + ", " + Join(front, ", ");
    MultipleNamesLastJoinedByAnd(names);
    MultipleNamesLastJoinedByAnd(rest);
  }

  /** No serial comma: when no name contains a comma, n >= 2 names produce
      exactly n - 2 commas (a serial comma would make n - 1). */
  lemma MultipleNamesCommas(names: seq<string>)
    requires forall i :: 0 <= i < |names| ==> ',' !in names[i]
    ensures Occurrences(MultipleNames(names), ',') == if |names| >= 2 then |names| - 2 else 0
  {
    var n := |names|;
    if n == 1 {
      OccurrencesAbsent(names[0], ',');
    } else if n >= 2 {
      var front := names[..n - 1];
      MultipleNamesLastJoinedByAnd(names);
      assert Occurrences(", ", ',') == 1 by {
        assert ", "[1..] == " ";
        assert " "[1..] == "";
      }
      assert Occurrences(" and ", ',') == 0 by {
        OccurrencesAbsent(" and ", ',');
      }
      OccurrencesJoin(front, ", ", ',');
      OccurrencesAbsent(names[n - 1], ',');
      OccurrencesConcat(Join(front, ", "), " and ", ',');
      OccurrencesConcat(Join(front, ", ") + " and ", names[n - 1], ',');
    }
  }

  lemma MultipleNamesExamples()
    ensures MultipleNames([]) == ""
    ensures MultipleNames(["A"]) == "A"
    ensures MultipleNames(["A", "B"]) == "A and B"
    ensures MultipleNames(["A", "B", "C"]) == "A, B and C"
  {
    assert ["A", "B", "C"][..2] == ["A", "B"];
    assert ["A", "B"][1..] == ["B"];
  }

  /** A structured person name starts with the upper-cased surname, which
      holds no lower-case letter, followed by ", "; the forenames, when
      present, hide the initials. */
  lemma PersonNameSurnameFirst(person: Person)
    requires person.completeName.None? && person.surname.Some?
    ensures ExtractPersonName(person).Success?
    ensures var s := person.surname.value; var text := ExtractPersonName(person).value;
      |text| >= |s| + 2 && text[..|s|] == Upper(s) && text[|s|..|s| + 2] == ", " &&
      forall i :: 0 <= i < |s| ==> !IsLower(text[i])
    ensures |person.forenames| > 0 ==>
      ExtractPersonName(person) == ExtractPersonName(person.(initials := []))
  {
    UpperProperties(person.surname.value);
  }

  /** One more forename appends a space and that forename. */
  lemma GivenNamesSnocForename(person: Person, name: string)
    requires |person.forenames| > 0
    ensures GivenNames(person.(forenames := person.forenames + [name]))
      == GivenNames(person) + " " + name
  {
    JoinSnoc(person.forenames, name, " ");
  }

  /** Without forenames, one more initial appends a space and that initial. */
  lemma GivenNamesSnocInitial(person: Person, initial: string)
    requires |person.forenames| == 0 && |person.initials| > 0
    ensures GivenNames(person.(initials := person.initials + [initial]))
      == GivenNames(person) + " " + initial
  {
    JoinSnoc(person.initials, initial, " ");
  }

  /** n given names that hold no space are separated by exactly n - 1 spaces. */
  lemma GivenNamesSpaces(person: Person)
    requires var given := if |person.forenames| > 0 then person.forenames else person.initials;
      |given| > 0 && forall i :: 0 <= i < |given| ==> ' ' !in given[i]
    ensures var given := if |person.forenames| > 0 then person.forenames else person.initials;
      Occurrences(GivenNames(person), ' ') == |given| - 1
  {
    var given := if |person.forenames| > 0 then person.forenames else person.initials;
    OccurrencesJoin(given, " ", ' ');
  }

  lemma PersonNameExamples()
    ensures ExtractPersonName(Person(None, Some("Smith"), ["John", "Q"], [])) == Success("SMITH, John Q")
    ensures ExtractPersonName(Person(None, Some("Smith"), [], ["J", "Q"])) == Success("SMITH, J Q")
    ensures ExtractPersonName(Person(None, Some("Lee"), [], [])) == Success("LEE, ")
    ensures ExtractPersonName(Person(Some("Lee Smith"), Some("Lee"), ["Ann"], []))
      == Success("Lee Smith")
    ensures ExtractPersonName(Person(None, None, ["Ann"], [])) == Failure(MissingSurname)
  {
    UpperExamples();
    GivenNamesExamples();
    assert "SMITH" + ", " + "John Q" == "SMITH, John Q";
    assert "SMITH" + ", " + "J Q" == "SMITH, J Q";
    assert "LEE" + ", " + "" == "LEE, ";
  }

  lemma UpperExamples()
    ensures Upper("Smith") == "SMITH" && Upper("Lee") == "LEE"
  {
    assert Upper("Smith") == "SMITH" by {
      assert |Upper("Smith")| == 5;
      assert UpperChar('S') == 'S' && UpperChar('m') == 'M' && UpperChar('i') == 'I';
      assert UpperChar('t') == 'T' && UpperChar('h') == 'H';
    }
    assert Upper("Lee") == "LEE" by {
      assert |Upper("Lee")| == 3;
      assert UpperChar('L') == 'L' && UpperChar('e') == 'E';
    }
  }

  lemma GivenNamesExamples()
    ensures GivenNames(Person(None, Some("Smith"), ["John", "Q"], [])) == "John Q"
    ensures GivenNames(Person(None, Some("Smith"), [], ["J", "Q"])) == "J Q"
    ensures GivenNames(Person(None, Some("Lee"), [], [])) == ""
  {
    assert ["John", "Q"][1..] == ["Q"];
    assert ["J", "Q"][1..] == ["Q"];
  }

  /** An organization wins over a person, whatever the person is. */
  lemma OrganizationWins(c: Contributor, p: Option<Person>)
    requires c.organization.Some?
    ensures ExtractName(c) == ExtractName(c.(person := p))
    ensures c.organization.value.name.None? ==> ExtractName(c) == Success("--")
  {
  }

  // ------------------------------------------------------------- creators

  /** The selected creators are all the contributors of one creator role,
      in order, and no contributor of another role is merged in. */
  lemma CreatorsShareOneRole(cs: seq<Contributor>)
    requires SelectCreators(cs) != []
    ensures exists k :: 0 <= k < |CreatorRoles| && SelectCreators(cs) == WithRole(cs, CreatorRoles[k]) &&
                        forall i :: 0 <= i < |SelectCreators(cs)| ==> SelectCreators(cs)[i].role == CreatorRoles[k]
  {
    var sel := SelectCreators(cs);
    var k :| 0 <= k < |CreatorRoles| && sel == WithRole(cs, CreatorRoles[k]);
    assert forall i :: 0 <= i < |sel| ==> sel[i].role == CreatorRoles[k];
  }

  /** Authors, when there are any, are the creators. */
  lemma AuthorsWin(cs: seq<Contributor>)
    requires WithRole(cs, "author") != []
    ensures SelectCreators(cs) == WithRole(cs, "author")
  {
  }

  /** Appending a contributor whose role is not a creator role leaves the
      creator names unchanged. */
  lemma {:induction false} CreatorNamesIgnoreOtherRoles(cs: seq<Contributor>, c: Contributor)
    requires c.role !in CreatorRoles
    ensures CreatorNames(cs + [c]) == CreatorNames(cs)
  {
    forall role | role in CreatorRoles
      ensures WithRole(cs + [c], role) == WithRole(cs, role)
    {
      var p := (x: Contributor) => x.role == role;
      FilterConcat(cs, [c], p);
      assert Filter([c], p) == [];
    }
    assert forall k :: 0 <= k < |CreatorRoles| ==> CreatorRoles[k] in CreatorRoles;
    assert SelectCreators(cs + [c]) == SelectCreators(cs) by {
      SameGroupsSameSelection(cs + [c], cs, CreatorRoles);
    }
  }

  lemma {:induction false} SameGroupsSameSelection(cs: seq<Contributor>, ds: seq<Contributor>, roles: seq<string>)
    requires forall k :: 0 <= k < |roles| ==> WithRole(cs, roles[k]) == WithRole(ds, roles[k])
    ensures FirstPopulatedRole(cs, roles) == FirstPopulatedRole(ds, roles)
    decreases |roles|
  {
    if |roles| > 0 {
      assert forall k :: 0 <= k < |roles[1..]| ==> roles[1..][k] == roles[k + 1];
      SameGroupsSameSelection(cs, ds, roles[1..]);
    }
  }

  // --------------------------------------------------------------- fields

  /** A printed number as edition is spelled out as that number's ordinal. */
  lemma EditionOrdinal(n: nat, spell: Spellout)
    ensures Edition(Some(Decimal(n)), spell) == spell(n)
  {
    DecimalRoundTrip(n);
  }

  /** Text with any non-digit, including the empty text, is kept verbatim. */
  lemma EditionVerbatim(text: string, spell: Spellout)
    requires text == "" || exists i :: 0 <= i < |text| && !IsDigit(text[i])
    ensures Edition(Some(text), spell) == text
  {
  }

  /** The publisher is looked up among the publisher-role contributors
      alone, so the creator selection never affects it. */
  lemma PlacePubUsesPublishersOnly(place: Option<string>, cs: seq<Contributor>)
    ensures PlacePub(place, cs) == PlacePub(place, WithRole(cs, "publisher"))
  {
    FirstOfFilter(cs, IsPublisherOrganization, (c: Contributor) => c.role == "publisher");
  }

  /** Both present gives "place: publisher"; the result is empty exactly
      when neither contributes text. */
  lemma PlacePubEmpty(place: Option<string>, cs: seq<Contributor>)
    ensures PlacePub(place, cs) == "" <==>
      place.GetOr("") == "" && PublisherName(cs).GetOr("") == "" &&
      !(place.Some? && PublisherName(cs).Some?)
  {
  }

  /** With no formatted reference, a titled series starts with its title,
      italic exactly when the record type is an included work. */
  lemma SeriesTitleItalics(s: Series, recordType: string)
    requires s.formattedRef.None? && s.title.Some? && s.title.value != ""
    ensures var t := s.title.value;
      var head := if Included(recordType) then " <I>" + t + "</I>." else " " + t + ".";
      |SeriesEntry(s, recordType)| >= |head| && SeriesEntry(s, recordType)[..|head|] == head
  {
  }

  /** A main series is chosen over an untyped one wherever they stand. */
  lemma SeriesMainPreferred(main: Series, untyped: Series, before: seq<Series>, recordType: string)
    requires IsMainSeries(main) && IsUntypedSeries(untyped)
    requires forall i :: 0 <= i < |before| ==> !IsMainSeries(before[i])
    ensures SeriesText(before + [untyped, main], recordType) == SeriesText([main], recordType)
  {
    var ss := before + [untyped, main];
    assert ss[|before| + 1] == main;
    assert forall i :: 0 <= i < |before| ==> ss[i] == before[i];
  }

  /** Without a formatted reference, a series ends with " number" and then
      ".partnumber", each only when present, after its title part. */
  lemma SeriesNumbering(s: Series, recordType: string)
    requires s.formattedRef.None?
    ensures var numbering := (if s.number.Some? then " " + s.number.value else "")
        + (if s.partNumber.Some? then "." + s.partNumber.value else "");
      var text := SeriesEntry(s, recordType);
      |text| >= |numbering| && text[|text| - |numbering|..] == numbering &&
      text[..|text| - |numbering|] == SeriesTitle(s, recordType)
  {
    var title := SeriesTitle(s, recordType);
    var number := if s.number.Some? then " " + s.number.value else "";
    var part := if s.partNumber.Some? then "." + s.partNumber.value else "";
    assert title + number + part == title + (number + part);
  }

  lemma SeriesExample()
    ensures SeriesText([Series(None, None, Some("Notes"), Some("12"), Some("3"))], "book")
      == " Notes. 12.3"
    ensures SeriesText([Series(None, None, Some("Notes"), Some("12"), None)], "article")
      == " <I>Notes</I>. 12"
    ensures SeriesText([Series(Some("alt"), Some("Notes 12"), Some("Notes"), None, None)], "book")
      == "Notes 12"
  {
    SeriesTitleExamples();
    assert " Notes." + " 12" + ".3" == " Notes. 12.3";
    assert " <I>Notes</I>." + " 12" + "" == " <I>Notes</I>. 12";
  }

  lemma SeriesTitleExamples()
    ensures SeriesTitle(Series(None, None, Some("Notes"), Some("12"), Some("3")), "book") == " Notes."
    ensures SeriesTitle(Series(None, None, Some("Notes"), Some("12"), None), "article")
      == " <I>Notes</I>."
  {
    assert Wrap("Notes") == " Notes.";
    assert Wrap("Notes", " <I>", "</I>.") == " <I>Notes</I>.";
  }

  /** Identifiers appear in document order: one more identifier appends
      ". " and its text. */
  lemma StandardIdentifierSnoc(ids: seq<DocIdentifier>, id: DocIdentifier)
    requires |ids| > 0
    ensures StandardIdentifier(ids + [id]) == StandardIdentifier(ids) + ". " + IdentifierText(id)
  {
    assert IdentifierTexts(ids + [id]) == IdentifierTexts(ids) + [IdentifierText(id)];
    JoinSnoc(IdentifierTexts(ids), IdentifierText(id), ". ");
  }

  /** One segment per identifier: when no type or text holds a full stop,
      n identifiers are separated by exactly n - 1 full stops. */
  lemma StandardIdentifierSegments(ids: seq<DocIdentifier>)
    requires |ids| > 0
    requires forall i :: 0 <= i < |ids| ==> '.' !in ids[i].text
    requires forall i :: 0 <= i < |ids| ==> ids[i].idType.Some? ==> '.' !in ids[i].idType.value
    ensures Occurrences(StandardIdentifier(ids), '.') == |ids| - 1
  {
    var texts := IdentifierTexts(ids);
    forall i | 0 <= i < |texts| ensures '.' !in texts[i] {
      assert texts[i] == IdentifierText(ids[i]);
    }
    assert Occurrences(". ", '.') == 1 by {
      assert ". "[1..] == " ";
      assert " "[1..] == "";
    }
    OccurrencesJoin(texts, ". ", '.');
  }

  lemma StandardIdentifierExample()
    ensures StandardIdentifier([DocIdentifier(Some("ISBN"), "123"), DocIdentifier(None, "456")])
      == "ISBN 123. 456"
  {
    var ids := [DocIdentifier(Some("ISBN"), "123"), DocIdentifier(None, "456")];
    var texts := IdentifierTexts(ids);
    assert texts[0] == IdentifierText(ids[0]) == "ISBN 123";
    assert texts[1] == IdentifierText(ids[1]) == "456";
    assert texts == ["ISBN 123", "456"];
    assert texts[1..] == ["456"];
  }

  // ------------------------------------------------------------- assembly

  /** Non-empty text can be read back from between its delimiters. */
  lemma WrapUnwrap(text: string, startDelim: string, endDelim: string)
    requires text != ""
    ensures var w := Wrap(text, startDelim, endDelim);
      |w| == |startDelim| + |text| + |endDelim| &&
      w[..|startDelim|] == startDelim &&
      w[|startDelim|..|startDelim| + |text|] == text &&
      w[|startDelim| + |text|..] == endDelim
  {
  }


  /** A record with no fields renders as the empty text. */
  lemma ParseEmptyRecord(spell: Spellout)
    ensures Parse(EmptyRecord, spell) == Success("")
  {
    assert SelectCreators([]) == [];
  }

  /** Rendering fails exactly when a selected creator is a person, with no
      organization, who has neither a complete name nor a surname. */
  lemma ParseFails(rec: Record, spell: Spellout)
    ensures Parse(rec, spell).Failure? <==>
      exists c :: c in SelectCreators(rec.contributors) && c.organization.None? && c.person.Some? &&
        c.person.value.completeName.None? && c.person.value.surname.None?
  {
    var sel := SelectCreators(rec.contributors);
    if Parse(rec, spell).Failure? {
      var i :| 0 <= i < |sel| && ExtractName(sel[i]).Failure?;
      assert sel[i] in sel;
    }
  }

  /** The field texts of a record holding only a title. */
  lemma TitleOnlyFields(recordType: Option<string>, title: string, spell: Spellout)
    ensures var rec := EmptyRecord.(recordType := recordType, title := Some(title));
      CitationFields(rec, "", spell) ==
        CitationText("", title, !Included(recordType.GetOr("book")), "", "", "", "", "", "", "")
  {
    var rec := EmptyRecord.(recordType := recordType, title := Some(title));
    assert SeriesText([], RecordType(rec)) == "";
    assert StandardIdentifier([]) == "";
  }

  /** A citation of a title alone is the wrapped title. */
  lemma TitleOnlyAssembled(title: string, italic: bool)
    ensures Assemble(CitationText("", title, italic, "", "", "", "", "", "", "")) ==
      if italic then Wrap(title, " <I>", "</I>.") else Wrap(title)
  {
    var w := if italic then Wrap(title, " <I>", "</I>.") else Wrap(title);
    assert Assemble(CitationText("", title, italic, "", "", "", "", "", "", "")) ==
      "" + w + "" + "" + "" + "" + "" + "" + "";
  }

  /** The main title alone: italic for every type that is not an included
      work (the default `book` among them), plain for articles and
      presentations. */
  lemma ParseTitleOnly(recordType: Option<string>, title: string, spell: Spellout)
    requires title != ""
    ensures var rec := EmptyRecord.(recordType := recordType, title := Some(title));
      Parse(rec, spell) == Success(
        if Included(recordType.GetOr("book")) then " " + title + "." else " <I>" + title + "</I>.")
  {
    var rec := EmptyRecord.(recordType := recordType, title := Some(title));
    assert SelectCreators([]) == [];
    assert CreatorNames([]) == Success("");
    TitleOnlyFields(recordType, title, spell);
    TitleOnlyAssembled(title, !Included(recordType.GetOr("book")));
  }

  /** Without contributors, rendering cannot fail and has no creator names. */
  lemma ParseNoContributors(rec: Record, spell: Spellout)
    requires rec.contributors == []
    ensures Parse(rec, spell) == Success(Assemble(CitationFields(rec, "", spell)))
  {
    assert SelectCreators([]) == [];
    assert CreatorNames([]) == Success("");
  }

  /** The medium alone renders between " [" and "].". */
  lemma ParseMediumOnly(m: string, spell: Spellout)
    ensures Parse(EmptyRecord.(medium := Some(m)), spell) == Success(Wrap(m, " [", "]."))
  {
    var rec := EmptyRecord.(medium := Some(m));
    ParseNoContributors(rec, spell);
    MediumOnlyFields(m, spell);
    MediumOnlyAssembled(m, true);
  }

  lemma MediumOnlyFields(m: string, spell: Spellout)
    ensures CitationFields(EmptyRecord.(medium := Some(m)), "", spell)
      == CitationText("", "", true, m, "", "", "", "", "", "")
  {
    var rec := EmptyRecord.(medium := Some(m));
    assert SeriesText([], RecordType(rec)) == "";
    assert StandardIdentifier([]) == "";
  }

  /** The edition alone renders as its edition text, plainly wrapped. */
  lemma ParseEditionOnly(e: string, spell: Spellout)
    ensures Parse(EmptyRecord.(edition := Some(e)), spell) == Success(Wrap(Edition(Some(e), spell)))
  {
    var rec := EmptyRecord.(edition := Some(e));
    ParseNoContributors(rec, spell);
    EditionOnlyFields(e, spell);
    EditionOnlyAssembled(Edition(Some(e), spell), true);
  }

  lemma EditionOnlyFields(e: string, spell: Spellout)
    ensures CitationFields(EmptyRecord.(edition := Some(e)), "", spell)
      == CitationText("", "", true, "", Edition(Some(e), spell), "", "", "", "", "")
  {
    var rec := EmptyRecord.(edition := Some(e));
    assert SeriesText([], RecordType(rec)) == "";
    assert StandardIdentifier([]) == "";
  }

  /** A place without a publisher renders as the place, plainly wrapped. */
  lemma ParsePlaceOnly(p: string, spell: Spellout)
    ensures Parse(EmptyRecord.(place := Some(p)), spell) == Success(Wrap(p))
  {
    var rec := EmptyRecord.(place := Some(p));
    ParseNoContributors(rec, spell);
    PlaceOnlyFields(p, spell);
    PlacePubOnlyAssembled(p, true);
  }

  lemma PlaceOnlyFields(p: string, spell: Spellout)
    ensures CitationFields(EmptyRecord.(place := Some(p)), "", spell)
      == CitationText("", "", true, "", "", p, "", "", "", "")
  {
    var rec := EmptyRecord.(place := Some(p));
    assert SeriesText([], RecordType(rec)) == "";
    assert StandardIdentifier([]) == "";
  }

  /** The dates render as the published date, plainly wrapped. */
  lemma ParseDatesOnly(ds: seq<Date>, spell: Spellout)
    ensures Parse(EmptyRecord.(dates := ds), spell) == Success(Wrap(PublishedDate(ds).GetOr("")))
  {
    var rec := EmptyRecord.(dates := ds);
    ParseNoContributors(rec, spell);
    DatesOnlyFields(ds, spell);
    DateOnlyAssembled(PublishedDate(ds).GetOr(""), true);
  }

  lemma DatesOnlyFields(ds: seq<Date>, spell: Spellout)
    ensures CitationFields(EmptyRecord.(dates := ds), "", spell)
      == CitationText("", "", true, "", "", "", PublishedDate(ds).GetOr(""), "", "", "")
  {
    var rec := EmptyRecord.(dates := ds);
    assert SeriesText([], RecordType(rec)) == "";
    assert StandardIdentifier([]) == "";
  }

  /** The series render for the record's own type (default `book`), plainly wrapped. */
  lemma ParseSeriesOnly(t: Option<string>, ss: seq<Series>, spell: Spellout)
    ensures Parse(EmptyRecord.(recordType := t, series := ss), spell)
      == Success(Wrap(SeriesText(ss, t.GetOr("book"))))
  {
    var rec := EmptyRecord.(recordType := t, series := ss);
    ParseNoContributors(rec, spell);
    SeriesOnlyFields(t, ss, spell);
    SeriesOnlyAssembled(SeriesText(ss, t.GetOr("book")), !Included(t.GetOr("book")));
  }

  lemma SeriesOnlyFields(t: Option<string>, ss: seq<Series>, spell: Spellout)
    ensures CitationFields(EmptyRecord.(recordType := t, series := ss), "", spell)
      == CitationText("", "", !Included(t.GetOr("book")), "", "", "", "", SeriesText(ss, t.GetOr("book")), "", "")
  {
    var rec := EmptyRecord.(recordType := t, series := ss);
    assert StandardIdentifier([]) == "";
  }

  /** The identifiers render as the joined identifier texts, plainly wrapped. */
  lemma ParseIdentifiersOnly(ids: seq<DocIdentifier>, spell: Spellout)
    ensures Parse(EmptyRecord.(identifiers := ids), spell) == Success(Wrap(StandardIdentifier(ids)))
  {
    var rec := EmptyRecord.(identifiers := ids);
    ParseNoContributors(rec, spell);
    IdentifiersOnlyFields(ids, spell);
    IdentifiersOnlyAssembled(StandardIdentifier(ids), true);
  }

  lemma IdentifiersOnlyFields(ids: seq<DocIdentifier>, spell: Spellout)
    ensures CitationFields(EmptyRecord.(identifiers := ids), "", spell)
      == CitationText("", "", true, "", "", "", "", "", StandardIdentifier(ids), "")
  {
    var rec := EmptyRecord.(identifiers := ids);
    assert SeriesText([], RecordType(rec)) == "";
  }

  /** The access location alone renders between "At: " and ".". */
  lemma ParseAccessLocationOnly(a: string, spell: Spellout)
    ensures Parse(EmptyRecord.(accessLocation := Some(a)), spell) == Success(Wrap(a, "At: ", "."))
  {
    var rec := EmptyRecord.(accessLocation := Some(a));
    ParseNoContributors(rec, spell);
    AccessLocationOnlyFields(a, spell);
    AccessLocationOnlyAssembled(a, true);
  }

  lemma AccessLocationOnlyFields(a: string, spell: Spellout)
    ensures CitationFields(EmptyRecord.(accessLocation := Some(a)), "", spell)
      == CitationText("", "", true, "", "", "", "", "", "", a)
  {
    var rec := EmptyRecord.(accessLocation := Some(a));
    assert SeriesText([], RecordType(rec)) == "";
    assert StandardIdentifier([]) == "";
  }

  /** Creator names come first: the citation is the wrapped creator names
      in front of the citation without them. */
  lemma AssembleCreatorsFirst(c: CitationText)
    ensures Assemble(c) == Wrap(c.creators) + Assemble(c.(creators := ""))
  {
    var w1 := if c.italicTitle then Wrap(c.title, " <I>", "</I>.") else Wrap(c.title);
    RegroupFront(Wrap(c.creators), w1, Wrap(c.medium, " [", "]."), Wrap(c.edition),
      Wrap(c.placePub), Wrap(c.date), Wrap(c.series), Wrap(c.identifiers),
      Wrap(c.accessLocation, "At: ", "."));
  }

  /** The access location comes last: the citation is the citation without
      it, followed by the wrapped access location. */
  lemma AssembleAccessLocationLast(c: CitationText)
    ensures Assemble(c) == Assemble(c.(accessLocation := "")) + Wrap(c.accessLocation, "At: ", ".")
  {
  }

  lemma RegroupFront(w0: string, w1: string, w2: string, w3: string, w4: string,
                     w5: string, w6: string, w7: string, w8: string)
    ensures w0 + w1 + w2 + w3 + w4 + w5 + w6 + w7 + w8 ==
      w0 + ("" + w1 + w2 + w3 + w4 + w5 + w6 + w7 + w8)
  {
    assert w0 + w1 == w0 + ("" + w1);
    assert w0 + w1 + w2 == w0 + ("" + w1 + w2);
    assert w0 + w1 + w2 + w3 == w0 + ("" + w1 + w2 + w3);
    assert w0 + w1 + w2 + w3 + w4 == w0 + ("" + w1 + w2 + w3 + w4);
    assert w0 + w1 + w2 + w3 + w4 + w5 == w0 + ("" + w1 + w2 + w3 + w4 + w5);
    assert w0 + w1 + w2 + w3 + w4 + w5 + w6 == w0 + ("" + w1 + w2 + w3 + w4 + w5 + w6);
    assert w0 + w1 + w2 + w3 + w4 + w5 + w6 + w7 == w0 + ("" + w1 + w2 + w3 + w4 + w5 + w6 + w7);
  }

  /** A rendered record starts with its creator names and ends with its
      access location. */
  lemma ParseEnds(rec: Record, spell: Spellout)
    requires CreatorNames(rec.contributors).Success?
    ensures var text := Parse(rec, spell).value;
      var head := Wrap(CreatorNames(rec.contributors).value);
      var tail := Wrap(AccessLocation(rec), "At: ", ".");
      |text| >= |head| + |tail| && text[..|head|] == head && text[|text| - |tail|..] == tail
  {
    var c := CitationFields(rec, CreatorNames(rec.contributors).value, spell);
    AssembleCreatorsFirst(c);
    AssembleAccessLocationLast(c.(creators := ""));
  }

  /** A record renders as the empty text exactly when every field does. */
  lemma ParseEmptyIff(rec: Record, spell: Spellout)
    requires CreatorNames(rec.contributors).Success?
    ensures Parse(rec, spell).value == "" <==>
      CreatorNames(rec.contributors).value == "" &&
      rec.title.GetOr("") == "" &&
      rec.medium.GetOr("") == "" &&
      Edition(rec.edition, spell) == "" &&
      PlacePub(rec.place, rec.contributors) == "" &&
      PublishedDate(rec.dates).GetOr("") == "" &&
      SeriesText(rec.series, RecordType(rec)) == "" &&
      StandardIdentifier(rec.identifiers) == "" &&
      AccessLocation(rec) == ""
  {
  }

  const Acme := Contributor("author", Some(Organization(Some("ACME"))), None)
  const Iso := Contributor("publisher", Some(Organization(Some("ISO"))), None)

  /** A book by ACME titled Widgets, published by ISO in Geneva in 2020. */
  const WidgetsBook := EmptyRecord.(recordType := Some("book"), contributors := [Acme, Iso],
    title := Some("Widgets"), place := Some("Geneva"), dates := [Date(Some("published"), "2020")])

  lemma WidgetsBookCreators()
    ensures CreatorNames([Acme, Iso]) == Success("ACME")
  {
    var cs := [Acme, Iso];
    assert cs[1..] == [Iso];
    assert [Iso][1..] == [];
    assert WithRole([Iso], "author") == WithRole([], "author") == [];
    assert WithRole(cs, "author") == [Acme] + WithRole([Iso], "author");
    assert SelectCreators(cs) == [Acme];
    assert [Acme][1..] == [];
    assert ExtractName(Acme) == Success("ACME");
    assert ExtractNames([]) == Success([]);
    assert ExtractNames([Acme]) == Success(["ACME"] + []);
  }

  lemma WidgetsBookPublisher()
    ensures PlacePub(Some("Geneva"), [Acme, Iso]) == "Geneva: ISO"
  {
    var cs := [Acme, Iso];
    assert FirstIndex(cs, IsPublisherOrganization) == Some(1) by {
      assert !IsPublisherOrganization(cs[0]);
      assert IsPublisherOrganization(cs[1]);
      assert cs[1..] == [Iso];
      assert FirstIndex(cs[1..], IsPublisherOrganization) == Some(0);
    }
    assert PublisherName(cs) == Some("ISO");
  }

  lemma WidgetsBookFields(spell: Spellout)
    ensures CitationFields(WidgetsBook, "ACME", spell) ==
      CitationText("ACME", "Widgets", true, "", "", "Geneva: ISO", "2020", "", "", "")
  {
    WidgetsBookPublisher();
    assert PublishedDate(WidgetsBook.dates) == Some("2020");
    assert SeriesText([], "book") == "";
    assert StandardIdentifier([]) == "";
  }

  /** The medium alone, between " [" and "].". */
  lemma MediumOnlyAssembled(m: string, italic: bool)
    ensures Assemble(CitationText("", "", italic, m, "", "", "", "", "", "")) == Wrap(m, " [", "].")
  {
    var w := Wrap(m, " [", "].");
    assert Assemble(CitationText("", "", italic, m, "", "", "", "", "", "")) == "" + "" + w + "" + "" + "" + "" + "" + "";
  }

  /** The edition alone, wrapped plainly. */
  lemma EditionOnlyAssembled(m: string, italic: bool)
    ensures Assemble(CitationText("", "", italic, "", m, "", "", "", "", "")) == Wrap(m)
  {
    var w := Wrap(m);
    assert Assemble(CitationText("", "", italic, "", m, "", "", "", "", "")) == "" + "" + "" + w + "" + "" + "" + "" + "";
  }

  /** Place and publisher alone, wrapped plainly. */
  lemma PlacePubOnlyAssembled(m: string, italic: bool)
    ensures Assemble(CitationText("", "", italic, "", "", m, "", "", "", "")) == Wrap(m)
  {
    var w := Wrap(m);
    assert Assemble(CitationText("", "", italic, "", "", m, "", "", "", "")) == "" + "" + "" + "" + w + "" + "" + "" + "";
  }

  /** The date alone, wrapped plainly. */
  lemma DateOnlyAssembled(m: string, italic: bool)
    ensures Assemble(CitationText("", "", italic, "", "", "", m, "", "", "")) == Wrap(m)
  {
    var w := Wrap(m);
    assert Assemble(CitationText("", "", italic, "", "", "", m, "", "", "")) == "" + "" + "" + "" + "" + w + "" + "" + "";
  }

  /** The series text alone, wrapped plainly. */
  lemma SeriesOnlyAssembled(m: string, italic: bool)
    ensures Assemble(CitationText("", "", italic, "", "", "", "", m, "", "")) == Wrap(m)
  {
    var w := Wrap(m);
    assert Assemble(CitationText("", "", italic, "", "", "", "", m, "", "")) == "" + "" + "" + "" + "" + "" + w + "" + "";
  }

  /** The identifiers alone, wrapped plainly. */
  lemma IdentifiersOnlyAssembled(m: string, italic: bool)
    ensures Assemble(CitationText("", "", italic, "", "", "", "", "", m, "")) == Wrap(m)
  {
    var w := Wrap(m);
    assert Assemble(CitationText("", "", italic, "", "", "", "", "", m, "")) == "" + "" + "" + "" + "" + "" + "" + w + "";
  }

  /** The access location alone, between "At: " and ".". */
  lemma AccessLocationOnlyAssembled(m: string, italic: bool)
    ensures Assemble(CitationText("", "", italic, "", "", "", "", "", "", m)) == Wrap(m, "At: ", ".")
  {
    var w := Wrap(m, "At: ", ".");
    assert Assemble(CitationText("", "", italic, "", "", "", "", "", "", m)) == "" + "" + "" + "" + "" + "" + "" + "" + w;
  }

  lemma AllFieldsWrapped()
    ensures Wrap("C") == " C." && Wrap("T") == " T." && Wrap("M", " [", "].") == " [M]."
    ensures Wrap("E") == " E." && Wrap("P") == " P." && Wrap("D") == " D."
    ensures Wrap("S") == " S." && Wrap("I") == " I." && Wrap("A", "At: ", ".") == "At: A."
  {
  }

  /** Every field present and the title plain: the nine fields stand in
      the order creators, title, medium, edition, place and publisher,
      date, series, identifiers, access location, each in its own
      punctuation. */
  lemma AllFieldsAssembled()
    ensures Assemble(CitationText("C", "T", false, "M", "E", "P", "D", "S", "I", "A"))
      == " C. T. [M]. E. P. D. S. I.At: A."
  {
    var c := CitationText("C", "T", false, "M", "E", "P", "D", "S", "I", "A");
    var pieces := " C." + " T." + " [M]." + " E." + " P." + " D." + " S." + " I." + "At: A.";
    assert pieces == " C. T. [M]. E. P. D. S. I.At: A.";
    calc {
      Assemble(c);
      Wrap("C") + Wrap("T") + Wrap("M", " [", "].") + Wrap("E") + Wrap("P") + Wrap("D")
        + Wrap("S") + Wrap("I") + Wrap("A", "At: ", ".");
      { AllFieldsWrapped(); }
      pieces;
    }
  }

  /** A citation with creators, an italic title, place and publisher and a
      date, and nothing else. */
  lemma FourFieldsAssembled(creators: string, title: string, placePub: string, date: string)
    ensures Assemble(CitationText(creators, title, true, "", "", placePub, date, "", "", "")) ==
      Wrap(creators) + Wrap(title, " <I>", "</I>.") + Wrap(placePub) + Wrap(date)
  {
  }

  lemma WidgetsBookWrapped()
    ensures Wrap("ACME") == " ACME."
    ensures Wrap("Widgets", " <I>", "</I>.") == " <I>Widgets</I>."
    ensures Wrap("Geneva: ISO") == " Geneva: ISO."
    ensures Wrap("2020") == " 2020."
  {
  }

  lemma WidgetsBookAssembled()
    ensures Assemble(CitationText("ACME", "Widgets", true, "", "", "Geneva: ISO", "2020", "", "", ""))
      == " ACME. <I>Widgets</I>. Geneva: ISO. 2020."
  {
    var c := CitationText("ACME", "Widgets", true, "", "", "Geneva: ISO", "2020", "", "", "");
    var pieces := " ACME." + " <I>Widgets</I>." + " Geneva: ISO." + " 2020.";
    assert pieces == " ACME. <I>Widgets</I>. Geneva: ISO. 2020.";
    calc {
      Assemble(c);
      { FourFieldsAssembled("ACME", "Widgets", "Geneva: ISO", "2020"); }
      Wrap("ACME") + Wrap("Widgets", " <I>", "</I>.") + Wrap("Geneva: ISO") + Wrap("2020");
      { WidgetsBookWrapped(); }
      pieces;
    }
  }

  /** The citation of the Widgets book, with its title in italics as a book. */
  lemma ParseBookExample(spell: Spellout)
    ensures Parse(WidgetsBook, spell) == Success(" ACME. <I>Widgets</I>. Geneva: ISO. 2020.")
  {
    WidgetsBookCreators();
    WidgetsBookFields(spell);
    WidgetsBookAssembled();
  }
}
