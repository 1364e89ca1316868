# ISO 690 citation renderer, modelled in Dafny

This project models `Iso690Render`, a Ruby module that renders one bibliographic
record (a `bibitem`) into a single ISO 690 citation string. The renderer finds
each field of the record and formats it. It wraps the field in its punctuation
and appends it to the citation in a fixed order:

1. creator names
2. title
3. medium
4. edition
5. place and publisher
6. published date
7. series
8. identifiers
9. access location

Modules:

- `Wrappers` (`wrappers.dfy`): `Option` for a lookup that may find nothing, and `Result` for a rendering that may raise.
- `Text` (`text.dfy`): the Ruby built-ins the renderer uses. These are `Array#join`, ASCII `upcase`, the `/^\d+$/` test and `to_i`.
- `Query` (`query.dfy`): the two lookup shapes on a record's children. `at` finds the first match; `xpath` finds all matches, in document order.
- `Bibitem` (`bibitem.dfy`): the record as typed values. Each contributor has a role and an optional organization and person. Each series has an optional type, formatted reference, title, number and part number. Identifiers are (optional type, text) pairs, and dates are (optional type, text) pairs.
- `Iso690Render` (`render.dfy`): the renderer's operations. `title` and `medium` are field reads inside `CitationFields`. `extract_personname`, `creatornames`, `series` and `parse` are split into helpers: `GivenNames`, `ExtractNames` and `SelectCreators`, `SeriesTitle` and `SeriesEntry`, and `CitationFields` and `Assemble`. The parser of the record is replaced by the `Record` datatype.
- `Iso690Properties` (`properties.dfy`): lemmas relating the operations to each other and to independent descriptions.
- `Iso690AsWritten` (`as_written.dfy`): two paths of the Ruby text that raise as written (see Findings).

## Reading of the source

Several lines of `render.rb` cannot run as written. The model follows the intent evident from the surrounding lines:

- Line 35 calls `given ""`. The model joins the list built at lines 27-29 with spaces. That list is the forenames, or the initials when there are no forenames.
- Line 96 returns `r.text`. The model returns the formatted reference's text (`f.text`).
- Line 144 passes the record type to `wrap` instead of `series`. The model renders `series` for the record's type and wraps the result plainly.
- Lines 121 and 146 disagree on the arguments of `accessLocation`. The model wraps the access location's text as `"At: " + text + "."`.
- Lines 49-54 chain `xpath` results with `||`. An empty node set is truthy in Ruby, so the chain never passes `author`. The model takes the first role, in the order author, performer, publisher, adapter, translator, distributor, that has any contributors. Roles are never merged.
- Where a node is used as text (`surname.upcase`, the edition regex, `wrap(title(doc))`), the model uses the node's text.
- `render` passes `docxml.root` to `parse`, and that root is the `bibitem` element itself. As written, every relative lookup `./bibitem/...` (type, title, medium, edition, place, date, series, identifiers, access location) therefore finds nothing, and only the absolute paths `/bibitem/contributor...` at lines 49-54 and 79 match. The model reads each of these fields from the record, as if the relative paths started at the `bibitem` element.
- A person with neither a complete name nor a surname makes `surname.upcase` raise. The model returns `Failure(MissingSurname)` from `ExtractPersonName`, `CreatorNames` and `Parse`.

Three choices of the code shape the output and are modelled as written:

- Line 139 sets the main title in italics when the record type is NOT an included work (`article`, `presentation`). So a book's title is italic: the Widgets book renders as `" ACME. <I>Widgets</I>. Geneva: ISO. 2020."`.
- Line 13 joins three or more names with no serial comma: `"A, B and C"`.
- Line 102 does the opposite of line 139 for series titles: a series title is italic when the record type IS an included work.

## Model

| member | source | states |
|---|---|---|
| Iso690Render.MultipleNames | lib/iso690render/render.rb:9-11 | no names give "" and one name gives that name unchanged |
| Iso690Properties.MultipleNamesLastJoinedByAnd | lib/iso690render/render.rb:12-13 | from two names on: all but the last joined by ", ", then " and " and the last (the two-name case agrees) |
| Iso690Properties.MultipleNamesCons | lib/iso690render/render.rb:12-13 | independent front-to-back reading: a name before two or more names is that name, ", ", then the phrase for the rest |
| Iso690Properties.MultipleNamesCommas | lib/iso690render/render.rb:13 | no serial comma: n >= 2 comma-free names yield exactly n - 2 commas |
| Iso690Properties.MultipleNamesExamples | lib/iso690render/render.rb:9-14 | "", "A", "A and B", "A, B and C" |
| Iso690Render.ExtractOrgName | lib/iso690render/render.rb:16-19 | the organization's name, or "--" when it has none |
| Iso690Render.ExtractPersonName | lib/iso690render/render.rb:21-38 | complete name verbatim; else upper-cased surname, ", ", given names; fails exactly when both complete name and surname are missing |
| Iso690Properties.PersonNameSurnameFirst | lib/iso690render/render.rb:24-37 | the text starts with the upper-cased surname (no lower-case letter) and ", "; forenames make the initials irrelevant |
| Iso690Render.GivenNames | lib/iso690render/render.rb:27-35 | the forenames, or the initials when there are no forenames: "" when there are none, the name itself when there is one, and the text starts with the first of them |
| Iso690Properties.GivenNamesSnocForename | lib/iso690render/render.rb:28-33 | one more forename appends a space and that forename, so the forenames appear in order, one space apart |
| Iso690Properties.GivenNamesSnocInitial | lib/iso690render/render.rb:29-35 | without forenames, one more initial appends a space and that initial |
| Iso690Properties.GivenNamesSpaces | lib/iso690render/render.rb:27-35 | n given names that hold no space are separated by exactly n - 1 spaces |
| Iso690Properties.PersonNameExamples | lib/iso690render/render.rb:21-38 | "SMITH, John Q", "SMITH, J Q", "LEE, ", a complete name verbatim, and the missing-surname failure |
| Iso690Render.ExtractName | lib/iso690render/render.rb:40-46 | organization first, then person, else "--" |
| Iso690Properties.OrganizationWins | lib/iso690render/render.rb:41-43 | with an organization present, the person has no effect; a nameless organization gives "--" |
| Iso690Render.ExtractNames | lib/iso690render/render.rb:55-58 | one name per contributor, in order; succeeds exactly when every contributor's name can be formed |
| Iso690Render.FirstPopulatedRole | lib/iso690render/render.rb:49-54 | the group of the first role that has contributors, with every earlier role empty; empty exactly when no role has any |
| Iso690Render.CreatorNames | lib/iso690render/render.rb:48-60 | the joined names of the selected creator group; fails exactly when a selected name fails |
| Iso690Properties.CreatorsShareOneRole | lib/iso690render/render.rb:49-54 | the selected creators are all contributors of one creator role and only those: roles are never merged |
| Iso690Properties.AuthorsWin | lib/iso690render/render.rb:49 | when authors exist they are the creators |
| Iso690Properties.CreatorNamesIgnoreOtherRoles | lib/iso690render/render.rb:49-54 | adding a contributor with a non-creator role leaves the creator names unchanged |
| Iso690Render.Edition | lib/iso690render/render.rb:70-75 | absent gives ""; non-numeral text is kept; a numeral is spelled out as the ordinal of its value |
| Iso690Properties.EditionOrdinal | lib/iso690render/render.rb:73-74 | the printed numeral of n is spelled out as ordinal n |
| Iso690Properties.EditionVerbatim | lib/iso690render/render.rb:73 | text with a non-digit, or empty text, is returned unchanged |
| Iso690Render.PublisherName | lib/iso690render/render.rb:79 | the name of the first publisher-role contributor with a named organization; absent exactly when there is none |
| Iso690Render.PlacePub | lib/iso690render/render.rb:77-85 | "place: publisher" when both exist, the one that exists alone, else "" |
| Iso690Properties.PlacePubUsesPublishersOnly | lib/iso690render/render.rb:79 | only publisher-role contributors matter, whatever the creator selection |
| Iso690Properties.PlacePubEmpty | lib/iso690render/render.rb:80-84 | the result is empty exactly when neither place nor publisher contributes text and not both exist |
| Iso690Render.PublishedDate | lib/iso690render/render.rb:87-89 | the text of the first date typed `published`; absent exactly when there is none |
| Iso690Render.SelectSeries | lib/iso690render/render.rb:92-95 | the first `main` series, else the first untyped one, else the first; absent exactly when there are none |
| Iso690Render.SeriesText | lib/iso690render/render.rb:91-95 | "" without a series, else the text of the chosen series |
| Iso690Render.SeriesEntry | lib/iso690render/render.rb:96-107 | a formatted reference is returned alone |
| Iso690Render.SeriesTitle | lib/iso690render/render.rb:101-104 | "" exactly when the title is absent or empty; otherwise the title can be read back from between " <I>" and "</I>." for an included record type, and from between " " and "." otherwise |
| Iso690Properties.SeriesTitleItalics | lib/iso690render/render.rb:101-104 | without a formatted reference the series title comes first, italic exactly when the record type is an included work |
| Iso690Properties.SeriesNumbering | lib/iso690render/render.rb:100-107 | the title part is followed by " number" and ".partnumber", each only when present |
| Iso690Properties.SeriesMainPreferred | lib/iso690render/render.rb:92-94 | a `main` series wins over an untyped one standing before it |
| Iso690Properties.SeriesExample | lib/iso690render/render.rb:96-107 | " Notes. 12.3" for a book, " <I>Notes</I>. 12" for an article, a formatted reference verbatim |
| Iso690Render.IdentifierTexts | lib/iso690render/render.rb:112-117 | one text per identifier, in order: "type text", or the text alone when untyped |
| Iso690Render.StandardIdentifier | lib/iso690render/render.rb:110-119 | no identifiers give ""; one gives its text |
| Iso690Properties.StandardIdentifierSnoc | lib/iso690render/render.rb:112-118 | document order: one more identifier appends ". " and its text |
| Iso690Properties.StandardIdentifierSegments | lib/iso690render/render.rb:118 | n identifiers free of full stops are separated by exactly n - 1 full stops (one segment each) |
| Iso690Properties.StandardIdentifierExample | lib/iso690render/render.rb:110-119 | [ISBN 123, 456] gives "ISBN 123. 456" |
| Iso690Render.AccessLocation | lib/iso690render/render.rb:121-124 | the access location's text, "" when absent |
| Iso690Render.Included | lib/iso690render/render.rb:126-128 | holds exactly for the types in the list ["article", "presentation"]; its effect on titles is stated by CitationFields, SeriesTitle and ParseTitleOnly |
| Iso690Render.Wrap | lib/iso690render/render.rb:130-133 | the result is empty exactly when the text is |
| Iso690Properties.WrapUnwrap | lib/iso690render/render.rb:132 | non-empty text is recovered between its start and end delimiters |
| Iso690Render.RecordType | lib/iso690render/render.rb:137 | the type attribute, "book" when absent |
| Iso690Render.CitationFields | lib/iso690render/render.rb:137-146 | the main title is italic exactly when the record type is not an included work (which record field fills each other slot: the Parse*Only lemmas) |
| Iso690Render.Parse | lib/iso690render/render.rb:135-148 | rendering succeeds exactly when the creator names can be formed |
| Iso690Properties.AssembleCreatorsFirst | lib/iso690render/render.rb:138 | the wrapped creator names stand in front of the rest of the citation |
| Iso690Properties.AssembleAccessLocationLast | lib/iso690render/render.rb:146-147 | the wrapped access location ends the citation |
| Iso690Render.Assemble | lib/iso690render/render.rb:136-147 | the citation is empty exactly when every field text is (field order and punctuation: the lemmas below) |
| Iso690Properties.MediumOnlyAssembled | lib/iso690render/render.rb:140 | the medium alone renders between " [" and "]." |
| Iso690Properties.EditionOnlyAssembled | lib/iso690render/render.rb:141 | the edition alone renders wrapped in " " and "." |
| Iso690Properties.PlacePubOnlyAssembled | lib/iso690render/render.rb:142 | place and publisher alone render wrapped in " " and "." |
| Iso690Properties.DateOnlyAssembled | lib/iso690render/render.rb:143 | the date alone renders wrapped in " " and "." |
| Iso690Properties.SeriesOnlyAssembled | lib/iso690render/render.rb:144 | the series text alone renders wrapped in " " and "." |
| Iso690Properties.IdentifiersOnlyAssembled | lib/iso690render/render.rb:145 | the identifiers alone render wrapped in " " and "." |
| Iso690Properties.AccessLocationOnlyAssembled | lib/iso690render/render.rb:146 | the access location alone renders between "At: " and "." |
| Iso690Properties.AllFieldsAssembled | lib/iso690render/render.rb:138-146 | with every field present and a plain title, the nine fields stand in the order of `parse`: " C. T. [M]. E. P. D. S. I.At: A." |
| Iso690Properties.ParseEnds | lib/iso690render/render.rb:138-146 | a rendered record starts with its wrapped creators and ends with its wrapped access location |
| Iso690Properties.ParseEmptyIff | lib/iso690render/render.rb:135-148 | a record renders as "" exactly when each of its nine fields renders as "" |
| Iso690Properties.ParseEmptyRecord | lib/iso690render/render.rb:135-148 | a record with no fields renders as "" |
| Iso690Properties.ParseFails | lib/iso690render/render.rb:37 | rendering fails exactly when a selected creator is a person without organization, complete name or surname |
| Iso690Properties.ParseMediumOnly | lib/iso690render/render.rb:66-68 | a record holding only a medium renders as " [m].": the record's medium fills the medium slot (line 140) |
| Iso690Properties.ParseEditionOnly | lib/iso690render/render.rb:70-75 | a record holding only an edition renders as its `edition` text, plainly wrapped (line 141) |
| Iso690Properties.ParsePlaceOnly | lib/iso690render/render.rb:77-84 | a record holding only a place renders as that place, plainly wrapped (line 142) |
| Iso690Properties.ParseDatesOnly | lib/iso690render/render.rb:87-89 | a record holding only dates renders as its published date, plainly wrapped (line 143) |
| Iso690Properties.ParseSeriesOnly | lib/iso690render/render.rb:91-108 | a record holding only a type and series renders as `series` for that type (default `book`), plainly wrapped (line 144 intent) |
| Iso690Properties.ParseIdentifiersOnly | lib/iso690render/render.rb:110-119 | a record holding only identifiers renders as their joined texts, plainly wrapped (line 145) |
| Iso690Properties.ParseAccessLocationOnly | lib/iso690render/render.rb:121-124 | a record holding only an access location renders as "At: a." (line 146 intent) |
| Iso690Properties.ParseTitleOnly | lib/iso690render/render.rb:126-139 | a title alone renders " <I>T</I>." unless the type is article or presentation, then " T." |
| Iso690Properties.ParseBookExample | lib/iso690render/render.rb:135-148 | the Widgets book renders as " ACME. <I>Widgets</I>. Geneva: ISO. 2020." |
| Query.FirstIndex | lib/iso690render/render.rb:92 | `at`: the position of the first match, every earlier element failing; absent exactly when nothing matches |
| Query.First | lib/iso690render/render.rb:92 | `at`: a matching element preceded by no match; absent exactly when nothing matches |
| Query.FirstUnfold | lib/iso690render/render.rb:92 | `at` returns the first element when it matches and otherwise searches the rest |
| Query.FirstOfFilter | lib/iso690render/render.rb:79 | searching only the elements of a wider filter finds the same first match |
| Query.Filter | lib/iso690render/render.rb:49 | `xpath`: only matching elements, and every matching element is present |
| Query.FilterMultiset | lib/iso690render/render.rb:49-58 | `xpath` keeps each matching element exactly as many times as it occurs and drops every other one, so no contributor is merged or lost |
| Query.FilterConcat | lib/iso690render/render.rb:112 | matches keep document order (filtering distributes over concatenation) |
| Text.Join | lib/iso690render/render.rb:118 | `join`: "" for no elements, the element itself for one, and the text starts with the first element; with JoinSnoc this fixes every list |
| Text.JoinSnoc | lib/iso690render/render.rb:118 | `join`: one more element appends the separator and that element |
| Text.OccurrencesJoin | lib/iso690render/render.rb:13 | a character absent from the elements occurs in the joined text only through the n - 1 separators |
| Text.Upper | lib/iso690render/render.rb:37 | `upcase`: same length, each ASCII letter upper-cased in place |
| Text.UpperProperties | lib/iso690render/render.rb:37 | upper-cased text has no lower-case letter, keeps other characters and is a fixed point |
| Text.DecimalRoundTrip | lib/iso690render/render.rb:74 | `to_i` reads back the value of a printed number |
| Iso690AsWritten.ExtractPersonNameAsWritten | lib/iso690render/render.rb:30-36 | as written: raises exactly when there is no complete name and the surname is missing or initials exist |
| Iso690AsWritten.PersonNameAsWrittenAgrees | lib/iso690render/render.rb:30-36 | without initials the written code agrees with the corrected one; with initials only the corrected one succeeds |
| Iso690AsWritten.InitialsOnlyCounterexample | lib/iso690render/render.rb:35 | surname Smith with initial J: the written code raises, the corrected one gives "SMITH, J" |
| Iso690AsWritten.SeriesTextAsWritten | lib/iso690render/render.rb:96 | as written: raises exactly when the chosen series has a formatted reference, else agrees with the corrected one |
| Iso690AsWritten.FormattedRefCounterexample | lib/iso690render/render.rb:96 | a series with formatted reference "Notes 12": the written code raises, the corrected one returns it |

## Left out

- Parsing the record text with Nokogiri (`render`, lines 4-7) and every XPath query: the record is the `Bibitem.Record` datatype. The parse error for a document without a root is therefore not modelled.
- Ordinal spell-out (`to_rbnf_s` with `spellout-ordinal`, line 74) is a locale-dependent library call. It is the parameter `spell` of `Edition` and `Parse`.
- Iso690Render.ExtractPersonName: upper-cases ASCII letters only, not the full Unicode case mapping of Ruby's `upcase`.
- Iso690Render.Edition: the test `/^\d+$/` uses line anchors in Ruby, so "2\nfinal" would match. The model requires the whole text to be digits.
- Iso690Render.CreatorNames: each contributor has one role string. The XPath test `role = '...'` can match any of several role children.
- Iso690Render.CitationFields: only the first title, medium and edition are used, as `at` returns. The title's language and format attributes are not modelled.
- Iso690Render.PublishedDate: a date is its text as a whole. The sub-elements of a date are not modelled.

## Findings

| source | as written | input that shows it | evidently intended | confidence | as-written member | corrected member |
|---|---|---|---|---|---|---|
| lib/iso690render/render.rb:35 | `given ""` calls a method that does not exist, so the third branch raises NoMethodError | a person with surname "Smith", no forenames and initial "J" | the given names built at lines 27-29 joined by spaces: "SMITH, J" | high (not executed) | Iso690AsWritten.ExtractPersonNameAsWritten | Iso690Render.ExtractPersonName |
| lib/iso690render/render.rb:96 | `return r.text` names an undefined local, so a formatted reference raises NameError | one series with formatted reference "Notes 12" | return the formatted reference's text: "Notes 12" | high (not executed) | Iso690AsWritten.SeriesTextAsWritten | Iso690Render.SeriesEntry |
