# ReviewBuilder core, modelled in Dafny

ReviewBuilder assembles the bibliography of a systematic review: it imports
references (BibTeX, RIS, EndNote HTML, Rayyan exports), reconciles them
with a local cache of papers, fills in missing metadata, screens the papers
automatically and by reviewer votes, and prepares PDF downloads. This
project models the deterministic core of that pipeline and proves what
each piece promises:

- `Data` and `Store`: the title match key (`normalizeTitle`), the `Paper`
  record's derived fields (`entrytype`, `venue`, `doi`, ...), and the cache
  reconciliation of search results (`matchResultsWithPapers`) over a store
  made of two maps, one per identifier kind and one per normalised title.
- `BibtexDb` and `ReferencesBibtex`: the author-string parser, the
  author-list serialiser, and the defaults that fill in `ENTRYTYPE` and `ID`
  in place (`Common.Bib` is the field dictionary that is mutated).
- `MetadataHarvest`: the fill-if-missing merge over the allow-list, title
  cleaning, the stable ranking of candidate records by title distance, and
  the DOI precondition of the Semantic Scholar lookup.
- `Ris`: the RIS serialiser and the entry-type tables in both directions.
- `BibDiff`: difference, intersection and union of two bibliographies keyed
  by normalised title.
- `FilterResults`, `Reasons`, `Rayyan`: keyword tests and the ordered
  exclusion chain, reason normalisation and precedence, and the parsing of
  Rayyan reviewer notes, vote counts and row filters.
- `EndnoteHtml`, `FileDownload`, `PdfExtract`, `BaseSearch`: the EndNote HTML
  parser, file names and URL choice for downloads, header search, newline
  collapsing and de-hyphenation, and `SearchResult`'s lookup precedence.
- `Common` and `Text`: Python values, exceptions (as `Result` errors) and
  the string built-ins the code relies on, with Python's semantics.

Python exceptions are modelled as `Err` values of `Common.Result`, so the
lemmas state exactly which inputs raise. Loops of the source are methods
with loop invariants, each proved equal to a specification function; the
properties are lemmas about those functions.

Where the design description and the code differ, the model follows the
code:

- `mergeBibs` fills a field only when it is missing or empty; it does not
  prefer the longer value.
- `matchResultsWithPapers` falls back to an exact normalised-title lookup
  only; there is no approximate title match.
- The `ID` default is family name + year + first title word; there is no
  hashing of titles or author initials.
- `bulkDownload` reads `paper.id` and `filterPapers` reads
  `paper.has_pdf`, and `Paper` defines neither (see Findings); the
  corrected model takes both as parameters.

## Model

| member | source | states |
|---|---|---|
| BaseSearch.SearchResult.constructor | search/base_search.py:13-18 | a new result stores index, bib, source and auxiliary data unchanged and has no paper |
| BaseSearch.SearchResult.Item | search/base_search.py:20-21 | `r[key]` is the auxiliary value whenever the key is there (even a falsy or None one), else the bib value, else None |
| BaseSearch.SearchResult.Repr | search/base_search.py:23-27 | the text opens with "<#", the index and ": ", ends with "> \n " and the text of the bib, and shows a result without title, author and year as "<#index:  -  - >" |
| BaseSearch.ReprOf | search/base_search.py:24-27 | the text opens with "<#" and ends with "> \n " followed by the text of the bib |
| BaseSearch.ReprMissingIsEmpty | search/base_search.py:25-27 | an absent title, author or year prints exactly as an empty one |
| BibDiff.AssignValid | bib_diff.py:18 | `res[key] = entry` keeps the ordered table well formed: keys distinct and exactly the stored ones |
| BibDiff.SelectSpec | bib_diff.py:23-24 | the selected keys are exactly those of the list that are (or are not) in the other key set |
| BibDiff.SelectIsSubsequence | bib_diff.py:24 | the comprehension keeps the keys in the order of the dictionary |
| BibDiff.SelectDistinct | bib_diff.py:24 | selecting from distinct keys gives distinct keys |
| BibDiff.SelectSplit | bib_diff.py:22-31 | the keys inside and outside a set together number as many as the list |
| BibDiff.SelectCount | bib_diff.py:29-30 | the keys selected inside a set number as many as the set intersection |
| BibDiff.ValidKeySet | bib_diff.py:23 | `set(a.keys())`: the key list of a well-formed table holds exactly its stored keys |
| BibDiff.UpdateWithDomain | bib_diff.py:10 | `z.update(y)` leaves z with the keys of both tables |
| BibDiff.UpdateWithNew | bib_diff.py:10 | after the update every key of y maps to y's value |
| BibDiff.UpdateWithOld | bib_diff.py:9-10 | keys of x that y lacks keep x's value |
| BibDiff.UpdateWithValid | bib_diff.py:9-10 | the update keeps the table well formed |
| BibDiff.UpdateWithKeys | bib_diff.py:9-10 | key order after the update: x's keys, then y's new keys in y's order |
| BibDiff.MergeTwoDictsSpec | bib_diff.py:8-11 | merge_two_dicts: keys of x and y, y's value winning on shared keys, x's order then y's new keys; x itself is a value and unchanged |
| BibDiff.HashPrefixStops | bib_diff.py:16-17 | once an entry without a title raises, later entries change nothing |
| BibDiff.HashPrefixStep | bib_diff.py:16-18 | one loop step: a KeyError for an entry without a title, otherwise the table with the entry stored under its normalised title |
| BibDiff.BuildHashTable | bib_diff.py:14-19 | the loop builds exactly the table `HashPrefix` defines over the whole list |
| BibDiff.AddEntry | bib_diff.py:17-18 | one iteration of the loop extends the table of the entries before it to the next |
| BibDiff.HashTableRaises | bib_diff.py:17 | building succeeds iff every entry has a title; the failure is KeyError('title') |
| BibDiff.HashTableValid | bib_diff.py:14-19 | the table built is well formed |
| BibDiff.HashTableKeysSound | bib_diff.py:17-18 | every key is the normalised title of some entry |
| BibDiff.HashTableKeysComplete | bib_diff.py:17-18 | every entry's normalised title is a key |
| BibDiff.HashTableLastWins | bib_diff.py:18 | for duplicate titles the last entry is the one stored |
| BibDiff.Papers | bib_diff.py:25 | `[Paper(x, {}) ...]`: one paper per key, holding that key's entry and empty extra data |
| BibDiff.SetSub | bib_diff.py:22-25 | every paper returned has empty extra data |
| BibDiff.SetIntersect | bib_diff.py:28-31 | every paper returned has empty extra data |
| BibDiff.SetUnion | bib_diff.py:34-38 | every paper returned has empty extra data |
| BibDiff.SetSubSpec | bib_diff.py:22-25 | set_sub returns, in a's order and without repeats, exactly a's entries whose keys b lacks |
| BibDiff.SetIntersectSpec | bib_diff.py:28-31 | set_intersect returns, in a's order, a's entries (not b's) for exactly the shared keys |
| BibDiff.SubIntersectSize | bib_diff.py:22-31 | the difference and the intersection together are as long as a |
| BibDiff.IntersectSize | bib_diff.py:28-31 | the intersection has one paper per shared key |
| BibDiff.SetUnionKeys | bib_diff.py:34-38 | the union lists a's keys, then b's new keys, one paper each |
| BibDiff.SetUnionOld | bib_diff.py:36-38 | at a key of a the union holds b's entry when b has the key, a's otherwise |
| BibDiff.SetUnionNew | bib_diff.py:36-38 | past a's keys the union holds b's entries for the keys a lacks |
| BibDiff.NewKeysSize | bib_diff.py:35 | b adds as many keys as it has minus the shared ones |
| BibDiff.UnionSize | bib_diff.py:34-38 | the union has `len(a) + len(b) - len(set_intersect(a, b))` papers |
| BibtexDb.InitialsParts | db/bibtex.py:26 | in any match of `([A-Z]+)\s+(\w+)` the capitals and the blanks are maximal runs |
| BibtexDb.InitialsAt | db/bibtex.py:26 | a match of the first pattern at a position spans three non-empty parts in order inside the piece |
| BibtexDb.InitialsAtSound | db/bibtex.py:26 | what the matcher returns is a match of `([A-Z]+)\s+(\w+)`, with the word taken greedily |
| BibtexDb.InitialsAtComplete | db/bibtex.py:26 | wherever the first pattern matches, the matcher finds that match |
| BibtexDb.SurnameParts | db/bibtex.py:31 | in a match of `([A-Z]\w+)\s*,\s*([A-Z]\w*)` the surname word and the blanks around the comma are maximal runs |
| BibtexDb.SurnameAt | db/bibtex.py:31 | a match of the second pattern spans a surname of two or more characters, a comma and a capitalised name |
| BibtexDb.SurnameAtSound | db/bibtex.py:31 | what the matcher returns is a match of the second pattern, with the last word greedy |
| BibtexDb.SurnameAtComplete | db/bibtex.py:31 | wherever the second pattern matches, the matcher finds it |
| BibtexDb.InitialsParsed | db/bibtex.py:28 | an author taken from the first pattern has a non-empty given (capitals) and family (word) name |
| BibtexDb.SurnameParsed | db/bibtex.py:33 | an author from the second pattern has given = group 2 and family = group 1, both non-empty words |
| BibtexDb.ParseSegmentParsed | db/bibtex.py:26-34 | every author the parser keeps has a given and a family name and no middle name |
| BibtexDb.SegmentAuthors | db/bibtex.py:25-38 | at most one author per piece |
| BibtexDb.SegmentAuthorsParsed | db/bibtex.py:25-38 | every author returned has a given and a family name made of word characters |
| BibtexDb.ParseBibAuthors | db/bibtex.py:22-38 | the loop returns the authors of the pieces of `authors.split('and')`, in piece order |
| BibtexDb.SegmentAuthorsConcat | db/bibtex.py:25-34 | pieces contribute their authors independently and in order |
| BibtexDb.NoInitials | db/bibtex.py:26-27 | with no match of the first pattern anywhere, `re.search` finds nothing |
| BibtexDb.InitialsSearch | db/bibtex.py:26 | `re.search` with the first pattern stops at its leftmost match |
| BibtexDb.SurnameSearch | db/bibtex.py:31 | `re.search` with the second pattern stops at its leftmost match |
| BibtexDb.InitialsFirst | db/bibtex.py:26-29 | the first pattern wins: given = the capitals, family = the following word, at the leftmost match |
| BibtexDb.SurnameSecond | db/bibtex.py:30-34 | without a match of the first pattern, the leftmost match of the second gives family = group 1 and given = group 2 |
| BibtexDb.DroppedIffNoMatch | db/bibtex.py:35-37 | a piece is dropped exactly when neither pattern matches anywhere in it (the fallback dict is never appended) |
| BibtexDb.AuthorStrings | db/bibtex.py:43-44 | one string per author, given + middle + " " + family, missing parts empty |
| BibtexDb.AuthorListFromDict | db/bibtex.py:41-47 | the loop returns the author strings joined by " and " |
| BibtexDb.SplitOfAuthorList | db/bibtex.py:23-47 | splitting a serialised list of parser-friendly authors on "and" gives exactly one piece per author |
| BibtexDb.PieceParses | db/bibtex.py:26-29 | one serialised author, with the blanks around " and ", parses back to itself |
| BibtexDb.PiecesParse | db/bibtex.py:25-38 | the pieces of a serialised list parse back to the authors |
| BibtexDb.ParseOfAuthorList | db/bibtex.py:22-47 | round trip: `parseBibAuthors(authorListFromDict(authors)) == authors` for authors with capital given names and and-free word surnames |
| BibtexDb.GeneratedIdCases | db/bibtex.py:16-18 | the generated ID: KeyError without author, IndexError when no author parses, KeyError without title, IndexError when the title has no word (all whitespace or empty); otherwise it is made, and it is first family + year (or "____") + lowercased first title word |
| BibtexDb.Filled | db/bibtex.py:13-18 | other fields untouched; ENTRYTYPE "ARTICLE" only when absent; ID set only when absent, and an error exactly when it is absent and cannot be made |
| BibtexDb.FixBibIdempotent | db/bibtex.py:13-18 | fixing a fixed entry changes nothing more |
| BibtexDb.FixBibData | db/bibtex.py:5-19 | the dictionary is rewritten to the fixed fields in place and the same object is returned, or the exception is raised |
| Data.PunctToSpace | db/data.py:30 | every character of the punctuation class becomes one space, every other character stays, position by position |
| Data.Truncate | db/data.py:33 | `title[:200]` is the prefix of length min(len, 200) |
| Data.NormalizeTitle | db/data.py:24-34 | the key has no upper-case letter, no character of the punctuation class, no run of two blanks, no leading blank, and is the (at most 200-character) prefix of the stripped text |
| Data.StrippedShape | db/data.py:28-32 | the text before truncation has the normal shape and no trailing blank either |
| Data.NormalizeTitleOfNormal | db/data.py:24-34 | a title already in normal shape, without trailing blank and at most 200 long, is its own key |
| Data.NormalizeTitleIdempotent | db/data.py:24-34 | normalizing twice equals normalizing once whenever the stripped text fits in 200 characters |
| Data.LongTitleKeepsTrailingSpace | db/data.py:32-33 | truncation after stripping: a 201-character title whose 200th character is a blank keeps that trailing blank, and normalizing again removes it (not idempotent) |
| Data.TruncatedLongTitle | db/data.py:32-33 | such a long title normalizes to its first 200 characters, ending in a blank |
| Data.HyphenSpaceJoins | db/data.py:29-30 | "- " is deleted before punctuation becomes blank: "self- driving" gives the key of "selfdriving" |
| Data.HyphenSeparates | db/data.py:29-30 | a hyphen not followed by a blank separates: "self-driving" gives the key of "self driving" |
| Data.DropJoin | db/data.py:29 | the two replacements delete a line-break hyphen and its blank |
| Data.DropBare | db/data.py:29 | the two replacements leave a hyphen without a following blank alone |
| Data.NewPaper | db/data.py:38-43 | `Paper(bib, extra_data)` stores both and leaves pmid, scholarid and arxivid None |
| Data.NormTitle | db/data.py:61-63 | `paper.norm_title` raises exactly when there is no title, and otherwise has the normal shape and length at most 200 |
| Data.Entrytype | db/data.py:77-79 | `paper.entrytype` raises exactly without ENTRYTYPE, else is the lower-cased type of the same length |
| Data.Venue | db/data.py:81-96 | raises exactly without ENTRYTYPE; None exactly for an entry type outside the listed ones; otherwise "" or a value of the bib |
| Data.VenueIgnoresCase | db/data.py:78-83 | the venue depends on the entry type only through its lower-cased form |
| Data.VenueByType | db/data.py:84-96 | article reads journal, conference/inproceedings/incollection booktitle, the theses school, techreport institution (each default ""), and the remaining listed types give "" |
| Store.OutcomeOf | db/data.py:231-245 | a result goes to found when matched, to missing when not, and the title lookup raises for a result without a title |
| Store.PaperStore.GetPaper | db/data.py:229-230 | `getPaper(id, id_type)` gives the stored paper with that id of that kind, None exactly when there is none |
| Store.PaperStore.FindPapersByTitle | db/data.py:170-192 | raises without a title; None (not []) exactly when no stored paper has the normalised title; otherwise every stored paper under that key |
| Store.PaperStore.FirstHit | db/data.py:226-234 | the id kinds are tried in order and the first that hits is the one taken |
| Store.PaperStore.IdLookup | db/data.py:226-234 | None exactly when no id kind hits; otherwise the paper stored under the first kind that does |
| Store.PaperStore.DecideCases | db/data.py:223-245 | an id hit wins and skips the title; without one, a missing title raises, else the first stored paper under the normalised title, else missing |
| Store.PaperStore.MatchResultsWithPapers | db/data.py:214-247 | the loop returns exactly the found and missing lists of the decisions, raises exactly when some result reaches the title lookup without a title, and attaches each matched paper to its result (and touches nothing past the raise) |
| Store.PaperStore.Visit | db/data.py:224-245 | one iteration: decides the result and attaches the paper when matched, keeping the earlier results' papers |
| Store.PaperStore.MatchOne | db/data.py:224-245 | one result's id lookups then title fallback compute exactly its decision |
| Store.PaperStore.LookupIds | db/data.py:226-234 | the inner loop with `break` computes the first id hit |
| Store.PaperStore.RaiseAt | db/data.py:237 | the first result without a usable id hit and without a title is where the loop stops |
| Store.PaperStore.OnlyDoiHits | db/data.py:224-229 | the paper built from a result has no pmid, arXiv id or Scholar id, so only the DOI can hit |
| Store.OutcomesAt | db/data.py:223 | the outcome at each position is the decision for that result |
| Store.Decisions | db/data.py:223 | one decision per result |
| Store.FirstRaise | db/data.py:237 | the position of the first raise: nothing before it raises |
| Store.PrefixStep | db/data.py:230-245 | one more result appends it to found or to missing according to its decision |
| Store.Partition | db/data.py:221-247 | without a raise every result is in exactly one of found and missing (as multisets) |
| Store.PartitionSize | db/data.py:221-247 | found and missing together are as long as the input |
| Store.FoundOfAppend | db/data.py:230-245 | both lists keep input order |
| Store.FoundMembers | db/data.py:230-245 | a result is found exactly when it is matched at some position, missing exactly when unmatched there |
| MetadataHarvest.MergedOverSpec | search/metadata_harvest.py:41-43 | after the loop a field holds the new value exactly when it is in the list, the old value is falsy and the new one truthy; otherwise it is unchanged |
| MetadataHarvest.MergedSpec | search/metadata_harvest.py:40-44 | the same over BIB_FIELDS |
| MetadataHarvest.MergeKeepsValues | search/metadata_harvest.py:42 | a truthy existing value never changes |
| MetadataHarvest.MergeIgnoresOtherKeys | search/metadata_harvest.py:41 | fields outside BIB_FIELDS are never transferred |
| MetadataHarvest.AbstractAndDoiNotMerged | search/metadata_harvest.py:11-14 | in particular abstract and doi are never taken from the new entry |
| MetadataHarvest.MergeIdempotent | search/metadata_harvest.py:40-44 | merging the same new entry twice equals merging it once |
| MetadataHarvest.MergeBibs | search/metadata_harvest.py:40-44 | the dictionary is updated in place to the merged fields and the same object is returned |
| MetadataHarvest.BasicTitleCleaningShape | search/metadata_harvest.py:47-48 | every whitespace run becomes one blank: no longer than the input, no two blanks in a row, the other characters kept in order |
| MetadataHarvest.BasicTitleCleaningIdempotent | search/metadata_harvest.py:47-48 | cleaning twice equals cleaning once |
| MetadataHarvest.BasicTitleCleaningKeepsEnds | search/metadata_harvest.py:48 | nothing is trimmed: " a " stays " a " |
| MetadataHarvest.Item.constructor | search/metadata_harvest.py:53-54 | a result record holds the given titles |
| MetadataHarvest.TitleError | search/metadata_harvest.py:54 | `res['title'][0]` fails exactly when the key is absent or the list empty |
| MetadataHarvest.InsertByDistancePermutes | search/metadata_harvest.py:57 | inserting one scored record adds exactly it |
| MetadataHarvest.InsertByDistanceSorted | search/metadata_harvest.py:57 | inserting into a sorted list keeps it sorted by distance |
| MetadataHarvest.InsertByDistanceTies | search/metadata_harvest.py:57 | the inserted record goes before the records at its own distance, so ties keep input order |
| MetadataHarvest.SortByDistanceSpec | search/metadata_harvest.py:57 | `sorted(scores, key=...)`: a permutation, sorted non-decreasing by distance, and stable (the records at any one distance keep their order) |
| MetadataHarvest.ScoresOf | search/metadata_harvest.py:55 | one pair per result: the distance between its (cleaned) first title and the paper's title, lower-cased, and the result itself |
| MetadataHarvest.ScoresOfIs | search/metadata_harvest.py:54-55 | the scores the loop collects are exactly those of the rewritten records |
| MetadataHarvest.ScoresUpTo | search/metadata_harvest.py:52-55 | the scores after n iterations are n pairs |
| MetadataHarvest.ScoresUpToAt | search/metadata_harvest.py:54-55 | at each position: the distance of the cleaned first title and that position's record |
| MetadataHarvest.TitlesOf | search/metadata_harvest.py:54 | the title of each result record, in order |
| MetadataHarvest.RankFailureStep | search/metadata_harvest.py:53-55 | per record: a missing title raises KeyError, an empty list IndexError, and a paper without a title AttributeError once the first record is cleaned |
| MetadataHarvest.RankFailureNone | search/metadata_harvest.py:53-55 | the loop does not raise iff every record has a title and the paper has one (or there are no records) |
| MetadataHarvest.RankFailureFirst | search/metadata_harvest.py:53-55 | the first record without a usable title decides the exception, unless an earlier record reached the paper's missing title |
| MetadataHarvest.Overwrite | search/metadata_harvest.py:54 | writing one record's title changes it at every position that holds the same record and nowhere else |
| MetadataHarvest.CleaningFails | search/metadata_harvest.py:54 | a record with an unusable title was never rewritten |
| MetadataHarvest.CleaningStep | search/metadata_harvest.py:54 | one rewrite keeps every rewritten record's title the cleaned first title of its original, also when the same record appears twice |
| MetadataHarvest.CleanedTitles | search/metadata_harvest.py:54 | every cleaned title is a one-element list |
| MetadataHarvest.CleaningDone | search/metadata_harvest.py:53-54 | after the loop every record's title is the one-element list of its cleaned first title |
| MetadataHarvest.RerankBySimilarity | search/metadata_harvest.py:51-57 | raises exactly the loop's first exception; otherwise every record's title is rewritten to its cleaned first title and the result is the records' scores sorted stably by distance |
| MetadataHarvest.ScoreRecords | search/metadata_harvest.py:52-55 | the loop raises exactly the first exception and otherwise yields the scores in input order, with every title rewritten |
| MetadataHarvest.CleanRecord | search/metadata_harvest.py:54 | `res['title'] = [basicTitleCleaning(res['title'][0])]` on one record object |
| MetadataHarvest.SemanticScholarUrl | search/metadata_harvest.py:76-80 | ValueError('paper has no DOI') exactly when the DOI is falsy, before any request; otherwise the request URL ends with the DOI |
| ReferencesBibtex.PositionId | references/bibtex.py:11 | the generated ID is "id" followed by the digits of the index |
| ReferencesBibtex.ConvertedSpec | references/bibtex.py:5-13 | existing fields untouched; ENTRYTYPE becomes "ARTICLE" and ID "id" + index only when absent |
| ReferencesBibtex.ConvertedIdempotent | references/bibtex.py:7-11 | converting a converted entry again, with any index, changes nothing |
| ReferencesBibtex.ConvertedOnlyAdds | references/bibtex.py:7-11 | every other field is present and valued exactly as before |
| ReferencesBibtex.ConvertResult | references/bibtex.py:5-13 | `result["bib"]` raises KeyError when absent; otherwise the dictionary is converted in place and the same object is returned |
| ReferencesBibtex.FirstSlotSpec | references/bibtex.py:18-19 | the first position holding the same object |
| ReferencesBibtex.FirstSlotShared | references/bibtex.py:18-19 | positions holding the same object share their first position |
| ReferencesBibtex.Ready | references/bibtex.py:18-19 | the results before the first without a "bib" key |
| ReferencesBibtex.ConvertPosition | references/bibtex.py:18-19 | one iteration keeps every object's fields those after the first i + 1 conversions |
| ReferencesBibtex.FieldsOf | references/bibtex.py:18-19 | the field dictionaries of the objects the results reach |
| ReferencesBibtex.Entries | references/bibtex.py:19 | the entries appended so far are the results' bib objects, in order |
| ReferencesBibtex.WriteBibtex | references/bibtex.py:16-19 | raises KeyError exactly when some result lacks "bib"; otherwise the database holds each result's own object, in order; each object is converted with the index of its first position, the ones past the failure untouched |
| Ris.ReverseIsInverse | db/ris.py:19-26 | the reverse type table is the exact inverse of the type table |
| Ris.RisType | db/ris.py:34-37 | the lower-cased ENTRYTYPE is looked up in the table; an unknown type gives JOUR |
| Ris.CollectStops | db/ris.py:31-61 | once an entry raises, later entries change nothing |
| Ris.CollectStep | db/ris.py:31-61 | one iteration appends an entry's lines, or raises its exception |
| Ris.AuthorLine | db/ris.py:42-44 | a KeyError exactly when the author lacks family or given; otherwise one "AU  - family, given" line, " middle" appended only when the middle name is non-empty |
| Ris.AuthorLinesSpec | db/ris.py:41-45 | one AU line per parsed author, in order, unless some author lacks a name part |
| Ris.MappedLinesSpec | db/ris.py:57-59 | the mapped lines are exactly "<TAG>  - <value>" for the truthy fields of the table, at most one per row |
| Ris.CountTagConcat | db/ris.py:63 | tag counts add over concatenation |
| Ris.EntryLinesEnds | db/ris.py:39-61 | each entry's block starts with its one "TY  - " line and ends with its one "ER  - " line |
| Ris.EntryLinesAuthors | db/ris.py:39-48 | the AU lines follow the TY line in author order, then the "PY  - <year>" line, empty year when missing |
| Ris.PageLinesOfRange | db/ris.py:50-55 | pages "a--b" give SP a and EP b |
| Ris.PageLinesWithoutDash | db/ris.py:50-55 | pages without a dash give SP = EP = the pages |
| Ris.ExportLinesCount | db/ris.py:29-63 | the lines hold exactly one TY and one ER line per entry |
| Ris.AuthorBlock | db/ris.py:41-45 | the author loop computes exactly the AU lines (or the exception) |
| Ris.MappedBlock | db/ris.py:57-59 | the mapping loop computes exactly the mapped lines |
| Ris.EntryBlock | db/ris.py:32-61 | one iteration computes exactly the entry's block, raising KeyError without author or ENTRYTYPE |
| Ris.ExportBibToRIS | db/ris.py:29-63 | the result is the entries' blocks joined by "\n" (no trailing newline), or the first exception |
| Ris.RisEntryType | db/ris.py:88-93 | a known type_of_reference maps back through the reverse table; absent, empty or unknown gives 'article' |
| Ris.TypeRoundTrip | db/ris.py:19-26 | for article, inproceedings, thesis and book, exporting and reading the type gives it back |
| Ris.UnknownTypeIsArticle | db/ris.py:34-37 | any other type comes back as 'article' |
| Ris.SetRisEntryType | db/ris.py:88-93 | the entry's ENTRYTYPE is overwritten in place with the mapped type, nothing else changes |
| Reasons.FixReasonsStripped | reasons_for_exclusion.py:37-38 | a non-alias without underscores becomes its middle part, with no whitespace at either end and only whitespace cut |
| Reasons.FixReasonsSpec | reasons_for_exclusion.py:27-38 | the four aliases map by exact match; other strings with '_' get every underscore replaced by a blank (no stripping); the rest are stripped |
| Reasons.PaddedAliasIsOnlyStripped | reasons_for_exclusion.py:28-38 | aliases are matched before stripping: " review" becomes "review", not "is review" |
| Reasons.FirstListedNone | reasons_for_exclusion.py:43-47 | the search finds nothing exactly when no listed reason is present |
| Reasons.FirstListedSome | reasons_for_exclusion.py:43-45 | what it finds is present and is the earliest present one in the list |
| Reasons.GetMainReasonNone | reasons_for_exclusion.py:41-47 | None exactly when no listed reason is among the fixed reasons |
| Reasons.GetMainReasonSome | reasons_for_exclusion.py:41-45 | otherwise the earliest entry of EXCLUSION_PRECEDENCE that some input reason fixes to |
| Reasons.GetMainReasonIsCanonical | reasons_for_exclusion.py:43-47 | the result is always an entry of EXCLUSION_PRECEDENCE or None |
| Reasons.GetMainReasonIgnoresOrder | reasons_for_exclusion.py:42 | the order and repetitions of the input do not matter |
| Reasons.HigherRankWins | reasons_for_exclusion.py:43-45 | a present reason is beaten only by reasons listed before it |
| Reasons.PaddedReviewIsNoReason | reasons_for_exclusion.py:28-47 | a lone " review" counts as no reason at all |
| Reasons.UnlistedIsNoReason | reasons_for_exclusion.py:43-47 | reasons outside the list give None |
| Rayyan.PairAt | db/rayyan.py:28 | a match of the pair pattern at a position ends inside the text, after it |
| Rayyan.PairAtClasses | db/rayyan.py:28 | each pair found has a non-empty name of `[\w\s\.]` characters and a non-empty decision of `[\w\s]` characters |
| Rayyan.PairAtText | db/rayyan.py:28 | the text matched is exactly `"name"=>"decision"` |
| Rayyan.PairsShape | db/rayyan.py:28 | every pair `re.findall` yields has a non-empty name and decision |
| Rayyan.NoQuoteNoPairs | db/rayyan.py:28 | notes without a double quote hold no reviewer pair |
| Rayyan.ReviewersKeys | db/rayyan.py:29 | the reviewers are exactly the names of the pairs |
| Rayyan.ReviewersLastWins | db/rayyan.py:29 | each reviewer maps to the decision of their last pair |
| Rayyan.TaggedAtSpec | db/rayyan.py:33-37 | the list after a tag is the greedy run of `[\w\s,]` characters that follows it |
| Rayyan.RepeatLength | db/rayyan.py:37-39 | k pairs give k copies of the label list |
| Rayyan.RepeatCopy | db/rayyan.py:37-39 | each copy among them is the whole list |
| Rayyan.ParseInclusion | db/rayyan.py:23-41 | the loop returns each name's last decision; the comma-split exclusion list of the first RAYYAN-EXCLUSION-REASONS match when some decision is 'excluded' in any case, else []; and the label list once per pair |
| Rayyan.ReasonsStep | db/rayyan.py:31-35 | on 'excluded' (any case) the reasons are reset to the list found, never added twice; otherwise unchanged |
| Rayyan.LabelsStep | db/rayyan.py:37-39 | each pair appends the labels found (nothing when there are none) |
| Rayyan.AnyExcludedStep | db/rayyan.py:31 | some decision so far is 'excluded' iff one was before or this one is |
| Rayyan.SearchList | db/rayyan.py:33-39 | `re.search` plus `group(1).split(',')`: found exactly when the tag matches somewhere; the list is empty otherwise |
| Rayyan.YearAtMark | db/rayyan.py:75 | a year found is "PY - " + digits + "/" at that position |
| Rayyan.MarkYearAt | db/rayyan.py:75 | every such mark is found |
| Rayyan.TrimYearFound | db/rayyan.py:75-78 | at the leftmost mark the row gets the digits as year and the authors cut before the mark |
| Rayyan.TrimYearNotFound | db/rayyan.py:75-78 | without a mark the row is unchanged |
| Rayyan.Trimmable | db/rayyan.py:74-78 | the rows before the first whose authors are missing or not a string |
| Rayyan.TrimYears | db/rayyan.py:74-78 | the year loop rewrites every row in place until the first that raises, and raises exactly its error |
| Rayyan.CountVotes | db/rayyan.py:85-94 | per row, the number of reviewer cells that are exactly 'Included', 'Excluded' and 'Maybe' |
| Rayyan.CountAllVotes | db/rayyan.py:80-97 | the three count columns hold each row's counts, in row order |
| Rayyan.VotesBound | db/rayyan.py:88-94 | included + excluded + maybe is at most the number of reviewer columns |
| Rayyan.VotesExact | db/rayyan.py:89-93 | only exact strings count |
| Rayyan.LowerCaseIsNoVote | db/rayyan.py:89 | a lower-case 'included' is no vote |
| Rayyan.WhereMembers | db/rayyan.py:205-238 | `df[mask]` holds exactly the rows that satisfy the mask |
| Rayyan.WhereOrder | db/rayyan.py:205-238 | and keeps them in order |
| Rayyan.FilterForInclusion | db/rayyan.py:205-211 | None exactly for a screen other than the three; KeyError exactly when that screen's count column is missing |
| Rayyan.FilterForInclusionKeeps | db/rayyan.py:206-211 | for a known screen, the rows kept are exactly those with a positive count, in order, with every column |
| Rayyan.FirstMissing | db/rayyan.py:231-237 | the first of DROP_FIELDS that is not a column, if any |
| Rayyan.DropRows | db/rayyan.py:231-237 | each row loses exactly the DROP_FIELDS columns |
| Rayyan.DropRowsSubsequence | db/rayyan.py:231-237 | dropping columns keeps the row order |
| Rayyan.SelectsAfterDrop | db/rayyan.py:229-238 | the counts tested survive the drop |
| Rayyan.SelectPapersToReview | db/rayyan.py:229-232 | KeyError without the included_count column |
| Rayyan.SelectPapersToFilter | db/rayyan.py:235-238 | KeyError without included_count, else without excluded_count |
| Rayyan.DropSelection | db/rayyan.py:229-238 | a selection then the drop fails exactly when a DROP_FIELDS column is missing; otherwise exactly the selected rows, in order, without those columns |
| Rayyan.SelectPapersToReviewSpec | db/rayyan.py:229-232 | exactly the rows with included_count >= min_agreement, in order, without DROP_FIELDS |
| Rayyan.SelectPapersToFilterSpec | db/rayyan.py:235-238 | exactly the rows whose included and excluded counts equal the given values, in order, without DROP_FIELDS |
| FilterResults.CleanAbstractSpec | filter_results.py:16-17 | the two substitutions amount to one: every whitespace run becomes one blank |
| FilterResults.PaperTextSpec | filter_results.py:11-20 | the title alone when the abstract is falsy; otherwise title + " " + the abstract with whitespace runs collapsed; `None + str` raises TypeError without a title |
| FilterResults.IsPatentSpec | filter_results.py:23-25 | "patent" in the journal (case-sensitive) or in the lowercased url, the url being bib 'url' when that key exists, else 'eprint' |
| FilterResults.EmptyHasNoPatent | filter_results.py:25 | a missing journal reads as "" and never holds "patent" |
| FilterResults.Count | filter_results.py:38-48 | the counter never exceeds the number of keywords |
| FilterResults.CountFull | filter_results.py:38-70 | the counter reaches the number of keywords iff every keyword is (or is not) in the text |
| FilterResults.OneKeywordInText | filter_results.py:28-35 | true iff some lowercased keyword is a substring of the lowercased text |
| FilterResults.AllKeywordsInText | filter_results.py:38-48 | true iff every lowercased keyword occurs |
| FilterResults.OneKeywordNotInText | filter_results.py:51-58 | true iff some keyword does not occur |
| FilterResults.AllKeywordsNotInText | filter_results.py:61-70 | true iff no keyword occurs |
| FilterResults.KeywordDuality | filter_results.py:28-70 | oneKeywordNotInText is not allKeywordsInText, allKeywordsNotInText is not oneKeywordInText; an empty list gives False and True |
| FilterResults.LanguageSpec | filter_results.py:131-144 | without a stored language a text under 62 characters or all upper-case is 'en' without detection; a stored one wins over the detector; otherwise the detector's answer is lower-cased, and its exception (LangDetectException) propagates; raises exactly for a stored non-string or a failing detection |
| FilterResults.DetectorErrorEndsScreen | filter_results.py:131-136 | a paper whose long, not all upper-case text makes the detector raise is screened with that exception |
| FilterResults.Failures | filter_results.py:152-188 | one test per check of the chain |
| FilterResults.FirstFailingSpec | filter_results.py:152-188 | the reason is that of the first failing check; None when all pass |
| FilterResults.FirstFailingOfEight | filter_results.py:152-188 | the chain written out: language, is_patent, year, is_review, uses_images, no_pdf, not_radiology, not_nlp |
| FilterResults.ExclusionIsFirstFailing | filter_results.py:152-188 | the if/elif chain gives the first failing check's reason |
| FilterResults.ExclusionRaises | filter_results.py:160 | the chain raises exactly when it reaches a year that is not a number |
| FilterResults.MissingYearExcluded | filter_results.py:160 | a missing year reads as 0 and excludes the paper for its year |
| FilterResults.ExclusionReasonKnown | filter_results.py:152-188 | every reason given is one of the eight |
| FilterResults.ScreenSpec | filter_results.py:118-191 | a paper is accepted iff its record is not excluded, excluded iff it has a reason, the reason is one of the eight, and the record keeps the title |
| FilterResults.ScreenPaper | filter_results.py:118-189 | one iteration computes exactly the record, acceptance and any exception of the screening of one paper |
| FilterResults.FilteredStops | filter_results.py:117-192 | once a paper raises, later papers change nothing |
| FilterResults.FilteredStep | filter_results.py:190-192 | one iteration appends the record to the report and the paper to the included list when accepted |
| FilterResults.FilterPapers | filter_results.py:113-195 | the loop computes exactly the included papers and report the screening defines |
| FilterResults.ScreenConsistent | filter_results.py:125-190 | `accept` is the negation of `record['excluded']` |
| FilterResults.FilteredRaises | filter_results.py:117-192 | filtering succeeds iff no paper's screening raises |
| FilterResults.FilteredReport | filter_results.py:192 | the report has exactly one record per input paper, in order |
| FilterResults.FilteredIncluded | filter_results.py:190-191 | `included` is the in-order subsequence of the papers whose record is not excluded |
| FilterResults.KeptSpec | filter_results.py:190-191 | as many papers are kept as records are not excluded, each one of those papers |
| FilterResults.FilteredFirstError | filter_results.py:117-192 | the first paper whose screening raises decides the error of the whole loop |
| FilterResults.HasPdfAsWritten | filter_results.py:172 | `paper.has_pdf` raises AttributeError: Paper has no such attribute |
| FilterResults.ExclusionShortOfPdfTest | filter_results.py:152-171 | a chain that stops before the no_pdf check gives the same result whatever `has_pdf` is |
| FilterResults.ExclusionAtPdfTest | filter_results.py:172-188 | at the no_pdf check, a paper with a PDF goes on to the later checks and is never excluded for no_pdf |
| FilterResults.ScreenShortOfPdfTest | filter_results.py:118-188 | a paper that does not reach the no_pdf check is screened alike whatever `has_pdf` says |
| FilterResults.PdfTestDecides | filter_results.py:172-175 | with `has_pdf` supplied, a paper that reaches the check is screened without error and excluded for no_pdf exactly when it has no PDF |
| FilterResults.ScreenAsWrittenSpec | filter_results.py:118-188 | as written, screening raises AttributeError('has_pdf') exactly for the papers that reach the check and agrees with any supplied `has_pdf` on the others |
| FilterResults.AsWrittenScreenAtTest | filter_results.py:172 | as written, a paper that reaches the check raises AttributeError('has_pdf') |
| FilterResults.AsWrittenPdfRaises | filter_results.py:113-192 | as written, `filterPapers` raises AttributeError('has_pdf') at the first paper that reaches the check when none before it raises |
| FilterResults.YearOfPdfTestPaper | filter_results.py:160 | `int('2020')` is 2020 |
| FilterResults.LongKeywordsAbsent | filter_results.py:28-35 | no keyword longer than the text is found in it |
| FilterResults.PdfTestPaperReaches | filter_results.py:118-172 | the misc entry titled "x" from 2020 passes the language, patent, year, review and image checks |
| FilterResults.AsWrittenExampleRaises | filter_results.py:113-192 | as written, `filterPapers` raises AttributeError('has_pdf') on every list that starts with that paper |
| FilterResults.CorrectedExampleScreens | filter_results.py:172-175 | with `has_pdf` supplied, that paper is screened without error and excluded for no_pdf exactly when it has no PDF |
| EndnoteHtml.MappingFields | db/endnote_html.py:4-12 | the six labels write six distinct fields, none of them ENTRYTYPE, eprint or url |
| EndnoteHtml.EntryType | db/endnote_html.py:35-40 | a known reference type maps through the type table; any other gives 'article' |
| EndnoteHtml.BodyAfterTag | db/endnote_html.py:25 | with a `<body>` tag the text after its first occurrence |
| EndnoteHtml.BodyWithoutTag | db/endnote_html.py:25 | without one, `find` gives -1 and the slice starts at 5 |
| EndnoteHtml.EntriesShape | db/endnote_html.py:27 | `re.split` with a capturing group: pieces and separators alternate, every odd entry is the separator itself |
| EndnoteHtml.LazyEnd | db/endnote_html.py:35-45 | `.+?` ends at an occurrence of the closing text past the opening |
| EndnoteHtml.LazyEndSpec | db/endnote_html.py:35-45 | the lazy group ends at the first such occurrence and crosses no newline |
| EndnoteHtml.GroupAt | db/endnote_html.py:35-45 | a match at a position ends past it and inside the line |
| EndnoteHtml.AuthorIsNotAuthorAddress | db/endnote_html.py:42-45 | an 'Author Address' label does not match the 'Author' pattern at the same position |
| EndnoteHtml.ReadEntryLine | db/endnote_html.py:35-45 | the loop over one line sets the entry type and then every matched label, in mapping order |
| EndnoteHtml.ReadEntry | db/endnote_html.py:30-53 | one entry: its lines in order, then its links |
| EndnoteHtml.LoadRefsFromHtml | db/endnote_html.py:21-55 | one dictionary per piece of the split, in order, for the separators too |
| EndnoteHtml.MapLineKeeps | db/endnote_html.py:42-45 | a field no label writes is left as it was |
| EndnoteHtml.MapLineSets | db/endnote_html.py:43-45 | a label that matches sets its field to the matched group |
| EndnoteHtml.MapLineUnmatched | db/endnote_html.py:43-45 | a label that does not match leaves its field as it was |
| EndnoteHtml.LastLineWins | db/endnote_html.py:34-45 | a field holds the value of the last line whose label matches |
| EndnoteHtml.EntryTypePresent | db/endnote_html.py:35-40 | ENTRYTYPE is set iff some line carries a reference type |
| EndnoteHtml.LastLinkWins | db/endnote_html.py:47-51 | the last PDF link is the eprint, the last other link the url |
| EndnoteHtml.AddLinksKeeps | db/endnote_html.py:47-51 | links write only eprint and url |
| EndnoteHtml.EntryHasType | db/endnote_html.py:35-40 | an entry type, when present, comes from a line carrying a reference type |
| EndnoteHtml.EntryFieldFromLastLine | db/endnote_html.py:34-53 | in a whole entry a labelled field holds its last line's value |
| EndnoteHtml.GroupNeedsOpen | db/endnote_html.py:35-45 | a line lacking a character of the opening text matches nowhere |
| EndnoteHtml.SearchWithoutOpen | db/endnote_html.py:35-45 | so `re.search` finds nothing |
| EndnoteHtml.GroupsNone | db/endnote_html.py:47 | with no match anywhere `re.finditer` yields nothing |
| EndnoteHtml.ReadLinesEmpty | db/endnote_html.py:34-45 | lines where no label matches leave the dictionary empty |
| EndnoteHtml.MapLineEmpty | db/endnote_html.py:42-45 | one such line writes nothing |
| EndnoteHtml.EntryWithoutTags | db/endnote_html.py:30-53 | an entry with neither a `<b>` label nor an `<A HREF` link is an empty dictionary |
| EndnoteHtml.SeparatorEntryIsEmpty | db/endnote_html.py:27-53 | the separator pieces kept by the capturing split become empty dictionaries |
| FileDownload.FirstFamily | base/file_download.py:37 | a surname only when the first parsed author has a non-empty one |
| FileDownload.NormTitleBy | base/file_download.py:44 | the normalised title; a paper without a title raises |
| FileDownload.NormTitleByNormalize | base/file_download.py:44 | with the normaliser itself it is `paper.norm_title`, of normal shape |
| FileDownload.Filename | base/file_download.py:30-45 | the name fails exactly when the paper has no title |
| FileDownload.GenerateFilename | base/file_download.py:30-45 | building the name step by step gives the name the four cases define |
| FileDownload.NameOfCases | base/file_download.py:37-44 | "family (year) - Title", "family  - Title" (two blanks), "(year) - Title", or the title alone |
| FileDownload.NameOfEndsWithTitle | base/file_download.py:42-44 | the name ends with the title-cased title |
| FileDownload.FilenameEndsWithTitle | base/file_download.py:44 | a paper's file name ends with its normalised title in title case |
| FileDownload.NameOfStartsWithFamily | base/file_download.py:37-38 | with a surname the name starts with it |
| FileDownload.NameOfStartsWithYear | base/file_download.py:39-40 | without a surname but with a year it starts with "(year)" |
| FileDownload.PdfRecord | base/file_download.py:68-70 | a record of type 'pdf' gives its url and source; another type nothing; a missing key or a non-dictionary raises |
| FileDownload.UrlRecords | base/file_download.py:67 | `extra_data.get('urls', [])`: nothing when the key is missing, the list when it is one |
| FileDownload.FirstPdfAt | base/file_download.py:67-71 | the loop stops at the first 'pdf' record |
| FileDownload.FirstPdfNone | base/file_download.py:67-71 | without a 'pdf' record it finds nothing |
| FileDownload.FirstPdfIndex | base/file_download.py:67-71 | what the loop found is one of the records |
| FileDownload.ChooseUrl | base/file_download.py:64-79 | the loop and the fallbacks compute the URL the choice defines |
| FileDownload.ChosenUrlSource | base/file_download.py:67-79 | a chosen URL is a truthy 'pdf' record's, else the non-empty eprint, else a bib url `isPDFURL` accepts, the last two with source 'search' |
| FileDownload.ChosenUrlPrecedence | base/file_download.py:67-76 | a truthy 'pdf' record wins over the bib; a falsy one falls back to the eprint |
| FileDownload.ChosenUrlTruthy | base/file_download.py:73-84 | a chosen URL is truthy |
| FileDownload.RefusedUrlNotChosen | base/file_download.py:77-79 | a bib url `isPDFURL` refuses is never used |
| FileDownload.JoinPath | base/file_download.py:61 | `os.path.join`: an absolute name replaces the root, otherwise one '/' separates them |
| FileDownload.TaskForShape | base/file_download.py:59-84 | a task holds the paper's identifier, DOI and abstract, its file name under the root with ".pdf", and the chosen truthy URL with its source |
| FileDownload.MakeTask | base/file_download.py:57-88 | one iteration computes the paper's task, none, or the error |
| FileDownload.BulkDownload | base/file_download.py:48-92 | the task list is exactly the tasks of the papers that have a URL, in order, or the first error |
| FileDownload.TasksStep | base/file_download.py:81-84 | one iteration appends a task only when a URL was chosen |
| FileDownload.TaskIndicesSpec | base/file_download.py:56-84 | the papers with tasks, in rising order, are exactly those whose step gives a task |
| FileDownload.TasksInOrder | base/file_download.py:56-84 | the list is produced iff no paper raises; task i belongs to the i-th paper with a task |
| FileDownload.TasksStayFailed | base/file_download.py:56-84 | once a paper raises, later papers change nothing |
| FileDownload.TasksFirstError | base/file_download.py:56-84 | the first error raised is the one reported |
| FileDownload.TasksFailFirst | base/file_download.py:56-59 | a list whose first paper raises fails with that error |
| FileDownload.IdAsWritten | base/file_download.py:59 | `paper.id` raises AttributeError: Paper has no such attribute |
| FileDownload.TaskForAsWritten | base/file_download.py:59-63 | each paper's record raises before any name or URL is computed |
| FileDownload.AsWrittenAlwaysFails | base/file_download.py:48-84 | as written, every non-empty list of papers raises AttributeError('id') |
| FileDownload.AsWrittenStepFails | base/file_download.py:59 | the step as written fails on every paper |
| FileDownload.EprintTask | base/file_download.py:59-84 | with an identifier supplied, a titled paper with an eprint and no URL records gets a task from the eprint |
| FileDownload.TasksSingle | base/file_download.py:84 | a one-paper list holds that paper's task |
| FileDownload.CorrectedDownloadsEprint | base/file_download.py:48-84 | the corrected download list of such a paper is its task |
| FileDownload.CollectTasks | base/file_download.py:54-88 | the loop appends a paper's task when it has a URL and stops at the first exception, giving exactly the task list |
| PdfExtract.FirstHeaderFrom | base/pdf_extract.py:44-47 | the first string in list order that occurs in the text; none before it occurs |
| PdfExtract.FindHeaders | base/pdf_extract.py:41-52 | the loop returns what the first found string's `find` gives, else the default |
| PdfExtract.HeadersFound | base/pdf_extract.py:44-47 | when the k-th string is the first found, the result is its leftmost occurrence |
| PdfExtract.HeadersMissing | base/pdf_extract.py:49-50 | when no string occurs, or the list is empty, the result is the default |
| PdfExtract.HeadersFollowListOrder | base/pdf_extract.py:44-47 | list order decides, not the position in the text |
| PdfExtract.CleanUpTikaTextSpec | base/pdf_extract.py:36-38 | no two newlines are adjacent, every other character stays in order, and only the empty text gives the empty text |
| PdfExtract.CleanUpTikaTextIdempotent | base/pdf_extract.py:36-38 | cleaning twice is cleaning once |
| PdfExtract.HyphenAt | base/pdf_extract.py:32 | a match of the pattern at a position ends past it |
| PdfExtract.HyphenAtBreak | base/pdf_extract.py:32 | a match needs a word character, a hyphen, a newline and a word character |
| PdfExtract.DehyphenateUnchanged | base/pdf_extract.py:17-33 | text without such a break comes back unchanged |
| PdfExtract.DehyphenateJoins | base/pdf_extract.py:25-32 | a word broken across a line is joined when either dictionary accepts it, and rejoined around a hyphen otherwise |

## Left out

- SQLite persistence (connection, schema, `addPapers`, `updatePapers`, the SQL of `getPaper`): the store is two maps, and reads return what was written.
- Network clients (Crossref, DOI, Semantic Scholar, Google Scholar and the other searches, `enrichMetadata`, `fetch_url`): I/O; only the DOI precondition of `getDataFromSemanticScholar` is modelled.
- The ThreadPool download after the `return` of `bulkDownload`: unreachable, and concurrent.
- `computeOverlap`, `computeFleiss`, `computeOverlap3`: floating-point statistics.
- Tika PDF parsing and the abstract regexes of base/pdf_extract.py: foreign engine.
- langdetect's `detect`: a parameter that returns a language or raises; the model assumes nothing about which texts make it raise (langdetect raises LangDetectException on a text without letters).
- The enchant dictionaries, `isPDFURL`, the Levenshtein distance, `parseBibAuthors` where other modules call it, and `normalizeTitle` inside `bib_diff`: parameters of the functions that use them, with no property assumed.
- db/ref_utils.py is not part of this model; its helpers are parameters.
- File, ZIP, CSV and Excel reading and writing (`read_bibtex_file`, the file output of `write_bibtex`, `writeBibToRISFile`, the RISparser call, the ZIP/CSV loading of `loadRayyan`, `to_csv`, the `open` of `loadRefsFromHTML`): I/O; the model starts from the text or the rows.
- `os.path.abspath` and `os.makedirs` in `bulkDownload`: file system; the root is taken as given.
- `print` calls: output only.
- CLI and glue scripts, base/general_utils.py and the `__main__` block of reasons_for_exclusion.py: argument parsing and composition.
- Unicode case mapping and character classes: `lower`, `upper`, `title`, `isupper`, `\w` and `\d` are ASCII only; `\s` and `strip` use Python's whitespace set.
- pandas DataFrames: a table is a set of column names and a list of rows mapping each column to a cell. Indexing a missing column raises KeyError in the model where the code indexes one: the `authors` cell in the year step, the count columns of `filterDFForInclusion`, `selectPapersToReview` and `selectPapersToFilter`, and the columns of `drop`. The vote counting reads cells with `row.get`, which cannot raise. Missing cells (NaN), dtypes and the row index are not modelled.
- Rayyan.FilterForInclusion: the default `screen='Included'` is not modelled; every call passes the screen.
- Rayyan.SelectPapersToReview: the default `min_agreement=1` is not modelled; every call passes the threshold.
- MetadataHarvest.ScoresOf: the normalised Levenshtein distance, a Python float, is a `real`; the ranking only compares distances, so nothing is lost for finite floats, but rounding and NaN are not modelled.
- MetadataHarvest.RerankBySimilarity: the state of the records when the method raises is not stated.
- MetadataHarvest.ScoreRecords: the state of the records when the method raises is not stated.

## Findings

| source | as written | input that shows it | evidently intended | confidence | as-written member | corrected member |
|---|---|---|---|---|---|---|
| filter_results.py:172 | the no_pdf check reads `paper.has_pdf`, but `Paper` (db/data.py:37-111) defines no `has_pdf` | the misc entry titled "x" from 2020 (`PdfTestPaper`), or any paper in English, not a patent, from 2015 on, whose text has no review or image words: screening it raises AttributeError, which ends `filterPapers` | the check tests whether the paper has a PDF | not executed | FilterResults.AsWrittenExampleRaises | FilterResults.CorrectedExampleScreens |
| base/file_download.py:59 | the task record reads `paper.id`, but `Paper` (db/data.py:37-111) defines no `id` | any non-empty list of papers: the first one raises AttributeError before its file name or URL is computed | each paper's task carries an identifier of the paper | not executed | FileDownload.AsWrittenAlwaysFails | FileDownload.CorrectedDownloadsEprint |
