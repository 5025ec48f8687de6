# jurix text pipeline in Dafny

A model of the three text-processing stages of the jurix legal pipeline and
of the `Norma` date predicate, with proofs of what each stage guarantees.

- **Segmenter** (`LegalTextParser`, `segmenter.dfy`, `hierarchy.dfy`).
  - The regular expressions are abstract. A `Scan` lists, for each of the
    six `MARKER_PATTERNS` recognisers, the matches `finditer` returns.
  - `WellFormedScan` states what a `^`-anchored multiline pattern guarantees:
    a match is non-empty, lies inside the text and starts at a line start.
  - The merged marker list is a stable sort of all six match lists. The
    `item` matches delimit bodies but never become elements.
  - Each body is the text from the marker's end to the first later marker,
    then normalised.
  - `parse_legal_text` is modelled in two phases. First the four extractors
    produce `Span`s (kind, number, match). Then each span is turned into an
    element dictionary by `MakeElement`.
  - The two phases give the same list as the source's sort of finished
    dictionaries. A dictionary depends only on its match, and sorting by
    `start_pos` uses the same key as sorting spans by match start
    (`ParseLegalTextSpans`, proved through `Sorting.SortByMap`).
  - `build_hierarchy` is the three-slot fold. It is proved equal to an
    independent definition: the parent is the nearest earlier element of
    strictly higher rank.
- **Alteration extractor** (`LegalNERExtractor`, `extractor.dfy`). Action
  and reference patterns are abstract matcher functions in a `Matchers`
  record. Events are a flat map over the detected occurrences:
  - one event per reference found in the occurrence's 200-character window;
  - or a single 0.5-confidence fallback event when the window has none.
- **Consolidator** (`ConsolidationEngine`, `consolidation.dfy`).
  - The dispositivos form an arena: a sequence in `ordem` order whose parent
    links are indices of earlier entries.
  - `_process_eventos` is a fold into a revoked-id set and an altered-id map.
  - The rendering emits lines tagged with their unit, kind and indentation.
    Two reference notions describe it: `Visible` (no revoked ancestor) and
    `Depth`.
  - The clock reading is a parameter. `consolidate` is idempotent for one
    reading (`Consolidation.ConsolidateTwice`). Two real calls differ in the
    footer, because `datetime.now()` is read again at
    `consolidation_engine.py:194`.
- **Rendering order** (`render_order.dfy`). The body of the consolidated text
  is a pre-order walk of the dispositivo tree. Its independent reference is
  `Precedes`, the dictionary order of the units' paths, where a path is the
  list positions from the root down to the unit. So an ancestor comes first.
  Otherwise the smaller list position decides where the two paths part, which
  covers both siblings and roots.
- **Norma** (`legislation.dfy`). Dates are lexicographic (year, month, day)
  triples, and "today" is a parameter.

Shared helpers:
- `text.dfy` models the Python string operations the source relies on. These
  are `str.isspace`, `strip`, `re.sub` run collapsing, `split('\n')`/`join`,
  clamped slicing, `lower()` and integer rendering.
- `text_shape.dfy` defines the layout of a string. A layout is the string's
  non-whitespace characters in order, with one gap for every maximal run of
  whitespace between them, and each gap records whether its run holds a line
  break. The layout is the reference for where the whitespace rewrites keep
  whitespace: `strip`, both run collapses, the `\n{3,}` substitution and
  `'\n'.join` are each proved to act on layouts in a fixed way.
- `sorting.dfy` holds a stable insertion sort with its permutation fact and
  its stability fact (`Sorting.SortByStable`). It also holds the `Map`,
  `FlatMap` and `Filter` combinators.

Three observations came out of the proofs:
- The line-start check in `extract_incisos` (`legal_parser.py:260-263`) can
  never reject a match that the `^`-anchored pattern produced
  (`Segmenter.SeparatorCheckNeverFires`).
- Which ALTERA event a dispositivo ends up with depends on the iteration
  order of the Python `set` built at `consolidation_engine.py:118`. The set
  of altered ids does not depend on it (`Consolidation.ProcessOrderIrrelevant`).
- The body normaliser of `_extract_text_until_next_marker` is not
  idempotent (`Segmenter.NormalizeBodyNotIdempotent`). Take any
  non-whitespace `a` and `b` and a space or tab `sp`. Then
  `"a\n\n sp \n\nb"` (without the spaces around `sp`) normalises to
  `"a\n\n\n\nb"`: the run collapse runs before the line that holds only
  `sp` is stripped to empty. A second pass gives `"a\n\nb"`. `clean_text`
  is idempotent and is proved so.

## Model

| member | source | states |
|---|---|---|
| Segmenter.FindAllMarkers | src/processing/legal_parser.py:76-94 | The merged list is sorted by position and holds exactly one marker per match of every recogniser, including `item` and every inciso match. Each marker's position is its match's start. |
| Segmenter.NextMarkerStart | src/processing/legal_parser.py:115-120 | The result is None exactly when no marker starts after the current one. Otherwise it is a marker position strictly after the start and, on the sorted list, the smallest one. |
| Segmenter.EveryMatchBoundsBodies | src/processing/legal_parser.py:84-94 | Any match of any kind that starts after a marker cuts that marker's body no later than the match. This includes inciso matches the date guard drops and `item` matches. |
| Segmenter.NormalizeBodyShape | src/processing/legal_parser.py:128-136 | A normalised body has no leading or trailing whitespace, and no line of it starts or ends with a space or tab. It has no tab and no two spaces in a row. It keeps every non-whitespace character of the raw slice, in order. |
| Segmenter.NormalizeBodyLayout | src/processing/legal_parser.py:129-136 | The normalised body's layout is the raw slice's layout without the whitespace at its two ends. So between two kept characters the body has whitespace exactly where the raw slice had it, and that whitespace holds a line break exactly when the raw whitespace did. |
| Segmenter.LineLayout | src/processing/legal_parser.py:134 | A normalised line has the line's layout without the whitespace at its ends. |
| Segmenter.MakeElementCut | src/processing/legal_parser.py:266-277 | An element built from a match starts at a line start, and `full_match` is the text of the match. `texto` is the normalised slice from the match end to the next marker, and `end_pos - len(texto)` is the match end. |
| Segmenter.KeptIncisosMembers | src/processing/legal_parser.py:252-263 | A match is among the kept incisos exactly when it is one of the inciso matches and passes both the date guard and the separator check. |
| Segmenter.KeptNotDate | src/processing/legal_parser.py:255-258 | No kept inciso match has four digits or a `d/d` pair in the ten characters before it. |
| Segmenter.SeparatorCheckNeverFires | src/processing/legal_parser.py:260-263 | For a well-formed match the separator check always passes, so only the date guard decides whether an inciso is kept. |
| Segmenter.ParseLegalText | src/processing/legal_parser.py:316-350 | The elements are sorted by `start_pos` and are a permutation of the element built for every extracted match. Their count is the article, paragraph, kept-inciso and alínea matches. Every element is cut at its own match with a normalised body, and no inciso follows a date. |
| Segmenter.ParseLegalTextSpans | src/processing/legal_parser.py:332-343 | Sorting the built dictionaries by `start_pos` gives the same list as building them from the spans sorted by match start. |
| Segmenter.NoMarkersNoElements | src/processing/legal_parser.py:316-350 | The result is empty exactly when there is no article, paragraph or alínea match and every inciso match is dropped by the date check, whatever the `item` matches are. |
| Segmenter.ParagrafoUnicoNumbered | src/processing/legal_parser.py:216-231 | Every "Parágrafo único" match yields a paragraph element numbered "único" at that match's start. |
| Segmenter.CleanText | src/processing/legal_parser.py:427-437 | The result has no leading or trailing whitespace, no two whitespace characters in a row and no en or em dash. Its non-whitespace characters are the input's, with dashes turned into hyphens. |
| Segmenter.CleanTextLayout | src/processing/legal_parser.py:428-437 | The result's layout is the input's without its end whitespace, with no gap holding a line break and with dashes made hyphens. The result is the only string with that layout whose whitespace is single, non-adjacent spaces. So it has exactly one space wherever the input had whitespace between two kept characters, and none elsewhere. |
| Segmenter.CleanTextFixedPoint | src/processing/legal_parser.py:427-437 | `clean_text` leaves a text unchanged exactly when the text is already clean. |
| Segmenter.CleanTextIdempotent | src/processing/legal_parser.py:427-437 | Cleaning twice gives the same text as cleaning once. |
| Segmenter.NormalizeBodyNotIdempotent | src/processing/legal_parser.py:128-136 | For non-whitespace `a`, `b` and a space or tab `sp`, normalising `a\n\n sp\n\nb` gives `a\n\n\n\nb`, and normalising that again gives the different text `a\n\nb`. |
| TextShape.ShapeStrip | src/processing/legal_parser.py:136 | `strip()` removes the gap at each end of the layout, if there is one, and changes nothing else. |
| TextShape.ShapeCollapse | src/processing/legal_parser.py:134 | Collapsing `[ \t]+` runs keeps the layout. Collapsing `\s+` runs keeps it too, except that no gap holds a line break afterwards. |
| TextShape.ShapeCollapseNewlines | src/processing/legal_parser.py:131 | The `\n{3,}` substitution keeps the layout. |
| TextShape.NewlineJoin | src/processing/legal_parser.py:135 | Joining two pieces with `'\n'` gives, once stripped, the two stripped layouts separated by one gap with a line break. When one piece is blank, only the other piece's stripped layout remains. |
| TextShape.CollapsedLayoutUnique | src/processing/legal_parser.py:428 | Two strings whose whitespace is single, non-adjacent spaces are equal exactly when their layouts are. |
| Sorting.SortByStable | src/processing/legal_parser.py:90-91 | Elements with the same key come out of the sort in the order they went in. |
| PyText.CollapseRunsKeeps | src/processing/legal_parser.py:428 | Collapsing whitespace runs into one space removes or adds only whitespace. |
| PyText.CollapseNewlinesFixedPoint | src/processing/legal_parser.py:131 | The `\n{3,}` substitution leaves a text unchanged exactly when it has no three newlines in a row. |
| PyText.SplitJoin | src/processing/legal_parser.py:133-135 | Joining lines with `'\n'` and splitting on `'\n'` gives back the same lines. |
| Hierarchy.BuildHierarchy | src/processing/legal_parser.py:369-411 | The output has one entry per element, with the element copied and `index == i`. Articles are roots, and any parent comes earlier and has strictly higher rank with no element of higher rank in between. An element with no parent has no earlier element of higher rank. |
| Hierarchy.ParentFromMeaning | src/processing/legal_parser.py:381-409 | The parent chosen from the three slots is exactly the nearest earlier element of strictly higher rank, and none for an article. |
| Hierarchy.SlotsMeaning | src/processing/legal_parser.py:370-400 | The slots hold the last article, the last paragraph with no article after it, and the last inciso with no article or paragraph after it. |
| Hierarchy.AlineaNeverParent | src/processing/legal_parser.py:402-409 | No element's parent is an alínea. |
| Hierarchy.ParentOfNext | src/processing/legal_parser.py:387-409 | An element that directly follows one of higher rank is that element's child. |
| Extractor.DetectActionsByKind | src/processing/ner_extractor.py:155-173 | Taken in result order, the occurrences of any one action are exactly that action's matches in match order, each with its span and matched text. |
| Extractor.DetectActions | src/processing/ner_extractor.py:155-173 | The occurrences number exactly the matches of all six kinds. They are grouped by action in the order REVOGA, ALTERA, ADICIONA, SUBSTITUI, REGULAMENTA, REFERENCIA, and each carries a span its own pattern matched. |
| Extractor.DetectFromShape | src/processing/ner_extractor.py:164-171 | Every occurrence is of a listed kind with one of that kind's spans. For kinds listed in strictly increasing rank, the occurrences are ordered by rank. |
| Extractor.ExtractEventsEmpty | src/processing/ner_extractor.py:109-113 | No event is produced exactly when no action pattern matches. |
| Extractor.WindowBounds | src/processing/ner_extractor.py:120-123 | The window is a substring of the text starting at the action, at most 200 characters longer than the action. It is exactly that long unless it reaches the end of the text. |
| Extractor.LawReferenceConsistent | src/processing/ner_extractor.py:185-203 | A law reference has norma info exactly when its confidence is 0.9, which happens exactly when the match has a year. Its `numero` is then the info's number and year joined by a slash, and its `tipo` is the info's type in lower case. An undated one keeps the stripped number at confidence 0.7. |
| Extractor.LawNumberReadBack | src/processing/ner_extractor.py:195 | The number and the year can be read back from "N/Y" by splitting at the last slash. |
| Extractor.ReferencesOrdered | src/processing/ner_extractor.py:175-264 | References are listed law, self, article, paragraph, inciso, alínea, and there is one per matcher match. |
| Extractor.ReferencesConfidence | src/processing/ner_extractor.py:205-262 | Every reference's confidence is 0.7, 0.9 or 0.95. |
| Extractor.OccurrenceEvents | src/processing/ner_extractor.py:128-151 | Every event of an occurrence carries that occurrence's action. When the window holds references there is one event per reference, in order, and event i carries reference i's text, tipo, numero, confidence and norma info. |
| Extractor.ExtractEventsContent | src/processing/ner_extractor.py:116-151 | An event is in the result exactly when some detected action produced it. It is either the event of one reference in that action's window, which is the action with the reference's text, tipo, numero, confidence and norma info and method `regex`. Or it is the action's fallback event, when its window holds no reference. |
| Extractor.EventCount | src/processing/ner_extractor.py:116-151 | The event count is the sum over the occurrences of max(1, references in the window). |
| Extractor.EventsOfKinds | src/processing/ner_extractor.py:116-151 | Every event's action is the action of some occurrence. |
| Extractor.ExtractEventsShape | src/processing/ner_extractor.py:82-153 | The events number the sum of max(1, references) over the detected actions and keep the declared action order. Each says `regex` with a confidence in {0.5, 0.7, 0.9, 0.95}. |
| Extractor.ExtractEventsByKind | src/processing/ner_extractor.py:116-151 | Taken in result order, the events of any one action are the events of that action's occurrences, one occurrence after another in match order. |
| Extractor.FallbackShape | src/processing/ner_extractor.py:140-151 | Without references an occurrence gives one event. Its target is the text from the action on, cut to its first 100 characters, or to the rest of the text when fewer remain. Its reference fields are empty, its confidence is 0.5 and it has no norma. |
| Extractor.NormalizeTipoIdempotent | src/processing/ner_extractor.py:284-293 | Normalising a type a second time changes nothing, because every value of the table maps to itself. |
| Extractor.NormalizeTipoIgnoresCase | src/processing/ner_extractor.py:293 | Two spellings of a known type that differ only in case normalise alike. |
| Extractor.RemoveSeparatorsKeeps | src/processing/ner_extractor.py:296 | Removing '.' and ',' gives the number's other characters in their original order, each with its multiplicity. A number without separators is unchanged. |
| Extractor.RemoveSeparatorsConcat | src/processing/ner_extractor.py:296 | Removing separators from a concatenation gives the results for the two parts, one after the other. |
| Extractor.ParseNormaReference | src/processing/ner_extractor.py:283-302 | Always returns a reference. Its tipo is the table's value for the lower-cased input when the table has that key, and the input itself otherwise. Its numero is the input's characters other than '.' and ',', in order. `ano` is passed through. |
| Extractor.ParseNormaReferenceIdempotent | src/processing/ner_extractor.py:283-302 | Normalising an already normalised reference changes nothing. |
| Legislation.NormaStrReadBack | src/apps/legislation/models.py:124-125 | The year follows the last slash of `str(norma)`, and what precedes the slash is "tipo numero", even when the number holds a slash. |
| Legislation.VacatioInterval | src/apps/legislation/models.py:134-138 | Not in vacatio when a date is missing, or on or after the effective date. Also not when the effective date is not after publication, or before publication. |
| Legislation.VacatioOrdinal | src/apps/legislation/models.py:137-138 | With both dates valid, vacatio holds exactly on the days from publication up to, but not including, the effective date, compared through an order-preserving integer code of the date. |
| Legislation.VacatioConvex | src/apps/legislation/models.py:138 | Every day between two vacatio days is a vacatio day. |
| Legislation.DateLeOrdinal | src/apps/legislation/models.py:138 | The lexicographic date comparison agrees with the order of the integer codes on valid dates, and equal codes mean equal dates. |
| Legislation.DateStrReadBack | src/processing/consolidation_engine.py:189-192 | `str(date)` is ten characters `YYYY-MM-DD` whose fields read back to the date. |
| Consolidation.RevokedMeaning | src/processing/consolidation_engine.py:130-137 | An id ends up revoked exactly when it was already revoked or some REVOGA event targets it. |
| Consolidation.AlteredKeys | src/processing/consolidation_engine.py:139-147 | An id ends up altered exactly when it already was or some ALTERA event targets it. |
| Consolidation.AlteredLast | src/processing/consolidation_engine.py:139-147 | The event stored for an altered id is the last ALTERA event for it, or the earlier entry when no event alters it. |
| Consolidation.ProcessOrderIrrelevant | src/processing/consolidation_engine.py:118 | Any two orders of the same events give the same revoked set and the same altered ids. |
| Consolidation.ProcessTwice | src/processing/consolidation_engine.py:130-152 | Processing the same events a second time changes nothing: the revoked set and the whole altered map, stored events included, stay as they are. |
| Consolidation.OwnCount | src/processing/consolidation_engine.py:213-240 | A unit writes one line of its own when revoked (revocation wins over alteration), two when altered, and one otherwise. It writes none for any other unit. |
| Consolidation.UnitCount | src/processing/consolidation_engine.py:199-249 | Rendering a unit writes a descendant's lines exactly when no unit on the path to it from that unit, the descendant excepted, is revoked. |
| Consolidation.RootsCount | src/processing/consolidation_engine.py:175-178 | Rendering the parentless units from a position on writes a unit's lines exactly when its root is at or after that position and it has no revoked ancestor. |
| Consolidation.BodyCount | src/processing/consolidation_engine.py:174-178 | The body holds each unit's own lines exactly once when no ancestor of it is revoked, and none of them otherwise. |
| RenderOrder.BodyOrder | src/processing/consolidation_engine.py:175-178 | For two distinct units with no revoked ancestor, every line of the first comes before every line of the second exactly when the first precedes the second in path order. |
| RenderOrder.UnitOrder | src/processing/consolidation_engine.py:199-249 | Whatever subtree is written, no line of a unit comes after a line of any unit it precedes in path order. |
| RenderOrder.BodyAnnotations | src/processing/consolidation_engine.py:228-234 | Every alteration note in the body sits on the line right after a text line of the same unit. |
| Consolidation.BodyPlaced | src/processing/consolidation_engine.py:213-240 | Every body line is indented by twice its unit's depth, two more for the annotation. The line is the "(REVOGADO)" placeholder exactly when its unit is revoked, and an annotation names the norma of the stored ALTERA event. |
| Consolidation.Root | src/processing/consolidation_engine.py:175 | Every unit hangs under a parentless unit that comes no later than it. |
| Consolidation.ConsolidateTwice | src/processing/consolidation_engine.py:43-75 | For one clock reading, consolidating again on the engine that `consolidate` leaves, with the same dispositivos and events, gives the same text and the same engine. |
| Consolidation.ConsolidateNoUnits | src/processing/consolidation_engine.py:55-57 | With no dispositivos the result is the original text, and the events are neither loaded nor processed. |
| Consolidation.FreshStatistics | src/processing/consolidation_engine.py:251-264 | After consolidating on a fresh engine the statistics count the dispositivos, the distinct REVOGA targets, the distinct ALTERA targets and the events. The norma string is `str(norma)`. |
| Consolidation.ConsolidateFooterReadBack | src/processing/consolidation_engine.py:180-197 | The consolidated text ends with the footer lines. The four counts printed there read back to the numbers `get_statistics` reports. |
| Consolidation.FooterCounts | src/processing/consolidation_engine.py:184-187 | Each count line is its label followed by digits that read back to the count. |
| Consolidation.FooterDates | src/processing/consolidation_engine.py:189-192 | The publication line and the effective-date line appear exactly when those dates are set, at fixed positions and with the dates rendered by `str(date)`. |
| Consolidation.FooterOneLine | src/processing/consolidation_engine.py:180-195 | No footer line holds a newline, so the footer occupies exactly its own lines of the text. |
| Consolidation.TimestampReadBack | src/processing/consolidation_engine.py:194 | The `%d/%m/%Y %H:%M:%S` stamp of a valid clock reading is 19 characters whose six fields read back to the reading. |

## Left out

- Regular expressions: the recognisers of `MARKER_PATTERNS`, `ACTION_PATTERNS` and the reference patterns are abstract match lists or matcher functions. Unicode classes and IGNORECASE are not modelled.
- `lower()` is modelled on ASCII and the Latin-1 upper-case range only. `\s` and `str.isspace` are CPython's whitespace set, and `\d` is the ASCII digits.
- Segmenter.NormalizeBodyShape: no idempotence is claimed, because the normaliser is not idempotent (`Segmenter.NormalizeBodyNotIdempotent`).
- Segmenter.Keeps also requires `m.start <= |text|`. A match always satisfies this; it keeps the ten-character look-back well defined.
- The ORM loaders `_load_dispositivos` and `_load_eventos` are replaced by parameters: the dispositivos in `ordem` order and the deduplicated event list.
- Dispositivo ids are assumed unique, and children are found by parent index rather than by comparing `dispositivo_pai_id` with the id. Under unique ids and an arena the two agree.
- `Dispositivo.__str__` is not part of this model. Its value is the `title` field, taken as given.
- `datetime.now()` and `timezone.now()` are parameters: a clock reading for the footer and "today" for vacatio.
- Legislation.ValidDate bounds the day by 31 only, not by month length. The order and rendering facts do not need more.
- `texto_original` is a string, with `None` modelled as `""`, which is what `or ""` returns for it.
- `strftime('%Y')` is modelled as a four-digit zero-padded year for years 1 to 9999.
- Logging calls have no effect on results and are left out.
- Floating-point confidences are exact reals (0.5, 0.7, 0.9, 0.95), since only those constants are assigned.
- PyText.ParseInt and PyText.ParseNat are read-back helpers for rendered numbers, not models of a source operation. Their value on malformed text is arbitrary.
- The header of `_build_consolidated_text` is modelled (`HeaderLines`), but no property beyond its use in the text is proved for it.
- The celery tasks, the minimum-length skip before extraction, the document-registry lookup, the SAPL client, the RAG and Ollama services, caching and the views are outside this model.
