# Japanese sentence builder: generator, coercions, CSV import and pagination

A Dafny model of the core of a small Japanese-vocabulary web application. The
server keeps vocabulary, sentence templates with named slots, tags, and the
sentences generated from them in SQLite. The browser client lists, imports and
pages through those records.

The model covers:

- **The sentence generator** (`POST /api/generate`).
  - It picks a random active template tagged with the requested tag.
  - It reads the template's slots in slot order.
  - For each slot it draws a random vocabulary row that matches the slot's part
    of speech, the caller's difficulty, JLPT and politeness filters, and the
    tag's topic/subtopic mappings. It fails at the first slot without a match.
  - It fills every `{slot_name}` placeholder with the row's display form and
    splits the sentence into whitespace tokens.
  - It derives the difficulty, JLPT level and politeness of the sentence.
  - It inserts the sentence row and one link row per slot.

  The store is `Generator.Database`, a class with one sequence field per table.
  The handler is a method that appends to the two tables it writes. Each random
  draw (`ORDER BY RANDOM() LIMIT 1`, `Math.random()`) is a nondeterministic
  choice among the eligible rows.
- **The server's value coercions.**
  - The truthy-literal flags of the create endpoints and of the favourite toggle.
  - `toInt` (`parseInt(value, 10)` with a fallback for NaN).
- **The client's CSV import parser** `parseCsv`. It splits on `\r?\n`, trims,
  drops blank lines, takes the first line as headers, and builds one object per
  data line, with missing cells set to `''` and the last duplicate header
  winning. It is an imperative method proved equal to a functional
  specification; the properties are lemmas about that specification.
- **The client's list pagination.**
  - `ensurePositiveInt`.
  - The page-count and clamp step at the end of each list load.
  - The prev/next buttons.
  - The list state `{ page, pageSize, totalPages }` is the class
    `Pagination.ListState`.

Modules: `Wrappers` (Option/Result), `Store` (the records), `JsText` (JavaScript
`trim` and `split`), `VocabQuery` (the slot's WHERE clause), `Compose`
(display value, the `chosen` object, placeholder substitution, tokens),
`Metadata` (difficulty / JLPT / politeness), `Generator` (the handler and the
store), `Coercion`, `Csv`, `Pagination`.

## Model

| member | source | states |
|---|---|---|
| Generator.Database.Generate | backend/server.js:827-1026 | Three failure cases. A missing (falsy) tagId fails with "tagId is required". A tag with no active tagged template fails with "No active templates". A picked template whose slots cannot all be filled fails with its own error (see GenerateFrom). A failure writes nothing. The request succeeds whenever every eligible template can be filled. On success, the picked template is eligible and `Written` holds: one sentence row plus one link row per slot, the links point at the new sentence, and every link points at an existing sentence. |
| Generator.Database.GenerateFrom | backend/server.js:864-1013 | Once a template is picked there are two failures. A template with no slots fails with "no slots defined". Otherwise it fails by naming the first slot in slot order that has no candidate row, and the tables are unchanged. A template whose slots all have candidates always succeeds and writes exactly what `Written` describes. |
| Generator.Database.PickVocabForSlot | backend/server.js:889-930 | It returns a vocabulary row that the slot's WHERE clause accepts. It returns null exactly when no row of the table is accepted. |
| Generator.Database.ResolveSlots | backend/server.js:932-944 | It succeeds exactly when every slot has a candidate. Then it resolves each slot in order to an accepted row named after the slot, and `chosen` is those rows assigned by slot name. On failure it reports the first slot without a candidate. |
| Generator.Database.InsertLinks | backend/server.js:1004-1013 | It appends one link row per resolved slot, in order. Each link has the next free rowid and references the new sentence, the row and the slot name. |
| Generator.Database.Record | backend/server.js:982-1013 | It appends the sentence row and its link rows. The link-to-sentence reference invariant is kept, and the new sentence has exactly one link per slot. |
| Generator.Database.Complete | backend/server.js:946-1013 | Given resolved slots, the answer is the filled and tokenised sentence with the caller's or the derived metadata, and the two inserts are made as `Written` says. |
| Generator.Database.Answer | backend/server.js:946-978 | The answer carries the pattern with each `chosen` entry substituted, its whitespace tokens, no translation, the source tag, and the three derived metadata values. |
| Generator.EligibleTemplates | backend/server.js:841-853 | The templates returned are exactly the active ones (`is_active = 1`) that carry a 'template' tagging for the tag. |
| Generator.SortSlots | backend/server.js:865-871 | The result is ordered by (order_index, id) and is a permutation of its input. |
| Generator.InsertSlot | backend/server.js:869 | Inserting one slot into a sorted list keeps it sorted and adds exactly that slot. |
| Generator.SlotsWithTemplate | backend/server.js:867-868 | It keeps exactly the slots whose template_id is the template's, each as many times as the table holds it (multiset equality). |
| Generator.SlotsOf | backend/server.js:865-871 | The slot query: exactly the template's slots, each as many times as the table holds it, in (order_index, id) order. So one link row per slot row. |
| Generator.MappingsFor | backend/server.js:880-886 | It keeps exactly the topic mappings whose tag_id is the tag's. |
| Generator.ChosenOf | backend/server.js:932-944 | The `chosen` object has distinct keys and no more entries than there are slots. |
| Generator.ChosenOfNamesEverySlot | backend/server.js:942 | Every slot name is a key of `chosen`. |
| Generator.ChosenOfDrawnFromRows | backend/server.js:942-943 | Every entry of `chosen` is one of the resolved rows, under its own slot name. When slot names repeat, the last row wins. |
| Generator.NoPlaceholderLeft | backend/server.js:947-953 | If the pattern's braces do not nest and names and display values contain no braces, no `{slot_name}` of a resolved slot is left in the sentence. |
| Generator.ChosenIsClean | backend/server.js:947-953 | Brace-free slot names and display values carry over from the resolved rows to `chosen`. |
| Generator.ResolvedRowsMatchFilters | backend/server.js:889-904 | Every resolved row has the slot's part of speech ('noun' when the slot has none) and every filter the caller supplied. |
| Generator.AnswerFor | backend/server.js:946-978 | The specification of the answer: id, template id, substituted sentence, null translation, politeness, JLPT, difficulty, source tag and tokens. Database.Answer is proved to return it. |
| Generator.SentenceRow | backend/server.js:982-1000 | The inserted `generated_sentences` row: the answer's fields, with `is_favorite` 0. Database.Record is proved to append it. |
| Generator.LinkRows | backend/server.js:1004-1013 | The inserted `generated_sentence_vocabulary` rows, one per resolved slot in order, with consecutive ids from `first`. CountLinkRows and InsertLinks state its properties. |
| Generator.RowsOf | backend/server.js:963-977 | Definition of `vocabRows.map(x => x.row)`, with no contract of its own. Its meaning is stated where it is used: by `Metadata.SentenceDifficulty` and `Metadata.FirstTruthy` on the rows, and by `Generator.AnswerFor` for the answer. |
| Generator.MaxOf | backend/server.js:1002 | It returns the largest id, and that id is in the table. |
| Generator.NextRowId | backend/server.js:1002 | The rowid of an insert is larger than every id already in the table. |
| Generator.NextRowIdAfterInsert | backend/server.js:1011-1013 | After an insert the next rowid is one higher, so consecutive link rows get consecutive ids. |
| Generator.CountLinkRows | backend/server.js:1011-1013 | The link rows of one generation all reference its sentence: one per slot. |
| Generator.ReferencesKept | backend/server.js:982-1013 | Appending a sentence and links to that sentence keeps every link referencing an existing sentence. |
| Generator.FreshSentenceHasNoLinks | backend/server.js:1002 | While links only reference existing sentences, the new sentence id has no link rows yet. |
| VocabQuery.Accepts | backend/server.js:889-921 | The condition a row must meet for a slot: the part of speech, each supplied filter, and the topic alternatives when some mapping has a topic. BuildWhere is proved equivalent to it. |
| VocabQuery.SlotPartOfSpeech | backend/server.js:890-891 | The part of speech searched is the slot's own when it has one, and is never empty ('noun' otherwise). |
| VocabQuery.TopicClauses | backend/server.js:906-921 | It produces no topic clause exactly when no mapping has a topic. A row satisfies some alternative exactly when some mapping with a topic admits it: the same topic, and the same subtopic when the mapping names one. |
| VocabQuery.BuildWhere | backend/server.js:889-921 | The first clause is the part-of-speech test. A row satisfies the whole WHERE clause exactly when the slot's acceptance predicate holds: part of speech, each supplied filter, and the topic alternatives. |
| VocabQuery.WhereAppend | backend/server.js:925 | The clauses are joined with AND: appending a clause conjoins it. |
| VocabQuery.FoodOrTrains | backend/server.js:906-921 | Example: with mappings food/(none) and travel/trains, an accepted row is about food or about trains in travel. |
| Compose.DisplayValue | backend/server.js:949-950 | The display form is the first non-empty value of the chain requested field, kanji, romaji, furigana, meaning. It is '' only when all of them are empty. |
| Compose.FuriganaFallsBackToKanji | backend/server.js:949-950 | With the default field and no furigana, a row with kanji shows its kanji. |
| Compose.DisplayValueNonEmpty | backend/server.js:949-952 | A row with any display form is never shown as ''. |
| Compose.Assign | backend/server.js:942 | `chosen[name] = v`: a new name is appended as the last key, so the object grows by one, and an existing name keeps its place with its row replaced, so the size is unchanged. Distinct keys stay distinct. |
| Compose.Placeholder | backend/server.js:951 | The searched text starts with '{' and ends with '}'. |
| Compose.ReplaceAllAbsent | backend/server.js:952 | A global replace of text that does not occur changes nothing. |
| Compose.ReplaceAllBySelf | backend/server.js:952 | Replacing a text by itself changes nothing. |
| Compose.NoPlaceholderCreated | backend/server.js:951-952 | With unnested braces and brace-free values, a replacement creates no placeholder that was not already there. |
| Compose.UnnestedPreserved | backend/server.js:951-952 | A brace-free replacement keeps the braces of the sentence unnested. |
| Compose.SubstitutedLeavesNoPlaceholder | backend/server.js:947-953 | After substituting every entry of a clean `chosen`, none of its placeholders remains. |
| Compose.Substitute | backend/server.js:947-953 | The loop over `Object.entries(chosen)` computes the specified substitution. When the substitution is clean, no placeholder of `chosen` remains. |
| Compose.NestedBracesRebuildPlaceholder | backend/server.js:951-952 | Counterexample: with nested braces, `{a{aXb}b}` with value X for slot aXb becomes `{aXb}` again. The no-placeholder property needs its hypothesis. |
| Compose.Tokens | backend/server.js:955-958 | `split(/\s+/).filter(Boolean)`: every token is non-empty and contains no whitespace. |
| Compose.TokensKeepNonSpace | backend/server.js:955-958 | The tokens, concatenated, are the sentence with its whitespace removed. Nothing else is lost or reordered. |
| Compose.TokensOfLeadingSpace | backend/server.js:956-957 | Leading whitespace produces no empty token. |
| Compose.TokensOfJoin | backend/server.js:955-958 | Splitting words joined by single spaces gives back the words. |
| Compose.TokensOfSpaced | backend/server.js:955-958 | Words laid out with any whitespace gaps (any `\s` characters, any run length, optional gaps at both ends) tokenise back to exactly those words. |
| Compose.SentenceIsSpacedTokens | backend/server.js:955-958 | Every sentence is its tokens laid out with whitespace gaps (`GapsOf`), so with TokensOfSpaced the tokens are exactly the maximal non-whitespace pieces of the sentence, in order. |
| Compose.GapsOf | backend/server.js:956 | There is one whitespace gap more than there are tokens, and the first gap is non-empty when the sentence starts with whitespace. |
| Compose.ReplaceAll | backend/server.js:951-952 | `sentence.replace(re, value)` with a global pattern, modelled as a left-to-right, non-overlapping literal replacement. It has no contract of its own; ReplaceAllAbsent, ReplaceAllBySelf, NoPlaceholderCreated and UnnestedPreserved state its properties. |
| Compose.Substituted | backend/server.js:947-953 | The sentence after `Object.entries(chosen).forEach` has replaced each entry's placeholder in key order. It is the specification that Substitute is proved against, and SubstitutedLeavesNoPlaceholder states its property. |
| Compose.FieldOf | backend/server.js:950 | `v[displayField]` read as text: a column value, the decimal id, or '' for any other name. It is the first link of DisplayValue's chain. |
| Metadata.AnyDifficulty | backend/server.js:963-967 | `some(x => x.row.difficulty === level)`: true exactly when some row has the level. |
| Metadata.SentenceDifficulty | backend/server.js:961-969 | The caller's difficulty if given. Otherwise Advanced if some row is Advanced, Intermediate if none is Advanced and some is Intermediate, Beginner similarly, and null when no row has a known level. |
| Metadata.DerivedDifficultyIsMaximum | backend/server.js:961-969 | The derived difficulty is the highest level among the rows, and some row has it. |
| Metadata.DifficultyIgnoresOrder | backend/server.js:961-969 | The derived difficulty does not depend on the order of the rows. |
| Metadata.OrReduce | backend/server.js:973 | `reduce((acc, x) => acc \|\| x)`: the accumulator if truthy, else the first truthy value, else falsy. |
| Metadata.FirstTruthy | backend/server.js:971-978 | JLPT and politeness: the caller's value, else the first truthy value in slot order, else null. |
| Metadata.FirstTruthyDependsOnOrder | backend/server.js:971-973 | Unlike the difficulty, the JLPT level does depend on slot order (N5,N3 gives N5; N3,N5 gives N3). |
| Metadata.JlptLevels | backend/server.js:973 | Definition of the rows' JLPT levels in slot order, with no contract of its own. `Metadata.FirstTruthy` states what is taken from it, and `Generator.AnswerFor` uses it. |
| Metadata.PolitenessLevels | backend/server.js:977 | Definition of the rows' politeness levels in slot order, with no contract of its own. `Metadata.FirstTruthy` states what is taken from it, and `Generator.AnswerFor` uses it. |
| Coercion.CreateFlag | backend/server.js:459-466 | The stored flag is 0 or 1. |
| Coercion.CreateFlagLiterals | backend/server.js:556-563 | The create flag is 1 for exactly true, 'true', 'on', 1 and '1'. |
| Coercion.FavoriteToggleFlag | backend/server.js:808-814 | The toggled flag is 0 or 1. |
| Coercion.FavoriteToggleLiterals | backend/server.js:808-814 | The toggle flag is 1 for exactly true, 'true', 1 and '1'. The CSV import paths (lines 497-503, 606-612, 764-772) use the same set. |
| Coercion.ToggleDiffersOnlyOnOn | backend/server.js:700-707 | The create coercion and the toggle coercion differ on exactly one value, the checkbox string 'on'. |
| Coercion.CheckboxBooleansAgree | backend/server.js:700-707 | On a JSON boolean both coercions store the boolean as 1/0. |
| Coercion.ToInt | backend/server.js:129-132 | `toInt`: the parsed integer, or the fallback when `parseInt` gives NaN. ToIntOfRendering and ToIntWithoutDigits state its properties. |
| Coercion.ParseInt | backend/server.js:130 | `parseInt(value, 10)`: leading whitespace skipped, then ParseSigned. ParseIntOfRendering states its property. |
| Coercion.ParseSigned | backend/server.js:130 | An optional sign and the longest digit run, or NaN when there is no digit. ParseUnsigned and ParseNegative state its properties. |
| Coercion.DigitRun | backend/server.js:130 | The digit prefix that `parseInt` reads: all digits, followed by a non-digit or the end. |
| Coercion.ParseIntOfRendering | backend/server.js:130 | `parseInt` of a safe integer's decimal text, followed by anything that does not start with a digit, is that integer. |
| Coercion.ToIntOfRendering | backend/server.js:129-132 | `toInt` of a safe integer's decimal text is that integer, whatever the fallback. |
| Coercion.ToIntWithoutDigits | backend/server.js:129-132 | A value with no digit at all, including an absent one, gives the fallback. |
| JsText.TrimStart | backend/server.js:130 | It removes exactly the leading whitespace, as `parseInt` does first. |
| JsText.TrimEnd | web/app.js:974 | It removes exactly the trailing whitespace: what it keeps is a prefix that does not end in whitespace, and what it drops is all whitespace. |
| JsText.Trim | web/app.js:974 | The result neither starts nor ends with whitespace. |
| JsText.TrimPadded | web/app.js:974 | The input is the trimmed result with only whitespace before and after it (`Padded`). |
| JsText.TrimEmptyIffAllSpace | web/app.js:975 | A trimmed line is empty exactly when the line is all whitespace. |
| JsText.TrimIdempotent | web/app.js:974 | Trimming twice is trimming once. |
| JsText.Split | web/app.js:983 | `split(',')`: at least one piece, none containing the separator, and rejoining gives the input. |
| JsText.SplitJoin | web/app.js:983 | Splitting joined separator-free pieces gives back the pieces. |
| Csv.Lines | web/app.js:972-975 | The lines of the text split on `\r?\n`, trimmed, with the empty ones dropped. LinesSplitOnLf, NonEmpty and BlankInputHasNoRows state its properties. |
| Csv.Headers | web/app.js:979 | The first line split on ',' with each header trimmed. EveryRowHasTheHeaders states its property. |
| Csv.ParsedRows | web/app.js:971-992 | The specification of `parseCsv`: one row object per line after the header line. ParseCsv is proved equal to it, and EveryRowHasTheHeaders, CellValue and MissingColumnIsEmpty state its properties. |
| Csv.ParseCsv | web/app.js:971-992 | The loop computes the specified rows: no rows for no non-blank line, else one per non-blank line after the header line. |
| Csv.NonBlankLines | web/app.js:972-975 | It computes the trimmed non-blank lines of the text. |
| Csv.BuildRow | web/app.js:983-987 | It computes the object of one data line: each header set to its trimmed cell, assigned in header order. |
| Csv.RowsFrom | web/app.js:977-991 | It computes one object per line after the header line, in order. |
| Csv.NonEmpty | web/app.js:975 | `filter(l => l.length > 0)`: it keeps only non-empty lines, and leaves none exactly when every line is empty. |
| Csv.NonEmptyCons | web/app.js:975 | `filter` keeps the input order: the front line stays in front when it is non-empty. |
| Csv.FirstKept | web/app.js:975 | The first kept line is the first non-empty line of the input. |
| Csv.HeaderLineIsFirstNonBlank | web/app.js:972-979 | `lines[0]`, the header line, is the first line of the text that is not blank once trimmed. |
| Csv.NonEmptyMembers | web/app.js:975 | A line is kept exactly when it is a non-empty line of the input. |
| Csv.LinesSplitOnLf | web/app.js:972-975 | Splitting on `\r?\n` and trimming gives the same lines as splitting on `\n` and trimming, because the trim removes the `\r`. |
| Csv.DataRows | web/app.js:982-989 | One object per data line. |
| Csv.RowsOf | web/app.js:977-991 | No rows for no lines, else one fewer than the lines. |
| Csv.Cells | web/app.js:986 | One cell per header. |
| Csv.LastIndex | web/app.js:985-987 | Of duplicate headers, the last occurrence is the one whose cell stays in the object. |
| Csv.RowOfKeys | web/app.js:984-987 | The keys of a row object are exactly the headers. |
| Csv.RowOfValue | web/app.js:984-987 | A header's value is the cell at the header's last occurrence. |
| Csv.EveryRowHasTheHeaders | web/app.js:979-987 | Every parsed row has exactly the (trimmed) headers as keys. |
| Csv.BlankInputHasNoRows | web/app.js:972-977 | Whitespace-only input yields no rows. |
| Csv.CellsHoldNoComma | web/app.js:983-986 | No cell contains a comma: quoting is not supported. |
| Csv.CellValue | web/app.js:985-987 | A header's value is the trimmed column, at the header's last occurrence, of the split data line, or '' past the end. |
| Csv.MissingColumnIsEmpty | web/app.js:986 | A line with fewer columns than headers gives '' for the missing ones. |
| Pagination.EnsurePositiveInt | web/app.js:392-395 | The number itself exactly when it is a positive integer, otherwise the fallback. |
| Pagination.EnsurePositiveIntIsPositive | web/app.js:392-395 | With a positive integer fallback the result is a positive integer, and a second application changes nothing. |
| Pagination.EnsurePositiveIntRejects | web/app.js:392-395 | NaN, infinity, a fraction, zero and a negative number all give the fallback. |
| Pagination.PageOrFirst | web/app.js:445 | The requested page is `ensurePositiveInt(page, 1)` and is at least 1. |
| Pagination.PagesFor | web/app.js:506 | `Math.ceil(total / pageSize)` is the fewest pages that hold every item. |
| Pagination.TotalPages | web/app.js:506 | At least one page, enough pages for every item, and no page beyond the first is empty. |
| Pagination.TotalPagesExamples | web/app.js:506 | Concrete cases: an empty list has one page, n full pages are n pages, and one more item needs page n+1. |
| Pagination.Clamp | web/app.js:508 | `Math.min`: at most both arguments, and equal to one of them. |
| Pagination.Prev | web/app.js:523 | It moves one page back, but never below 1. |
| Pagination.Next | web/app.js:525 | It moves one page forward, but never beyond the page count. |
| Pagination.LoadedPageInRange | web/app.js:506-508 | After a load the page lies between 1 and the page count. A requested page in range is kept. |
| Pagination.NavigationKeepsRange | web/app.js:522-526 | Within range, prev and next stay in range and move by one except at the ends, and each undoes the other. |
| Pagination.ListState.constructor | web/app.js:24-26 | A list starts on page 1 of 1 with 20 items per page, which is a valid state. |
| Pagination.ListState.FinishLoad | web/app.js:506-508 | The page count is recomputed from the server's total and the requested page is clamped to it. The state is valid afterwards. |
| Pagination.ListState.Click | web/app.js:520-526 | 'prev' and 'next' move the page as Prev/Next say, and any other direction leaves it unchanged. A valid state stays valid. |

## Left out

- HTTP: Express routing, JSON body parsing, status codes and static file serving. A handler answer is a `Result`, and its error carries the failure kind, not the message text.
- SQLite: the tables are sequences in `Generator.Database`, and each query is a function with the same result set. SQL text, prepared statements and parameter binding are not modelled.
- Randomness: `Math.random()` and `ORDER BY RANDOM()` are nondeterministic choices (`:|`). The model says nothing about the distribution.
- Timestamps: `created_at` values (`new Date().toISOString()`) are not modelled.
- Transactions and concurrency: the two inserts are not atomic in the source either, and concurrent requests are not modelled.
- Slot names are the source text of a regular expression (`new RegExp('{' + name + '}', 'g')`). The model replaces `{name}` literally. It therefore differs from the source for every name that is significant to the regular-expression syntax. Metacharacters such as `.`, `*`, `(` or `\` change what is matched. An integer-like name such as `1` makes `{1}` a quantifier with nothing to repeat: the constructor throws, the request fails with a 500, and nothing is inserted, while the model succeeds. `$` patterns in display values (`$&`, `$1`) are not modelled either. The model matches the source only for names and values that contain none of these.
- Compose.Assign: a slot named `__proto__` sets the prototype of `chosen` instead of adding a key, so `Object.entries` skips it and `{__proto__}` stays in the sentence. The model adds it as an ordinary key and replaces it. (`Object.entries` would list integer-like keys first in numeric order, but such names make the regular expression throw first, as above, so this never affects a successful answer.)
- Compose.FieldOf: a `displayField` that names no vocabulary column and no `id` reads ''. The chain then falls back to kanji. In the source, a name with no property at all reads `undefined`, which agrees. A name inherited from `Object.prototype` does not agree. With `toString`, `valueOf` or `constructor` the field reads a function, which `replace` calls as a replacer (`toString` yields "[object Undefined]"). With `__proto__` it reads an object, which is converted to text. Non-string values of the request fields are not modelled.
- `tagId`: every falsy tagId is modelled as 0, and the `Number(tagId)` conversion of non-numeric input is not modelled. A truthy tagId whose `Number(tagId)` is 0 or NaN (such as `"0"`, `" "` or `"abc"`) passes the `!tagId` guard and is then looked up as tag 0 or NaN, so it fails with "No active templates mapped to this tag yet." rather than "tagId is required". The model's integer tagId cannot represent such a value, so this case is not modelled.
- JSON objects and arrays as request values are not modelled (both flag coercions store 0 for them).
- Pagination.EnsurePositiveInt: takes the number after `Number(value)`. The conversion of arbitrary values to numbers is not modelled.
- Slots with a NULL `order_index` (SQLite sorts NULL first) are not modelled; `orderIndex` is an integer.
- In the CSV parser, a header named `__proto__` (which sets the prototype instead of a key) and the key order of a row object are not modelled; a row is a `map`.
- Row ids: SQLite's rowid of an insert is one more than the largest (1 for an empty table). Reuse after deletes at the maximum, and overflow past 2^63-1, are not modelled.
- The rest of the server: the list, create, update, delete, tag and import endpoints are not modelled, except their flag coercions and `toInt`.
- The rest of the client: DOM rendering, `fetch` calls, the import modal, and the request `offset` computed from the page. Each list loader sends the request with the page before clamping; the model covers only the state after the load (`FinishLoad`). The sentence library stores `ensurePositiveInt(page, 1)` of the requested page before loading and clamps it afterwards. `FinishLoad` takes the requested page to be the stored one, which is the case for the reload after a prev/next click (web/app.js:884). With no click in between, both give the same final state.
- Coercion.ParseInt: computes the exact integer of the digits. The source's `parseInt` returns a double, which rounds integers beyond `Number.MAX_SAFE_INTEGER` (2^53 - 1); `toInt("9007199254740993", f)` is 9007199254740992 there.
- Coercion.ParseIntOfRendering: stated only for integers of magnitude at most `Number.MAX_SAFE_INTEGER`, because of that rounding.
- Coercion.ToIntOfRendering: stated only for integers of magnitude at most `Number.MAX_SAFE_INTEGER`, for the same reason.
- Generator.NoPlaceholderLeft: proved only for patterns whose braces do not nest and for brace-free names and values. `Compose.NestedBracesRebuildPlaceholder` shows that a placeholder can be rebuilt otherwise.
- Pagination.ListState.FinishLoad: the other sentence-library reloads call `loadSentenceLibraryPage(1)` (web/app.js:766, 779, 787, 1068, 1432, 1509, 1535). These set the page to 1 before loading, so their final state is `FinishLoad` run on a state whose page is 1, not on the old page. That reset is not a separate operation of the model.
- Pagination.ListState.FinishLoad: a load reads `page` before its `await` and writes the clamped value back after it. A prev/next click during the request is therefore overwritten in the source. Interleaving of clicks with a pending load is not modelled, and each load is one atomic step.
