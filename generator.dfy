/** `POST /api/generate`: the sentence generator. Given a tag and optional
    filters it picks an active template tagged with the tag, resolves each of the
    template's slots to a vocabulary row, fills the pattern, derives the sentence's
    metadata and records the sentence together with one link row per slot.

    The store is an object whose tables are sequences of records; the generator
    reads the vocabulary, template, slot, tagging and mapping tables and appends to
    the sentence and link tables. The two random choices of the server (the template
    and, per slot, the vocabulary row) are nondeterministic choices among the rows
    that qualify. */
module Generator {
  import opened Wrappers
  import opened Store
  import opened VocabQuery
  import opened Compose
  import opened Metadata

  /** The request body. `tagId` 0 stands for a missing or falsy tag id; an empty
      filter stands for one that was not supplied; `displayField` None is `undefined`. */
  datatype Request = Request(
    tagId: int,
    difficulty: string,
    jlptLevel: string,
    politenessLevel: string,
    displayField: Option<string>)

  function FiltersOf(req: Request): Filters {
    Filters(req.difficulty, req.jlptLevel, req.politenessLevel)
  }

  /** The destructuring default: "furigana" when the field is absent. */
  function DisplayFieldOf(req: Request): string {
    if req.displayField.Some? then req.displayField.value else "furigana"
  }

  /** The four 400 answers of the handler. */
  datatype GenerateError =
    | MissingTagId
    | NoActiveTemplates
    | TemplateHasNoSlots
    | NoVocabularyForSlot(slotName: string)

  /** The success answer (`englishSentence` is always null). */
  datatype Generated = Generated(
    id: int,
    templateId: int,
    japaneseSentence: string,
    englishSentence: Option<string>,
    politenessLevel: Option<string>,
    jlptLevel: Option<string>,
    difficulty: Option<string>,
    sourceTagId: int,
    tokens: seq<string>)

  /** The sentence row the handler inserts for an answer: not a favourite. */
  function SentenceRow(g: Generated): GeneratedSentence {
    GeneratedSentence(g.id, Some(g.templateId), g.japaneseSentence, g.englishSentence,
                      g.politenessLevel, g.jlptLevel, g.difficulty, Some(g.sourceTagId), 0)
  }

  // ---- template selection -----------------------------------------------------

  predicate TaggedWith(taggings: seq<Tagging>, tagId: int, templateId: int) {
    exists k :: 0 <= k < |taggings| && taggings[k].tagId == tagId
      && taggings[k].targetType == "template" && taggings[k].targetId == templateId
  }

  predicate Eligible(t: SentenceTemplate, taggings: seq<Tagging>, tagId: int) {
    t.isActive == 1 && TaggedWith(taggings, tagId, t.id)
  }

  /** The join of `sentence_templates` with `taggings`: exactly the active templates
      that carry a 'template' tagging for the tag. */
  function EligibleTemplates(templates: seq<SentenceTemplate>, taggings: seq<Tagging>, tagId: int)
    : (r: seq<SentenceTemplate>)
    ensures forall t :: t in r <==> t in templates && Eligible(t, taggings, tagId)
  {
    if templates == [] then []
    else
      var rest := EligibleTemplates(templates[1..], taggings, tagId);
      assert forall t :: t in templates <==> t == templates[0] || t in templates[1..];
      if Eligible(templates[0], taggings, tagId) then [templates[0]] + rest else rest
  }

  // ---- the slots of a template, ORDER BY order_index ASC, id ASC ---------------

  predicate SlotBefore(a: TemplateSlot, b: TemplateSlot) {
    a.orderIndex < b.orderIndex || (a.orderIndex == b.orderIndex && a.id <= b.id)
  }

  predicate SortedSlots(s: seq<TemplateSlot>) {
    forall i, j :: 0 <= i < j < |s| ==> SlotBefore(s[i], s[j])
  }

  function InsertSlot(x: TemplateSlot, s: seq<TemplateSlot>): (r: seq<TemplateSlot>)
    requires SortedSlots(s)
    ensures SortedSlots(r) && multiset(r) == multiset(s) + multiset{x}
  {
    if s == [] then [x]
    else if SlotBefore(x, s[0]) then [x] + s
    else
      var rest := InsertSlot(x, s[1..]);
      assert s == [s[0]] + s[1..];
      assert forall k :: 0 <= k < |rest| ==> SlotBefore(s[0], rest[k]) by {
        forall k | 0 <= k < |rest| ensures SlotBefore(s[0], rest[k]) {
          assert rest[k] in multiset(rest);
        }
      }
      [s[0]] + rest
  }

  function SortSlots(s: seq<TemplateSlot>): (r: seq<TemplateSlot>)
    ensures SortedSlots(r) && multiset(r) == multiset(s)
  {
    if s == [] then []
    else
      assert s == [s[0]] + s[1..];
      InsertSlot(s[0], SortSlots(s[1..]))
  }

  /** `WHERE template_id = ?`: each of the template's rows, as often as the table holds it. */
  function SlotsWithTemplate(slots: seq<TemplateSlot>, templateId: int): (r: seq<TemplateSlot>)
    ensures forall x :: x in r <==> x in slots && x.templateId == templateId
    ensures forall x :: multiset(r)[x] == if x.templateId == templateId then multiset(slots)[x] else 0
  {
    if slots == [] then []
    else
      var rest := SlotsWithTemplate(slots[1..], templateId);
      assert slots == [slots[0]] + slots[1..];
      assert forall x :: x in slots <==> x == slots[0] || x in slots[1..];
      if slots[0].templateId == templateId then [slots[0]] + rest else rest
  }

  /** The slot query of a template: its slots, each once per table row, in slot order. */
  function SlotsOf(slots: seq<TemplateSlot>, templateId: int): (r: seq<TemplateSlot>)
    ensures SortedSlots(r)
    ensures forall x :: x in r <==> x in slots && x.templateId == templateId
    ensures forall x :: multiset(r)[x] == if x.templateId == templateId then multiset(slots)[x] else 0
  {
    var mine := SlotsWithTemplate(slots, templateId);
    var r := SortSlots(mine);
    assert forall x :: x in r <==> x in multiset(mine);
    r
  }

  /** The mapping query of a tag. */
  function MappingsFor(mappings: seq<TagVocabMapping>, tagId: int): (r: seq<TagVocabMapping>)
    ensures forall m :: m in r <==> m in mappings && m.tagId == tagId
  {
    if mappings == [] then []
    else
      var rest := MappingsFor(mappings[1..], tagId);
      assert forall m :: m in mappings <==> m == mappings[0] || m in mappings[1..];
      if mappings[0].tagId == tagId then [mappings[0]] + rest else rest
  }

  // ---- slot resolution ----------------------------------------------------------

  predicate HasCandidate(vocabulary: seq<Vocabulary>, slot: TemplateSlot, filters: Filters, tagMappings: seq<TagVocabMapping>) {
    exists v :: v in vocabulary && Accepts(v, slot, filters, tagMappings)
  }

  /** `rows` fills `tslots` one for one, in order, each with an acceptable row of the vocabulary. */
  predicate ResolvedFor(vocabulary: seq<Vocabulary>, tslots: seq<TemplateSlot>, filters: Filters,
                        tagMappings: seq<TagVocabMapping>, rows: seq<Entry>) {
    && |rows| == |tslots|
    && forall i :: 0 <= i < |rows| ==>
         && rows[i].name == tslots[i].slotName
         && rows[i].row in vocabulary
         && Accepts(rows[i].row, tslots[i], filters, tagMappings)
  }

  lemma ResolvedForSnoc(vocabulary: seq<Vocabulary>, tslots: seq<TemplateSlot>, i: int, filters: Filters,
                        tagMappings: seq<TagVocabMapping>, rows: seq<Entry>, v: Vocabulary)
    requires 0 <= i < |tslots| && ResolvedFor(vocabulary, tslots[..i], filters, tagMappings, rows)
    requires v in vocabulary && Accepts(v, tslots[i], filters, tagMappings)
    ensures ResolvedFor(vocabulary, tslots[..i + 1], filters, tagMappings, rows + [Entry(tslots[i].slotName, v)])
  {
    var rows' := rows + [Entry(tslots[i].slotName, v)];
    forall k | 0 <= k < |rows'|
      ensures rows'[k].name == tslots[..i + 1][k].slotName && rows'[k].row in vocabulary
              && Accepts(rows'[k].row, tslots[..i + 1][k], filters, tagMappings)
    {
      if k < i {
        assert rows'[k] == rows[k] && tslots[..i + 1][k] == tslots[..i][k];
      }
    }
  }

  /** The slots resolved so far each had a candidate. */
  lemma ResolvedHasCandidates(vocabulary: seq<Vocabulary>, tslots: seq<TemplateSlot>, i: int, filters: Filters,
                              tagMappings: seq<TagVocabMapping>, rows: seq<Entry>)
    requires 0 <= i <= |tslots| && ResolvedFor(vocabulary, tslots[..i], filters, tagMappings, rows)
    ensures forall j :: 0 <= j < i ==> HasCandidate(vocabulary, tslots[j], filters, tagMappings)
  {
    forall j | 0 <= j < i ensures HasCandidate(vocabulary, tslots[j], filters, tagMappings) {
      assert tslots[..i][j] == tslots[j];
      assert rows[j].row in vocabulary && Accepts(rows[j].row, tslots[j], filters, tagMappings);
    }
  }

  /** `chosen` after the slot loop: every resolved row assigned under its slot name, in order. */
  function ChosenOf(rows: seq<Entry>): (chosen: seq<Entry>)
    ensures DistinctNames(chosen) && |chosen| <= |rows|
  {
    if rows == [] then []
    else Assign(ChosenOf(rows[..|rows| - 1]), rows[|rows| - 1].name, rows[|rows| - 1].row)
  }

  /** Every slot name is a key of `chosen`. */
  lemma {:induction false} ChosenOfNamesEverySlot(rows: seq<Entry>)
    ensures forall i :: 0 <= i < |rows| ==> rows[i].name in Names(ChosenOf(rows))
  {
    if rows != [] {
      var init := rows[..|rows| - 1];
      var last := rows[|rows| - 1];
      ChosenOfNamesEverySlot(init);
      var prev := ChosenOf(init);
      var chosen := Assign(prev, last.name, last.row);
      var names := Names(chosen);
      assert Names(prev) <= names && last.name in names by {
        if last.name !in Names(prev) {
          assert names == Names(prev) + [last.name];
        }
      }
      forall i | 0 <= i < |rows| ensures rows[i].name in names {
        if i < |rows| - 1 {
          assert rows[i] == init[i];
          assert rows[i].name in Names(prev);
        }
      }
    }
  }

  /** The row of a slot name is its last occurrence in the resolved rows: of repeated
      slot names, the last row wins. */
  predicate LastOf(rows: seq<Entry>, i: int) {
    0 <= i < |rows| && forall j :: i < j < |rows| ==> rows[j].name != rows[i].name
  }

  /** `e` is the last row of its slot name among `rows`. */
  predicate IsLastOfName(rows: seq<Entry>, e: Entry) {
    exists i :: 0 <= i < |rows| && LastOf(rows, i) && rows[i] == e
  }

  /** Every entry of `chosen` is one of the resolved rows, under its own slot name,
      and it is the last resolved row of that name. */
  lemma {:induction false} ChosenOfDrawnFromRows(rows: seq<Entry>)
    ensures forall k :: 0 <= k < |ChosenOf(rows)| ==> ChosenOf(rows)[k] in rows
    ensures forall k :: 0 <= k < |ChosenOf(rows)| ==> IsLastOfName(rows, ChosenOf(rows)[k])
    decreases |rows|
  {
    if rows == [] {
      assert ChosenOf(rows) == [];
    } else {
      var init := rows[..|rows| - 1];
      var e := rows[|rows| - 1];
      ChosenOfDrawnFromRows(init);
      InitLast(rows);
      AssignKeepsLast(ChosenOf(init), init, e);
      var chosen := ChosenOf(rows);
      forall k | 0 <= k < |chosen| ensures chosen[k] in rows {
        assert IsLastOfName(rows, chosen[k]);
        var i :| LastOf(rows, i) && rows[i] == chosen[k];
      }
    }
  }

  /** Assigning the next resolved row keeps every entry the last row of its name. */
  lemma AssignKeepsLast(prev: seq<Entry>, init: seq<Entry>, e: Entry)
    requires DistinctNames(prev)
    requires forall k :: 0 <= k < |prev| ==> IsLastOfName(init, prev[k])
    ensures forall k :: 0 <= k < |Assign(prev, e.name, e.row)| ==> IsLastOfName(init + [e], Assign(prev, e.name, e.row)[k])
  {
    var chosen := Assign(prev, e.name, e.row);
    forall k | 0 <= k < |chosen| ensures IsLastOfName(init + [e], chosen[k]) {
      if chosen[k].name == e.name {
        assert chosen[k] == e;
        LastOfAppended(init, e);
      } else {
        assert chosen[k] == prev[k];
        LastOfKept(init, e, prev[k]);
      }
    }
  }

  lemma LastOfAppended(init: seq<Entry>, e: Entry)
    ensures IsLastOfName(init + [e], e)
  {
    assert LastOf(init + [e], |init|);
  }

  lemma LastOfKept(init: seq<Entry>, e: Entry, x: Entry)
    requires IsLastOfName(init, x) && x.name != e.name
    ensures IsLastOfName(init + [e], x)
  {
    var i :| 0 <= i < |init| && LastOf(init, i) && init[i] == x;
    var rows := init + [e];
    assert rows[i] == x;
    forall j | i < j < |rows| ensures rows[j].name != x.name {
      if j < |init| {
        assert rows[j] == init[j];
      }
    }
    assert LastOf(rows, i);
  }

  lemma ChosenOfSnoc(rows: seq<Entry>, e: Entry)
    ensures ChosenOf(rows + [e]) == Assign(ChosenOf(rows), e.name, e.row)
  {
    assert (rows + [e])[..|rows|] == rows;
  }

  /** Given a pattern whose braces do not nest, and slot names and display values
      without braces, no `{name}` of a resolved slot is left in the sentence. */
  lemma NoPlaceholderLeft(pattern: string, rows: seq<Entry>, field: string)
    requires Unnested(pattern)
    requires forall i :: 0 <= i < |rows| ==> BraceFree(rows[i].name) && BraceFree(DisplayValue(rows[i].row, field))
    ensures forall i :: 0 <= i < |rows| ==> !Occurs(Placeholder(rows[i].name), Substituted(pattern, ChosenOf(rows), field))
  {
    var chosen := ChosenOf(rows);
    ChosenOfNamesEverySlot(rows);
    ChosenIsClean(pattern, rows, field);
    SubstitutedLeavesNoPlaceholder(pattern, chosen, field);
    forall i | 0 <= i < |rows| ensures !Occurs(Placeholder(rows[i].name), Substituted(pattern, chosen, field)) {
      var k :| 0 <= k < |chosen| && Names(chosen)[k] == rows[i].name;
      assert chosen[k].name == rows[i].name;
    }
  }

  lemma ChosenIsClean(pattern: string, rows: seq<Entry>, field: string)
    requires Unnested(pattern)
    requires forall i :: 0 <= i < |rows| ==> BraceFree(rows[i].name) && BraceFree(DisplayValue(rows[i].row, field))
    ensures CleanSubstitution(pattern, ChosenOf(rows), field)
  {
    var chosen := ChosenOf(rows);
    ChosenOfDrawnFromRows(rows);
    forall k | 0 <= k < |chosen| ensures BraceFree(chosen[k].name) && BraceFree(DisplayValue(chosen[k].row, field)) {
      var i :| 0 <= i < |rows| && rows[i] == chosen[k];
    }
  }

  // ---- row ids and link rows ------------------------------------------------------

  function MaxOf(ids: seq<int>): (m: int)
    requires ids != []
    ensures m in ids && forall i :: 0 <= i < |ids| ==> ids[i] <= m
  {
    if |ids| == 1 then ids[0]
    else
      var m := MaxOf(ids[..|ids| - 1]);
      assert forall i :: 0 <= i < |ids| - 1 ==> ids[i] == ids[..|ids| - 1][i];
      if ids[|ids| - 1] > m then ids[|ids| - 1] else m
  }

  /** The rowid SQLite gives an INTEGER PRIMARY KEY inserted without one: one more
      than the largest in the table, 1 for an empty table. It is new to the table. */
  function NextRowId(ids: seq<int>): (r: int)
    ensures forall i :: 0 <= i < |ids| ==> ids[i] < r
  {
    if ids == [] then 1 else MaxOf(ids) + 1
  }

  lemma NextRowIdAfterInsert(ids: seq<int>)
    ensures NextRowId(ids + [NextRowId(ids)]) == NextRowId(ids) + 1
  {
    var ids' := ids + [NextRowId(ids)];
    assert ids'[..|ids'| - 1] == ids;
  }

  function SentenceIds(sentences: seq<GeneratedSentence>): seq<int>
  {
    seq(|sentences|, i requires 0 <= i < |sentences| => sentences[i].id)
  }

  function LinkIds(links: seq<SentenceVocabLink>): seq<int>
  {
    seq(|links|, i requires 0 <= i < |links| => links[i].id)
  }

  /** The link rows of one generation: consecutive ids from `first`, one per resolved slot. */
  function LinkRows(first: int, sentenceId: int, rows: seq<Entry>): seq<SentenceVocabLink>
  {
    seq(|rows|, i requires 0 <= i < |rows| => SentenceVocabLink(first + i, sentenceId, rows[i].row.id, rows[i].name))
  }

  lemma LinkIdsSnoc(links: seq<SentenceVocabLink>, link: SentenceVocabLink)
    ensures LinkIds(links + [link]) == LinkIds(links) + [link.id]
  {
  }

  lemma LinkRowsSnoc(first: int, sentenceId: int, rows: seq<Entry>, i: int)
    requires 0 <= i < |rows|
    ensures LinkRows(first, sentenceId, rows[..i + 1])
         == LinkRows(first, sentenceId, rows[..i]) + [SentenceVocabLink(first + i, sentenceId, rows[i].row.id, rows[i].name)]
  {
  }

  /** How many link rows point at sentence `sentenceId`. */
  function CountLinksFor(links: seq<SentenceVocabLink>, sentenceId: int): nat {
    if links == [] then 0
    else (if links[0].sentenceId == sentenceId then 1 else 0) + CountLinksFor(links[1..], sentenceId)
  }

  lemma {:induction false} CountLinksForAppend(a: seq<SentenceVocabLink>, b: seq<SentenceVocabLink>, sentenceId: int)
    ensures CountLinksFor(a + b, sentenceId) == CountLinksFor(a, sentenceId) + CountLinksFor(b, sentenceId)
    decreases |a|
  {
    if a == [] {
      assert a + b == b;
    } else {
      assert (a + b)[1..] == a[1..] + b;
      CountLinksForAppend(a[1..], b, sentenceId);
    }
  }

  lemma {:induction false} CountLinksForAbsent(links: seq<SentenceVocabLink>, sentenceId: int)
    requires forall i :: 0 <= i < |links| ==> links[i].sentenceId != sentenceId
    ensures CountLinksFor(links, sentenceId) == 0
    decreases |links|
  {
    if links != [] {
      CountLinksForAbsent(links[1..], sentenceId);
    }
  }

  /** All link rows of one generation point at its sentence. */
  lemma {:induction false} CountLinkRows(first: int, sentenceId: int, rows: seq<Entry>)
    ensures CountLinksFor(LinkRows(first, sentenceId, rows), sentenceId) == |rows|
    decreases |rows|
  {
    if rows != [] {
      var links := LinkRows(first, sentenceId, rows);
      CountLinkRows(first + 1, sentenceId, rows[1..]);
      assert links[1..] == LinkRows(first + 1, sentenceId, rows[1..]);
    }
  }

  /** Every link row references an existing sentence (the foreign key of
      `generated_sentence_vocabulary`, kept by ON DELETE CASCADE). */
  predicate LinksReferenceSentences(sentences: seq<GeneratedSentence>, links: seq<SentenceVocabLink>) {
    forall l :: l in links ==> exists s :: s in sentences && s.id == l.sentenceId
  }

  /** Appending a sentence and links that point at it keeps every link pointing at a sentence. */
  lemma ReferencesKept(sentences: seq<GeneratedSentence>, links: seq<SentenceVocabLink>,
                       s: GeneratedSentence, added: seq<SentenceVocabLink>)
    requires LinksReferenceSentences(sentences, links)
    requires forall k :: 0 <= k < |added| ==> added[k].sentenceId == s.id
    ensures LinksReferenceSentences(sentences + [s], links + added)
  {
    forall l | l in links + added ensures exists t :: t in sentences + [s] && t.id == l.sentenceId {
      if l in links {
        var t :| t in sentences && t.id == l.sentenceId;
        assert t in sentences + [s];
      } else {
        assert s in sentences + [s];
      }
    }
  }

  /** A new sentence id has no link rows yet. */
  lemma FreshSentenceHasNoLinks(sentences: seq<GeneratedSentence>, links: seq<SentenceVocabLink>)
    requires LinksReferenceSentences(sentences, links)
    ensures CountLinksFor(links, NextRowId(SentenceIds(sentences))) == 0
  {
    var id := NextRowId(SentenceIds(sentences));
    forall i | 0 <= i < |links| ensures links[i].sentenceId != id {
      assert links[i] in links;
      var s :| s in sentences && s.id == links[i].sentenceId;
      var j :| 0 <= j < |sentences| && sentences[j] == s;
      assert SentenceIds(sentences)[j] < id;
    }
    CountLinksForAbsent(links, id);
  }

  /** Every slot of every eligible template has a candidate row. */
  predicate Fillable(vocabulary: seq<Vocabulary>, tslots: seq<TemplateSlot>, filters: Filters,
                     tagMappings: seq<TagVocabMapping>) {
    && tslots != []
    && forall k :: 0 <= k < |tslots| ==> HasCandidate(vocabulary, tslots[k], filters, tagMappings)
  }

  /** `tslots[k]` is the first slot without a candidate row. */
  predicate FirstUnfillable(vocabulary: seq<Vocabulary>, tslots: seq<TemplateSlot>, filters: Filters,
                            tagMappings: seq<TagVocabMapping>, k: int) {
    && 0 <= k < |tslots|
    && !HasCandidate(vocabulary, tslots[k], filters, tagMappings)
    && forall j :: 0 <= j < k ==> HasCandidate(vocabulary, tslots[j], filters, tagMappings)
  }

  /** The outcome of the slot loop: the row per slot, and the `chosen` object. */
  datatype Resolution = Resolution(vocabRows: seq<Entry>, chosen: seq<Entry>)

  class Database {
    var vocabulary: seq<Vocabulary>
    var templates: seq<SentenceTemplate>
    var slots: seq<TemplateSlot>
    var taggings: seq<Tagging>
    var mappings: seq<TagVocabMapping>
    var sentences: seq<GeneratedSentence>
    var links: seq<SentenceVocabLink>

    ghost predicate Valid()
      reads this
    {
      LinksReferenceSentences(sentences, links)
    }

    constructor (vocabulary: seq<Vocabulary>, templates: seq<SentenceTemplate>, slots: seq<TemplateSlot>,
                 taggings: seq<Tagging>, mappings: seq<TagVocabMapping>)
      ensures Valid()
      ensures this.vocabulary == vocabulary && this.templates == templates && this.slots == slots
      ensures this.taggings == taggings && this.mappings == mappings
      ensures sentences == [] && links == []
    {
      this.vocabulary := vocabulary;
      this.templates := templates;
      this.slots := slots;
      this.taggings := taggings;
      this.mappings := mappings;
      this.sentences := [];
      this.links := [];
    }

    /** `pickVocabForSlot`: some vocabulary row satisfying the slot's WHERE clause,
        or none when no row does. */
    method PickVocabForSlot(slot: TemplateSlot, filters: Filters, tagMappings: seq<TagVocabMapping>)
      returns (row: Option<Vocabulary>)
      ensures row.Some? ==> row.value in vocabulary && Accepts(row.value, slot, filters, tagMappings)
      ensures row.None? <==> !HasCandidate(vocabulary, slot, filters, tagMappings)
    {
      var where := BuildWhere(slot, filters, tagMappings);
      if v :| v in vocabulary && WhereHolds(v, where) {
        row := Some(v);
      } else {
        row := None;
      }
    }

    /** The slot loop: resolve the slots in order, stop at the first slot without
        a candidate and name it. */
    method ResolveSlots(tslots: seq<TemplateSlot>, filters: Filters, tagMappings: seq<TagVocabMapping>)
      returns (res: Result<Resolution, GenerateError>)
      ensures res.Success? <==> forall k :: 0 <= k < |tslots| ==> HasCandidate(vocabulary, tslots[k], filters, tagMappings)
      ensures res.Success? ==>
        && ResolvedFor(vocabulary, tslots, filters, tagMappings, res.value.vocabRows)
        && res.value.chosen == ChosenOf(res.value.vocabRows)
      ensures res.Failure? ==>
        exists k :: FirstUnfillable(vocabulary, tslots, filters, tagMappings, k)
                    && res.error == NoVocabularyForSlot(tslots[k].slotName)
    {
      var chosen: seq<Entry> := [];
      var vocabRows: seq<Entry> := [];
      for i := 0 to |tslots|
        invariant ResolvedFor(vocabulary, tslots[..i], filters, tagMappings, vocabRows)
        invariant chosen == ChosenOf(vocabRows)
      {
        var slot := tslots[i];
        var v := PickVocabForSlot(slot, filters, tagMappings);
        if v.None? {
          ResolvedHasCandidates(vocabulary, tslots, i, filters, tagMappings, vocabRows);
          assert FirstUnfillable(vocabulary, tslots, filters, tagMappings, i);
          return Failure(NoVocabularyForSlot(slot.slotName));
        }
        ResolvedForSnoc(vocabulary, tslots, i, filters, tagMappings, vocabRows, v.value);
        ChosenOfSnoc(vocabRows, Entry(slot.slotName, v.value));
        chosen := Assign(chosen, slot.slotName, v.value);
        vocabRows := vocabRows + [Entry(slot.slotName, v.value)];
      }
      assert tslots[..|tslots|] == tslots;
      ResolvedHasCandidates(vocabulary, tslots, |tslots|, filters, tagMappings, vocabRows);
      return Success(Resolution(vocabRows, chosen));
    }

    /** The link inserts: one row per resolved slot, each with the next rowid. */
    method InsertLinks(sentenceId: int, vocabRows: seq<Entry>)
      modifies this`links
      ensures links == old(links) + LinkRows(NextRowId(LinkIds(old(links))), sentenceId, vocabRows)
    {
      ghost var first := NextRowId(LinkIds(links));
      for i := 0 to |vocabRows|
        invariant links == old(links) + LinkRows(first, sentenceId, vocabRows[..i])
        invariant NextRowId(LinkIds(links)) == first + i
      {
        var id := NextRowId(LinkIds(links));
        var link := SentenceVocabLink(id, sentenceId, vocabRows[i].row.id, vocabRows[i].name);
        LinkIdsSnoc(links, link);
        NextRowIdAfterInsert(LinkIds(links));
        LinkRowsSnoc(first, sentenceId, vocabRows, i);
        links := links + [link];
      }
      assert vocabRows[..|vocabRows|] == vocabRows;
    }

    /** The handler. On failure nothing is written; on success exactly one sentence
        row and one link row per slot of the chosen template are appended. */
    method Generate(req: Request)
      returns (res: Result<Generated, GenerateError>, ghost template: SentenceTemplate, ghost vocabRows: seq<Entry>)
      requires Valid()
      modifies this`sentences, this`links
      ensures Valid()
      ensures res.Failure? ==> sentences == old(sentences) && links == old(links)
      // the failures, and the order in which they are checked
      ensures res == Failure(MissingTagId) <==> req.tagId == 0
      ensures res == Failure(NoActiveTemplates) <==>
        req.tagId != 0 && EligibleTemplates(templates, taggings, req.tagId) == []
      ensures res.Failure? && res.error != MissingTagId && res.error != NoActiveTemplates ==>
        template in EligibleTemplates(templates, taggings, req.tagId)
        && TemplateFailure(req, template, res.error)
      // whichever template is picked, a request whose every eligible template can be filled succeeds
      ensures req.tagId != 0 && EligibleTemplates(templates, taggings, req.tagId) != []
              && (forall t :: t in EligibleTemplates(templates, taggings, req.tagId) ==>
                    Fillable(vocabulary, SlotsOf(slots, t.id), FiltersOf(req), MappingsFor(mappings, req.tagId)))
              ==> res.Success?
      // the success answer and what is written
      ensures res.Success? ==>
        template in EligibleTemplates(templates, taggings, req.tagId)
        && Written(req, template, vocabRows, res.value, old(sentences), old(links))
    {
      template := SentenceTemplate(0, "", "", 0);
      vocabRows := [];
      if req.tagId == 0 {
        return Failure(MissingTagId), template, vocabRows;
      }
      var eligible := EligibleTemplates(templates, taggings, req.tagId);
      if |eligible| == 0 {
        return Failure(NoActiveTemplates), template, vocabRows;
      }
      assert eligible[0] in eligible;
      var t :| t in eligible;
      template := t;
      res, vocabRows := GenerateFrom(req, t);
    }

    /** `tslots` failed in the way `error` says: no slots, or a first slot without a candidate. */
    ghost predicate TemplateFailure(req: Request, t: SentenceTemplate, error: GenerateError)
      reads this
    {
      var tslots := SlotsOf(slots, t.id);
      || (error == TemplateHasNoSlots && tslots == [])
      || (error.NoVocabularyForSlot? &&
          exists k :: FirstUnfillable(vocabulary, tslots, FiltersOf(req), MappingsFor(mappings, req.tagId), k)
                      && error.slotName == tslots[k].slotName)
    }

    /** What a successful generation from template `t` answers and writes. */
    ghost predicate Written(req: Request, t: SentenceTemplate, vocabRows: seq<Entry>, answer: Generated,
                            sentences0: seq<GeneratedSentence>, links0: seq<SentenceVocabLink>)
      reads this
    {
      var tslots := SlotsOf(slots, t.id);
      && tslots != []
      && ResolvedFor(vocabulary, tslots, FiltersOf(req), MappingsFor(mappings, req.tagId), vocabRows)
      && answer == AnswerFor(NextRowId(SentenceIds(sentences0)), req, t, vocabRows)
      && sentences == sentences0 + [SentenceRow(answer)]
      && links == links0 + LinkRows(NextRowId(LinkIds(links0)), answer.id, vocabRows)
      && CountLinksFor(links, answer.id) == |tslots|
    }

    /** The handler from the template pick on: the slot query, the slot loop, the
        substitution, the metadata and the inserts. */
    method GenerateFrom(req: Request, t: SentenceTemplate)
      returns (res: Result<Generated, GenerateError>, ghost vocabRows: seq<Entry>)
      requires Valid()
      modifies this`sentences, this`links
      ensures Valid()
      ensures res.Failure? ==> sentences == old(sentences) && links == old(links) && TemplateFailure(req, t, res.error)
      ensures Fillable(vocabulary, SlotsOf(slots, t.id), FiltersOf(req), MappingsFor(mappings, req.tagId)) ==> res.Success?
      ensures res.Success? ==> Written(req, t, vocabRows, res.value, old(sentences), old(links))
    {
      vocabRows := [];
      var tslots := SlotsOf(slots, t.id);
      if |tslots| == 0 {
        return Failure(TemplateHasNoSlots), vocabRows;
      }
      var tagMappings := MappingsFor(mappings, req.tagId);
      var resolution := ResolveSlots(tslots, FiltersOf(req), tagMappings);
      if resolution.Failure? {
        ghost var k :| FirstUnfillable(vocabulary, tslots, FiltersOf(req), tagMappings, k)
                       && resolution.error == NoVocabularyForSlot(tslots[k].slotName);
        assert TemplateFailure(req, t, resolution.error);
        assert !HasCandidate(vocabulary, tslots[k], FiltersOf(req), tagMappings);
        return Failure(resolution.error), vocabRows;
      }
      var rows := resolution.value.vocabRows;
      vocabRows := rows;
      var answer := Complete(req, t, rows, resolution.value.chosen);
      res := Success(answer);
    }

    /** The handler once every slot is resolved: fill the pattern, derive the
        metadata, insert the sentence and its links. */
    method Complete(req: Request, t: SentenceTemplate, rows: seq<Entry>, chosen: seq<Entry>)
      returns (answer: Generated)
      requires Valid() && chosen == ChosenOf(rows)
      requires SlotsOf(slots, t.id) != []
      requires ResolvedFor(vocabulary, SlotsOf(slots, t.id), FiltersOf(req), MappingsFor(mappings, req.tagId), rows)
      modifies this`sentences, this`links
      ensures Valid()
      ensures Written(req, t, rows, answer, old(sentences), old(links))
    {
      answer := Answer(NextRowId(SentenceIds(sentences)), req, t, rows, chosen);
      Record(answer, rows);
    }

    /** Fill the pattern and derive the metadata. */
    static method Answer(id: int, req: Request, t: SentenceTemplate, rows: seq<Entry>, chosen: seq<Entry>)
      returns (answer: Generated)
      requires chosen == ChosenOf(rows)
      ensures answer == AnswerFor(id, req, t, rows)
    {
      var sentence := Substitute(t.pattern, chosen, DisplayFieldOf(req));
      var resolved := RowsOf(rows);
      var politeness := FirstTruthy(req.politenessLevel, PolitenessLevels(resolved));
      var jlpt := FirstTruthy(req.jlptLevel, JlptLevels(resolved));
      var difficulty := SentenceDifficulty(req.difficulty, resolved);
      answer := Generated(id, t.id, sentence, None, politeness, jlpt, difficulty, req.tagId, Tokens(sentence));
    }

    /** The two inserts of a generation: the sentence row, then its link rows. */
    method Record(answer: Generated, rows: seq<Entry>)
      requires Valid() && answer.id == NextRowId(SentenceIds(sentences))
      modifies this`sentences, this`links
      ensures Valid()
      ensures sentences == old(sentences) + [SentenceRow(answer)]
      ensures links == old(links) + LinkRows(NextRowId(LinkIds(old(links))), answer.id, rows)
      ensures CountLinksFor(links, answer.id) == |rows|
    {
      FreshSentenceHasNoLinks(sentences, links);
      sentences := sentences + [SentenceRow(answer)];
      InsertLinks(answer.id, rows);
      ghost var added := LinkRows(NextRowId(LinkIds(old(links))), answer.id, rows);
      CountLinksForAppend(old(links), added, answer.id);
      CountLinkRows(NextRowId(LinkIds(old(links))), answer.id, rows);
      ReferencesKept(old(sentences), old(links), SentenceRow(answer), added);
    }
  }

  /** The answer for template `t` once its slots resolved to `rows`: the filled
      pattern, its tokens, the caller's or the derived metadata, no translation. */
  function AnswerFor(id: int, req: Request, t: SentenceTemplate, rows: seq<Entry>): Generated {
    var sentence := Substituted(t.pattern, ChosenOf(rows), DisplayFieldOf(req));
    Generated(
      id, t.id, sentence, None,
      FirstTruthy(req.politenessLevel, PolitenessLevels(RowsOf(rows))),
      FirstTruthy(req.jlptLevel, JlptLevels(RowsOf(rows))),
      SentenceDifficulty(req.difficulty, RowsOf(rows)),
      req.tagId, Tokens(sentence))
  }

  /** The vocabulary rows of the resolved slots, in slot order. */
  function RowsOf(entries: seq<Entry>): seq<Vocabulary>
  {
    seq(|entries|, i requires 0 <= i < |entries| => entries[i].row)
  }

  /** Every resolved row carries the slot's part of speech ("noun" for a slot without
      one) and every caller filter that was supplied. */
  lemma ResolvedRowsMatchFilters(vocabulary: seq<Vocabulary>, tslots: seq<TemplateSlot>, req: Request,
                                 tagMappings: seq<TagVocabMapping>, rows: seq<Entry>, i: int)
    requires ResolvedFor(vocabulary, tslots, FiltersOf(req), tagMappings, rows)
    requires 0 <= i < |rows|
    ensures rows[i].row.partOfSpeech == (if tslots[i].partOfSpeech == "" then "noun" else tslots[i].partOfSpeech)
    ensures req.difficulty != "" ==> rows[i].row.difficulty == req.difficulty
    ensures req.jlptLevel != "" ==> rows[i].row.jlptLevel == req.jlptLevel
    ensures req.politenessLevel != "" ==> rows[i].row.politenessLevel == req.politenessLevel
  {
  }
}
