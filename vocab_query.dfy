/** `pickVocabForSlot`: the conjunctive query a slot puts to the vocabulary table.
    The server builds it clause by clause (a list of conditions and the values
    bound to them); here a clause carries its bound value, and `WhereHolds` is
    what the database evaluates. `Accepts` states the same constraint directly,
    from the slot, the caller's filters and the tag's mappings. */
module VocabQuery {
  import opened Store

  /** The caller's optional filters; "" means not supplied (any falsy value). */
  datatype Filters = Filters(difficulty: string, jlptLevel: string, politenessLevel: string)

  datatype Column = PartOfSpeech | Difficulty | JlptLevel | PolitenessLevel

  /** One alternative of the topic OR-group. */
  datatype TopicClause = TopicIs(topic: string) | TopicAndSubtopic(topic: string, subtopic: string)

  /** One conjunct of the WHERE clause, with its bound value(s). */
  datatype Clause = ColumnEquals(column: Column, value: string) | AnyTopic(alternatives: seq<TopicClause>)

  function ColumnOf(v: Vocabulary, c: Column): string {
    match c
    case PartOfSpeech => v.partOfSpeech
    case Difficulty => v.difficulty
    case JlptLevel => v.jlptLevel
    case PolitenessLevel => v.politenessLevel
  }

  predicate TopicHolds(v: Vocabulary, t: TopicClause) {
    match t
    case TopicIs(topic) => v.topic == topic
    case TopicAndSubtopic(topic, subtopic) => v.topic == topic && v.subtopic == subtopic
  }

  predicate AnyTopicHolds(v: Vocabulary, alternatives: seq<TopicClause>) {
    exists k :: 0 <= k < |alternatives| && TopicHolds(v, alternatives[k])
  }

  predicate ClauseHolds(v: Vocabulary, c: Clause) {
    match c
    case ColumnEquals(column, value) => ColumnOf(v, column) == value
    case AnyTopic(alternatives) => AnyTopicHolds(v, alternatives)
  }

  /** The WHERE clause: the conjunction of all clauses. */
  predicate WhereHolds(v: Vocabulary, where: seq<Clause>) {
    forall i :: 0 <= i < |where| ==> ClauseHolds(v, where[i])
  }

  // ---- the constraint, stated directly ---------------------------------------

  /** The slot's part of speech, "noun" when the slot leaves it empty. */
  function SlotPartOfSpeech(slot: TemplateSlot): (pos: string)
    ensures pos != ""
    ensures slot.partOfSpeech != "" ==> pos == slot.partOfSpeech
  {
    if slot.partOfSpeech != "" then slot.partOfSpeech else "noun"
  }

  /** A mapping with a topic admits rows of that topic, and of that subtopic too
      when the mapping names one; a mapping without a topic admits nothing. */
  predicate MappingAdmits(m: TagVocabMapping, v: Vocabulary) {
    m.topic != "" && v.topic == m.topic && (m.subtopic != "" ==> v.subtopic == m.subtopic)
  }

  predicate SomeMappingAdmits(mappings: seq<TagVocabMapping>, v: Vocabulary) {
    exists j :: 0 <= j < |mappings| && MappingAdmits(mappings[j], v)
  }

  /** The topic constraint applies only when some mapping has a non-empty topic. */
  predicate TopicConstrained(mappings: seq<TagVocabMapping>) {
    exists j :: 0 <= j < |mappings| && mappings[j].topic != ""
  }

  /** Every condition a vocabulary row must meet to fill `slot`. */
  predicate Accepts(v: Vocabulary, slot: TemplateSlot, filters: Filters, mappings: seq<TagVocabMapping>) {
    && v.partOfSpeech == SlotPartOfSpeech(slot)
    && (filters.difficulty != "" ==> v.difficulty == filters.difficulty)
    && (filters.jlptLevel != "" ==> v.jlptLevel == filters.jlptLevel)
    && (filters.politenessLevel != "" ==> v.politenessLevel == filters.politenessLevel)
    && (TopicConstrained(mappings) ==> SomeMappingAdmits(mappings, v))
  }

  // ---- the builder ------------------------------------------------------------

  /** Builds the topic OR-group from the tag's mappings, skipping mappings without
      a topic: a row satisfies some alternative exactly when some mapping admits
      it, and the group is empty exactly when no mapping has a topic. */
  method TopicClauses(mappings: seq<TagVocabMapping>) returns (alternatives: seq<TopicClause>)
    ensures alternatives == [] <==> !TopicConstrained(mappings)
    ensures forall v :: AnyTopicHolds(v, alternatives) <==> SomeMappingAdmits(mappings, v)
  {
    alternatives := [];
    var i := 0;
    while i < |mappings|
      invariant 0 <= i <= |mappings|
      invariant alternatives == [] <==> !TopicConstrained(mappings[..i])
      invariant forall v :: AnyTopicHolds(v, alternatives) <==> SomeMappingAdmits(mappings[..i], v)
    {
      var m := mappings[i];
      assert mappings[..i + 1] == mappings[..i] + [m];
      if m.topic != "" {
        ghost var prev := alternatives;
        var alt := if m.subtopic != "" then TopicAndSubtopic(m.topic, m.subtopic) else TopicIs(m.topic);
        alternatives := alternatives + [alt];
        assert TopicConstrained(mappings[..i + 1]) by {
          assert mappings[..i + 1][i].topic != "";
        }
        forall v ensures AnyTopicHolds(v, alternatives) <==> SomeMappingAdmits(mappings[..i + 1], v) {
          assert TopicHolds(v, alt) <==> MappingAdmits(m, v);
          if AnyTopicHolds(v, alternatives) {
            var k :| 0 <= k < |alternatives| && TopicHolds(v, alternatives[k]);
            if k < |prev| {
              assert TopicHolds(v, prev[k]);
              assert AnyTopicHolds(v, prev);
              var j :| 0 <= j < i && MappingAdmits(mappings[..i][j], v);
              assert MappingAdmits(mappings[..i + 1][j], v);
            } else {
              assert MappingAdmits(mappings[..i + 1][i], v);
            }
          }
          if SomeMappingAdmits(mappings[..i + 1], v) {
            var j :| 0 <= j < i + 1 && MappingAdmits(mappings[..i + 1][j], v);
            if j < i {
              assert MappingAdmits(mappings[..i][j], v);
              assert AnyTopicHolds(v, prev);
              var k :| 0 <= k < |prev| && TopicHolds(v, prev[k]);
              assert TopicHolds(v, alternatives[k]);
            } else {
              assert TopicHolds(v, alternatives[|prev|]);
            }
          }
        }
      } else {
        forall v ensures SomeMappingAdmits(mappings[..i + 1], v) <==> SomeMappingAdmits(mappings[..i], v) {
          if SomeMappingAdmits(mappings[..i + 1], v) {
            var j :| 0 <= j < i + 1 && MappingAdmits(mappings[..i + 1][j], v);
            assert j < i;
            assert MappingAdmits(mappings[..i][j], v);
          }
          if SomeMappingAdmits(mappings[..i], v) {
            var j :| 0 <= j < i && MappingAdmits(mappings[..i][j], v);
            assert MappingAdmits(mappings[..i + 1][j], v);
          }
        }
        assert TopicConstrained(mappings[..i + 1]) <==> TopicConstrained(mappings[..i]) by {
          if TopicConstrained(mappings[..i + 1]) {
            var j :| 0 <= j < i + 1 && mappings[..i + 1][j].topic != "";
            assert mappings[..i][j].topic != "";
          }
          if TopicConstrained(mappings[..i]) {
            var j :| 0 <= j < i && mappings[..i][j].topic != "";
            assert mappings[..i + 1][j].topic != "";
          }
        }
      }
      i := i + 1;
    }
    assert mappings[..i] == mappings;
  }

  /** The WHERE clause of `pickVocabForSlot`: part of speech first, then each
      supplied filter, then the topic OR-group when it has an alternative. A row
      satisfies it exactly when `Accepts` holds. */
  method BuildWhere(slot: TemplateSlot, filters: Filters, mappings: seq<TagVocabMapping>)
    returns (where: seq<Clause>)
    ensures |where| >= 1 && where[0] == ColumnEquals(PartOfSpeech, SlotPartOfSpeech(slot))
    ensures forall v :: WhereHolds(v, where) <==> Accepts(v, slot, filters, mappings)
  {
    where := [ColumnEquals(PartOfSpeech, if slot.partOfSpeech != "" then slot.partOfSpeech else "noun")];
    assert forall v :: WhereHolds(v, where) <==> v.partOfSpeech == SlotPartOfSpeech(slot) by {
      forall v ensures WhereHolds(v, where) <==> v.partOfSpeech == SlotPartOfSpeech(slot) {
        assert WhereHolds(v, where) <==> ClauseHolds(v, where[0]);
      }
    }
    ghost var w0 := where;
    if filters.difficulty != "" {
      where := where + [ColumnEquals(Difficulty, filters.difficulty)];
      forall v { WhereAppend(v, w0, ColumnEquals(Difficulty, filters.difficulty)); }
    }
    ghost var w1 := where;
    if filters.jlptLevel != "" {
      where := where + [ColumnEquals(JlptLevel, filters.jlptLevel)];
      forall v { WhereAppend(v, w1, ColumnEquals(JlptLevel, filters.jlptLevel)); }
    }
    ghost var w2 := where;
    if filters.politenessLevel != "" {
      where := where + [ColumnEquals(PolitenessLevel, filters.politenessLevel)];
      forall v { WhereAppend(v, w2, ColumnEquals(PolitenessLevel, filters.politenessLevel)); }
    }
    ghost var w3 := where;
    if |mappings| > 0 {
      var alternatives := TopicClauses(mappings);
      if |alternatives| > 0 {
        where := where + [AnyTopic(alternatives)];
        forall v { WhereAppend(v, w3, AnyTopic(alternatives)); }
      }
    } else {
      assert !TopicConstrained(mappings);
    }
  }

  lemma WhereAppend(v: Vocabulary, where: seq<Clause>, c: Clause)
    ensures WhereHolds(v, where + [c]) <==> WhereHolds(v, where) && ClauseHolds(v, c)
  {
    if WhereHolds(v, where + [c]) {
      forall i | 0 <= i < |where| ensures ClauseHolds(v, where[i]) {
        assert (where + [c])[i] == where[i];
      }
      assert (where + [c])[|where|] == c;
    }
  }

  /** Two mappings, topic "food" and topic "travel" with subtopic "trains": every
      accepted row is food, or is travel/trains. */
  lemma FoodOrTrains(v: Vocabulary, slot: TemplateSlot, filters: Filters)
    requires Accepts(v, slot, filters, [TagVocabMapping(1, 7, "food", ""), TagVocabMapping(2, 7, "travel", "trains")])
    ensures v.topic == "food" || (v.topic == "travel" && v.subtopic == "trains")
  {
    var ms := [TagVocabMapping(1, 7, "food", ""), TagVocabMapping(2, 7, "travel", "trains")];
    assert TopicConstrained(ms) by { assert ms[0].topic != ""; }
  }
}
