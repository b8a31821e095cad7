/** The records of the relational store that the sentence generator reads and
    writes. Every nullable TEXT column of a row that the generator only reads is a
    `string` in which "" stands for both NULL and the empty text: both are falsy
    in JavaScript and neither equals a non-empty filter value in SQL, so the
    generator cannot tell them apart. Timestamps are opaque text. */
module Store {
  import opened Wrappers

  datatype Vocabulary = Vocabulary(
    id: int,
    kanji: string,
    furigana: string,
    romaji: string,
    meaning: string,
    partOfSpeech: string,
    topic: string,
    subtopic: string,
    politenessLevel: string,
    jlptLevel: string,
    difficulty: string,
    notes: string,
    createdAt: string,
    updatedAt: string)

  /** `isActive` is the stored INTEGER; only 1 counts as active. */
  datatype SentenceTemplate = SentenceTemplate(
    id: int,
    pattern: string,
    description: string,
    isActive: int)

  datatype TemplateSlot = TemplateSlot(
    id: int,
    templateId: int,
    slotName: string,
    grammaticalRole: string,
    partOfSpeech: string,
    isRequired: int,
    orderIndex: int)

  /** A polymorphic association of a tag with a target row (`targetType` "template" for templates). */
  datatype Tagging = Tagging(id: int, tagId: int, targetType: string, targetId: int)

  /** A rule that a tag draws vocabulary from `topic`, and from `subtopic` when it is non-empty. */
  datatype TagVocabMapping = TagVocabMapping(id: int, tagId: int, topic: string, subtopic: string)

  /** A row of `generated_sentences`; the nullable columns it writes are options. */
  datatype GeneratedSentence = GeneratedSentence(
    id: int,
    templateId: Option<int>,
    japaneseSentence: string,
    englishSentence: Option<string>,
    politenessLevel: Option<string>,
    jlptLevel: Option<string>,
    difficulty: Option<string>,
    sourceTagId: Option<int>,
    isFavorite: int)

  /** A row of `generated_sentence_vocabulary`: which vocabulary filled which slot. */
  datatype SentenceVocabLink = SentenceVocabLink(
    id: int,
    sentenceId: int,
    vocabularyId: int,
    slotName: string)
}
