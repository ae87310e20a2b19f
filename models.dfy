/** The records of the question store, in their formatted (serialised) shape, and the
    already-parsed JSON request bodies the handlers read. */
module Models {
  import opened Wrappers

  /** A trivia question; `format()` serialises exactly these five fields. */
  datatype Question = Question(id: int, question: string, answer: string, category: int, difficulty: int)

  /** A category and its display name (the column `type`). */
  datatype Category = Category(id: int, kind: string)

  function QuestionId(q: Question): int { q.id }

  function CategoryId(c: Category): int { c.id }

  /** The JSON object sent to `POST /questions`. A field is `None` when its key is missing or
      its value is JSON null: `body.get(key, None)` gives `None` for both. */
  datatype PostBody = PostBody(
    question: Option<string>,
    answer: Option<string>,
    category: Option<int>,
    difficulty: Option<int>,
    searchTerm: Option<string>)

  /** The `id` key of a quiz category: absent, JSON null, or a number (`0` means every
      category). Unlike the other fields these are told apart, because `quiz_category['id']`
      raises for a missing key but reads a null as `None`. */
  datatype IdField = MissingId | NullId | IdValue(value: int)

  /** The `quiz_category` object of a quiz request. */
  datatype QuizCategory = QuizCategory(id: IdField)

  /** The JSON object sent to `POST /quizzes`. */
  datatype QuizBody = QuizBody(previousQuestions: Option<seq<int>>, quizCategory: Option<QuizCategory>)

  /** Python truthiness of an optional string: `None` and `""` are false. */
  predicate TruthyText(v: Option<string>)
  {
    v.Some? && v.value != ""
  }

  /** Python truthiness of an optional integer: `None` and `0` are false. */
  predicate TruthyNumber(v: Option<int>)
  {
    v.Some? && v.value != 0
  }

  /** Question ids are unique, as the primary key makes them. */
  ghost predicate UniqueQuestionIds(qs: seq<Question>)
  {
    forall i, j :: 0 <= i < j < |qs| ==> qs[i].id != qs[j].id
  }

  /** Category ids are unique, as the primary key makes them. */
  ghost predicate UniqueCategoryIds(cs: seq<Category>)
  {
    forall a, b :: a in cs && b in cs && a.id == b.id ==> a == b
  }
}
