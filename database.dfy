/** The question store and the two handlers that change it: `DELETE /questions/{id}`
    (`question.delete()`) and `POST /questions` in create mode (`question.insert()`). */
module Database {
  import opened Wrappers
  import opened Errors
  import opened Models
  import opened Handlers

  class Store {
    var questions: seq<Question>
    var categories: seq<Category>
    /** The id the store will give the next inserted question; ids are never reused. */
    var nextId: int

    /** Primary keys are unique and every stored question id was handed out already. */
    ghost predicate Valid()
      reads this
    {
      && UniqueQuestionIds(questions)
      && UniqueCategoryIds(categories)
      && forall q :: q in questions ==> q.id < nextId
    }

    constructor (questions: seq<Question>, categories: seq<Category>, nextId: int)
      requires UniqueQuestionIds(questions) && UniqueCategoryIds(categories)
      requires forall q :: q in questions ==> q.id < nextId
      ensures Valid()
      ensures this.questions == questions && this.categories == categories && this.nextId == nextId
    {
      this.questions := questions;
      this.categories := categories;
      this.nextId := nextId;
    }

    /** `DELETE /questions/{id}`: 404 and no change when no question has that id; otherwise
        that question, and only it, is gone and the answer names the deleted id. */
    method RemoveQuestion(questionId: int) returns (r: Response)
      requires Valid()
      modifies this
      ensures Valid()
      ensures categories == old(categories) && nextId == old(nextId)
      ensures (exists q :: q in old(questions) && q.id == questionId) ==>
        && r == Deleted(questionId)
        && questions == RemoveId(old(questions), questionId)
        && |questions| == |old(questions)| - 1
        && (forall q :: q in questions <==> q in old(questions) && q.id != questionId)
      ensures !(exists q :: q in old(questions) && q.id == questionId) ==>
        r == Error(NotFound) && questions == old(questions)
    {
      var question := FindById(questions, questionId);
      if question.None? {
        return Error(NotFound);
      }
      RemoveIdShrinks(questions, questionId);
      questions := RemoveId(questions, questionId);
      r := Deleted(questionId);
    }

    /** `POST /questions`. A body that is not a JSON object fails while the fields are read,
        before the `try`, so the answer is 500. A truthy `searchTerm` selects search mode,
        which changes nothing. Otherwise all four fields must be truthy, else 422 and no
        change; when they are, exactly one new question with those fields and a fresh id is
        appended. */
    method CreateQuestion(body: Option<PostBody>, page: int) returns (r: Response)
      requires Valid()
      modifies this
      ensures Valid()
      ensures categories == old(categories)
      ensures body.None? ==>
        r == Error(InternalServerError) && questions == old(questions) && nextId == old(nextId)
      ensures body.Some? && TruthyText(body.value.searchTerm) ==>
        r == Search(old(questions), body.value.searchTerm.value, page)
        && questions == old(questions) && nextId == old(nextId)
      ensures body.Some? && !TruthyText(body.value.searchTerm) ==>
        var b := body.value;
        if TruthyText(b.question) && TruthyText(b.answer) && TruthyNumber(b.category) && TruthyNumber(b.difficulty)
        then
          && r == Created
          && questions == old(questions) + [Question(old(nextId), b.question.value, b.answer.value,
                                                     b.category.value, b.difficulty.value)]
          && nextId == old(nextId) + 1
        else
          r == Error(Unprocessable) && questions == old(questions) && nextId == old(nextId)
    {
      if body.None? {
        return Error(InternalServerError);
      }
      var b := body.value;
      if TruthyText(b.searchTerm) {
        return Search(questions, b.searchTerm.value, page);
      }
      var question := NewQuestion(b, nextId);
      if question.None? {
        // abort(422) inside the try; the bare except re-raises it as 422
        return Error(Unprocessable);
      }
      AppendFreshId(questions, question.value, nextId);
      questions := questions + [question.value];
      nextId := nextId + 1;
      r := Created;
    }
  }

  /** Appending a question whose id is larger than every stored one keeps ids unique. */
  lemma AppendFreshId(qs: seq<Question>, q: Question, nextId: int)
    requires UniqueQuestionIds(qs) && forall x :: x in qs ==> x.id < nextId
    requires q.id == nextId
    ensures UniqueQuestionIds(qs + [q])
    ensures forall x :: x in qs + [q] ==> x.id < nextId + 1
  {
    var s := qs + [q];
    forall i, j | 0 <= i < j < |s| ensures s[i].id != s[j].id {
      if j == |qs| {
        assert s[i] in qs;
      } else {
        assert s[i] == qs[i] && s[j] == qs[j];
      }
    }
  }

  /** A created question is found again by its id, and listing every question in id order
      shows it last: it has the largest id. */
  lemma CreatedIsListedLast(qs: seq<Question>, q: Question, nextId: int)
    requires UniqueQuestionIds(qs) && forall x :: x in qs ==> x.id < nextId
    requires q.id == nextId
    ensures FindById(qs + [q], nextId) == Some(q)
    ensures var ordered := QuestionsById(qs + [q]); ordered[|ordered| - 1] == q
  {
    var s := qs + [q];
    AppendFreshId(qs, q, nextId);
    var found := FindById(s, nextId).value;
    assert found in s && found.id == nextId;
    assert found !in qs;
    var ordered := QuestionsById(s);
    assert q in ordered;
    var k :| 0 <= k < |ordered| && ordered[k] == q;
    forall m | k < m < |ordered| ensures ordered[m] == q {
      assert ordered[m] in s && q.id <= ordered[m].id;
    }
  }
}
