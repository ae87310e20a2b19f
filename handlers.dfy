/** The route handlers of the trivia API as functions of the store's two tables and the
    already-parsed request. The two handlers that change the store are methods of
    `Database.Store`; they use the decisions defined here. */
module Handlers {
  import opened Wrappers
  import opened Errors
  import opened Seqs
  import opened Pagination
  import opened Text
  import opened Models

  /** What a handler answers. Every variant but `Error` is sent with `success: true`. */
  datatype Response =
    | Error(status: Status)
    | CategoryList(categories: map<int, string>)
      /** `allCategories` is `None` when the body has no `categories` key;
          `currentCategory` is `None` when `current_category` is null. */
    | QuestionPage(questions: seq<Question>, totalQuestions: nat,
                   allCategories: Option<map<int, string>>, currentCategory: Option<int>)
    | Deleted(deleted: int)
    | Created
    | QuizQuestion(question: Option<Question>)

  /** A bare `except:` around a block: whatever error the block raised, the handler answers
      with `status` instead; a normal answer passes through. */
  function Catch(r: Response, status: Status): (c: Response)
    ensures c.Error? <==> r.Error?
    ensures c.Error? ==> c.status == status
    ensures !c.Error? ==> c == r
  {
    if r.Error? then Error(status) else r
  }

  /** `Question.query.order_by(Question.id)`. */
  function QuestionsById(qs: seq<Question>): (r: seq<Question>)
    ensures SortedBy(r, QuestionId) && multiset(r) == multiset(qs)
    ensures forall q :: q in r <==> q in qs
    ensures |r| == |qs|
  {
    var r := SortBy(qs, QuestionId);
    assert forall q :: q in r <==> q in multiset(qs);
    assert |r| == |multiset(r)| == |multiset(qs)| == |qs|;
    r
  }

  /** `Category.query.order_by(Category.id)`. */
  function CategoriesById(cs: seq<Category>): (r: seq<Category>)
    ensures SortedBy(r, CategoryId) && multiset(r) == multiset(cs)
    ensures forall c :: c in r <==> c in cs
  {
    var r := SortBy(cs, CategoryId);
    assert forall c :: c in r <==> c in multiset(cs);
    r
  }

  /** `m` is the id -> type map of the categories `cs`: one key per category id, and, since
      ids are unique, each category's own type under its id. */
  ghost predicate DescribesCategories(m: map<int, string>, cs: seq<Category>)
  {
    && m.Keys == (set c | c in cs :: c.id)
    && (UniqueCategoryIds(cs) ==> forall c :: c in cs ==> m[c.id] == c.kind)
  }

  /** The dict comprehension `{category.id: category.type for category in categories}`: later
      entries overwrite earlier ones with the same id. */
  function CategoryMap(cs: seq<Category>): (m: map<int, string>)
    ensures DescribesCategories(m, cs)
  {
    if cs == [] then map[]
    else
      var init, last := cs[..|cs| - 1], cs[|cs| - 1];
      assert cs == init + [last];
      var m := CategoryMap(init);
      assert UniqueCategoryIds(cs) ==> UniqueCategoryIds(init);
      m[last.id := last.kind]
  }

  /** `GET /categories`. The empty-table `abort(404)` happens inside the `try`, whose bare
      `except:` turns it into 405. */
  function ListCategories(cs: seq<Category>): (r: Response)
    ensures r.Error? <==> cs == []
    ensures r.Error? ==> r.status == MethodNotAllowed
    ensures r.CategoryList? ==> DescribesCategories(r.categories, cs)
    ensures r.Error? || r.CategoryList?
  {
    var categories := CategoriesById(cs);
    var inner := if |categories| == 0 then Error(NotFound) else CategoryList(CategoryMap(categories));
    assert DescribesCategories(CategoryMap(categories), cs) by {
      assert UniqueCategoryIds(cs) ==> UniqueCategoryIds(categories);
    }
    Catch(inner, MethodNotAllowed)
  }

  /** `GET /questions?page=N`: page N of all questions in id order, 404 when that page is
      empty or when there are no categories. */
  function GetAllQuestions(qs: seq<Question>, cs: seq<Category>, page: int): (r: Response)
    ensures r.Error? || r.QuestionPage?
    ensures r.Error? ==> r.status == NotFound
    ensures page >= 1 ==> (r.Error? <==> PageStart(page) >= |qs| || cs == [])
    ensures page == 0 ==> r.Error?
    ensures r.QuestionPage? ==>
      && |r.questions| <= QuestionsPerPage
      && SortedBy(r.questions, QuestionId)
      && (forall q :: q in r.questions ==> q in qs)
      && r.totalQuestions == |qs|
      && r.allCategories.Some? && DescribesCategories(r.allCategories.value, cs)
      && r.currentCategory.None?
    ensures page >= 1 && r.QuestionPage? ==> |r.questions| == Min(QuestionsPerPage, |qs| - PageStart(page))
    ensures page >= 1 && r.QuestionPage? ==>
      forall i :: 0 <= i < |r.questions| ==>
        PageStart(page) + i < |qs| && r.questions[i] == QuestionsById(qs)[PageStart(page) + i]
  {
    var selection := QuestionsById(qs);
    var current := Paginate(selection, page);
    if |current| == 0 then Error(NotFound)
    else
      var categories := CategoriesById(cs);
      if |categories| == 0 then Error(NotFound)
      else
        PageOfSorted(selection, page);
        assert UniqueCategoryIds(cs) ==> UniqueCategoryIds(categories);
        QuestionPage(current, |selection|, Some(CategoryMap(categories)), None)
  }

  /** While there are categories, every stored question is shown on some page of the listing. */
  lemma EveryQuestionListed(qs: seq<Question>, cs: seq<Category>, q: Question)
    requires q in qs && cs != []
    ensures exists page :: page >= 1 && GetAllQuestions(qs, cs, page).QuestionPage?
                           && q in GetAllQuestions(qs, cs, page).questions
  {
    var ordered := QuestionsById(qs);
    var k :| 0 <= k < |ordered| && ordered[k] == q;
    ItemOnPage(ordered, k);
    var page := k / QuestionsPerPage + 1;
    assert GetAllQuestions(qs, cs, page).questions[k % QuestionsPerPage] == q;
  }

  /** A page of an id-ordered list is id-ordered and holds only items of the list. */
  lemma PageOfSorted(items: seq<Question>, page: int)
    requires SortedBy(items, QuestionId)
    ensures SortedBy(Paginate(items, page), QuestionId)
    ensures forall q :: q in Paginate(items, page) ==> q in items
  {
    var s, e := SliceBound(PageStart(page), |items|), SliceBound(PageStart(page) + QuestionsPerPage, |items|);
    if s < e {
      SortedSlice(items, QuestionId, s, e);
    }
  }

  /** The search filter: the question text contains the term, ignoring case. */
  predicate Matches(q: Question, term: string)
  {
    ContainsIgnoringCase(q.question, term)
  }

  /** Search mode of `POST /questions`: the questions whose text contains the term, in id
      order, one page of them, and the number of matches before pagination. Zero matches is
      an empty page, not an error. */
  function Search(qs: seq<Question>, term: string, page: int): (r: Response)
    ensures r.QuestionPage? && r.allCategories.None? && r.currentCategory.None?
    ensures |r.questions| <= QuestionsPerPage && SortedBy(r.questions, QuestionId)
    ensures forall q :: q in r.questions ==> q in qs && Matches(q, term)
    ensures UniqueQuestionIds(qs) ==> r.totalQuestions == |set q | q in qs && Matches(q, term)|
    ensures page >= 1 ==> (r.questions == [] <==> PageStart(page) >= r.totalQuestions)
    ensures page >= 1 ==> |r.questions| == if PageStart(page) >= r.totalQuestions then 0
                                          else Min(QuestionsPerPage, r.totalQuestions - PageStart(page))
    ensures page >= 1 ==> forall i :: 0 <= i < |r.questions| ==>
      PageStart(page) + i < |SearchMatches(qs, term)| && r.questions[i] == SearchMatches(qs, term)[PageStart(page) + i]
    ensures (forall q :: q in qs ==> !Matches(q, term)) ==> r.questions == [] && r.totalQuestions == 0
  {
    var selection := QuestionsById(qs);
    var matched := SearchMatches(qs, term);
    assert SortedBy(matched, QuestionId) by {
      FilterSorted(selection, (q: Question) => Matches(q, term));
    }
    PageOfSorted(matched, page);
    FilteredPage(qs, selection, (q: Question) => Matches(q, term), page);
    MatchCount(qs, selection, (q: Question) => Matches(q, term), set q | q in qs && Matches(q, term));
    QuestionPage(Paginate(matched, page), |matched|, None, None)
  }

  /** The questions that match the term, in id order: the selection search mode pages. */
  function SearchMatches(qs: seq<Question>, term: string): seq<Question>
  {
    Filter(QuestionsById(qs), (q: Question) => Matches(q, term))
  }

  /** Every stored question that matches the term is shown on some page of the search. */
  lemma EveryMatchFound(qs: seq<Question>, term: string, q: Question)
    requires q in qs && Matches(q, term)
    ensures exists page :: page >= 1 && q in Search(qs, term, page).questions
  {
    var matched := SearchMatches(qs, term);
    assert q in matched;
    var k :| 0 <= k < |matched| && matched[k] == q;
    ItemOnPage(matched, k);
    var page := k / QuestionsPerPage + 1;
    assert Search(qs, term, page).questions[k % QuestionsPerPage] == q;
  }

  /** What a page of filtered questions holds: stored questions that pass the filter; it is
      empty exactly when the page starts past the last match, and there are no matches when
      no stored question passes. */
  lemma FilteredPage(qs: seq<Question>, ordered: seq<Question>, p: Question -> bool, page: int)
    requires forall q :: q in ordered <==> q in qs
    ensures forall q :: q in Paginate(Filter(ordered, p), page) ==> q in qs && p(q)
    ensures page >= 1 ==> (Paginate(Filter(ordered, p), page) == [] <==> PageStart(page) >= |Filter(ordered, p)|)
    ensures (forall q :: q in qs ==> !p(q)) ==> Filter(ordered, p) == []
  {
    var matched := Filter(ordered, p);
    var current := Paginate(matched, page);
    forall q | q in current ensures q in matched {
      var k :| 0 <= k < |current| && current[k] == q;
    }
    if matched != [] {
      assert matched[0] in matched;
    }
  }

  /** Filtering keeps the order of what it keeps. */
  lemma {:induction false} FilterSorted(xs: seq<Question>, p: Question -> bool)
    requires SortedBy(xs, QuestionId)
    ensures SortedBy(Filter(xs, p), QuestionId)
  {
    if xs != [] {
      var t := xs[1..];
      assert SortedBy(t, QuestionId);
      FilterSorted(t, p);
      if p(xs[0]) {
        forall z | z in Filter(t, p) ensures xs[0].id <= z.id {
          var k :| 0 <= k < |t| && t[k] == z;
          assert xs[k + 1] == z;
        }
        SortedCons(xs[0], Filter(t, p), QuestionId);
      }
    }
  }

  /** The number of questions a filter keeps from any ordering of the store is the number of
      stored questions that satisfy it. */
  lemma MatchCount(qs: seq<Question>, ordered: seq<Question>, p: Question -> bool, s: set<Question>)
    requires multiset(ordered) == multiset(qs)
    requires forall q :: q in s <==> q in qs && p(q)
    ensures UniqueQuestionIds(qs) ==> |Filter(ordered, p)| == |s|
  {
    if UniqueQuestionIds(qs) {
      FilterPermutation(ordered, qs, p);
      UniqueIdsDistinct(qs);
      FilterSize(qs, p, s);
    }
  }

  /** Unique ids make the questions pairwise distinct. */
  lemma UniqueIdsDistinct(qs: seq<Question>)
    requires UniqueQuestionIds(qs)
    ensures Distinct(qs)
  {
  }

  /** `GET /categories/{id}/questions?page=N`: one page of the questions of that category,
      with their full count. Never an error, even when the category has no questions. The
      query has no ordering, so nothing here promises one. */
  function QuestionsByCategory(qs: seq<Question>, categoryId: int, page: int): (r: Response)
    ensures r.QuestionPage? && r.allCategories.None? && r.currentCategory == Some(categoryId)
    ensures |r.questions| <= QuestionsPerPage
    ensures forall q :: q in r.questions ==> q in qs && q.category == categoryId
    ensures UniqueQuestionIds(qs) ==> r.totalQuestions == |set q | q in qs && q.category == categoryId|
    ensures page >= 1 ==> (r.questions == [] <==> PageStart(page) >= r.totalQuestions)
    ensures page >= 1 ==> |r.questions| == if PageStart(page) >= r.totalQuestions then 0
                                          else Min(QuestionsPerPage, r.totalQuestions - PageStart(page))
  {
    var all := Filter(qs, (q: Question) => q.category == categoryId);
    MatchCount(qs, qs, (q: Question) => q.category == categoryId, set q | q in qs && q.category == categoryId);
    FilteredPage(qs, qs, (q: Question) => q.category == categoryId, page);
    QuestionPage(Paginate(all, page), |all|, None, Some(categoryId))
  }

  /** Every stored question of the category is shown on some page of the category listing. */
  lemma EveryCategoryMemberListed(qs: seq<Question>, categoryId: int, q: Question)
    requires q in qs && q.category == categoryId
    ensures exists page :: page >= 1 && q in QuestionsByCategory(qs, categoryId, page).questions
  {
    var all := Filter(qs, (x: Question) => x.category == categoryId);
    assert q in all;
    var k :| 0 <= k < |all| && all[k] == q;
    ItemOnPage(all, k);
    var page := k / QuestionsPerPage + 1;
    assert QuestionsByCategory(qs, categoryId, page).questions[k % QuestionsPerPage] == q;
  }

  /** `Question.query.filter(Question.id == id).one_or_none()`. */
  function FindById(qs: seq<Question>, id: int): (r: Option<Question>)
    ensures r.Some? <==> exists q :: q in qs && q.id == id
    ensures r.Some? ==> r.value in qs && r.value.id == id
  {
    var found := Filter(qs, (q: Question) => q.id == id);
    if |found| == 0 then
      assert forall q :: q in qs ==> q.id != id by {
        forall q | q in qs ensures q.id != id {
          assert q.id == id ==> q in found;
        }
      }
      None
    else
      assert found[0] in found;
      Some(found[0])
  }

  /** The store's questions after `question.delete()` on the question with id `id`. */
  function RemoveId(qs: seq<Question>, id: int): (r: seq<Question>)
    ensures forall q :: q in r <==> q in qs && q.id != id
  {
    Filter(qs, (q: Question) => q.id != id)
  }

  /** Deleting a stored id removes exactly one question and keeps the ids unique. */
  lemma RemoveIdShrinks(qs: seq<Question>, id: int)
    requires UniqueQuestionIds(qs)
    requires exists q :: q in qs && q.id == id
    ensures |RemoveId(qs, id)| == |qs| - 1
    ensures UniqueQuestionIds(RemoveId(qs, id))
  {
    UniqueIdsDistinct(qs);
    var q :| q in qs && q.id == id;
    var all := set x | x in qs;
    var kept := set x | x in qs && x.id != id;
    FilterSize(qs, (x: Question) => x.id != id, kept);
    DistinctSize(qs, all);
    assert all == kept + {q} by {
      forall x | x in all ensures x in kept + {q} {
        var a :| 0 <= a < |qs| && qs[a] == x;
        var b :| 0 <= b < |qs| && qs[b] == q;
        assert x.id == id ==> a == b;
      }
    }
    assert q !in kept;
    UniqueIdsAfterFilter(qs, (x: Question) => x.id != id);
  }

  /** Filtering keeps ids unique. */
  lemma UniqueIdsAfterFilter(qs: seq<Question>, p: Question -> bool)
    requires UniqueQuestionIds(qs)
    ensures UniqueQuestionIds(Filter(qs, p))
  {
    var r := Filter(qs, p);
    UniqueIdsDistinct(qs);
    FilterDistinct(qs, p);
    forall i, j | 0 <= i < j < |r| ensures r[i].id != r[j].id {
      assert r[i] in qs && r[j] in qs && r[i] != r[j];
      var a :| 0 <= a < |qs| && qs[a] == r[i];
      var b :| 0 <= b < |qs| && qs[b] == r[j];
      assert a < b || b < a;
    }
  }

  /** Create mode of `POST /questions`: the record to insert, when all four fields are
      truthy (`""`, `0` and a missing key are not). The store assigns `id`. */
  function NewQuestion(b: PostBody, id: int): (r: Option<Question>)
    ensures r.Some? <==>
      TruthyText(b.question) && TruthyText(b.answer) && TruthyNumber(b.category) && TruthyNumber(b.difficulty)
    ensures r.Some? ==> r.value == Question(id, b.question.value, b.answer.value, b.category.value, b.difficulty.value)
  {
    if !TruthyText(b.question) || !TruthyText(b.answer) || !TruthyNumber(b.category) || !TruthyNumber(b.difficulty)
    then None
    else Some(Question(id, b.question.value, b.answer.value, b.category.value, b.difficulty.value))
  }

  /** A question the quiz may still ask: not asked before and in the requested category.
      `categoryId` is the id as read, `None` for a JSON null: id 0 takes every category, and
      a null id becomes `filter_by(category=None)`, which asks for questions without a
      category, so it takes none. */
  predicate IsCandidate(q: Question, previous: seq<int>, categoryId: Option<int>)
  {
    q.id !in previous && (categoryId == Some(0) || (categoryId.Some? && q.category == categoryId.value))
  }

  /** The quiz's candidate set, in store order. */
  function Candidates(qs: seq<Question>, previous: seq<int>, categoryId: Option<int>): (r: seq<Question>)
    ensures forall q :: q in r <==> q in qs && IsCandidate(q, previous, categoryId)
  {
    Filter(qs, (q: Question) => IsCandidate(q, previous, categoryId))
  }

  /** A quiz request the handler can read: a body with `previous_questions` and a
      `quiz_category` that has an `id` key. Anything else raises inside the `try`. */
  predicate WellFormedQuiz(body: Option<QuizBody>)
  {
    && body.Some?
    && body.value.previousQuestions.Some?
    && body.value.quizCategory.Some?
    && !body.value.quizCategory.value.id.MissingId?
  }

  /** The category id of a readable quiz request, `None` when it is JSON null. */
  function QuizCategoryId(body: Option<QuizBody>): Option<int>
    requires WellFormedQuiz(body)
  {
    match body.value.quizCategory.value.id
    case IdValue(n) => Some(n)
    case _ => None
  }

  /** `POST /quizzes`. `roll` stands for the random draw: the pick is candidate number
      `roll % |candidates|`. A malformed body raises inside the `try` and answers 422. */
  function PlayQuiz(qs: seq<Question>, body: Option<QuizBody>, roll: nat): (r: Response)
    ensures r.Error? <==> !WellFormedQuiz(body)
    ensures r.Error? ==> r.status == Unprocessable
    ensures r.Error? || r.QuizQuestion?
    ensures r.QuizQuestion? ==>
      var previous, categoryId := body.value.previousQuestions.value, QuizCategoryId(body);
      && (r.question.None? <==> forall q :: q in qs ==> !IsCandidate(q, previous, categoryId))
      && (r.question.Some? ==>
            && r.question.value in qs
            && r.question.value.id !in previous
            && categoryId.Some?
            && (categoryId.value != 0 ==> r.question.value.category == categoryId.value))
    ensures r.QuizQuestion? && body.value.quizCategory.value.id.NullId? ==> r.question.None?
  {
    var inner :=
      // the body cannot be read: Python raises a TypeError or KeyError, whatever the
      // status here, the bare `except:` below answers 422
      if !WellFormedQuiz(body) then Error(Unprocessable)
      else
        var previous, categoryId := body.value.previousQuestions.value, QuizCategoryId(body);
        var available := Candidates(qs, previous, categoryId);
        QuizQuestion(if |available| > 0 then Some(available[roll % |available|]) else None);
    Catch(inner, Unprocessable)
  }

  /** The draw can land on any candidate: for each question the quiz may ask, some roll
      picks it. */
  lemma EveryCandidateDrawable(qs: seq<Question>, body: Option<QuizBody>, q: Question)
    requires WellFormedQuiz(body)
    requires q in qs && IsCandidate(q, body.value.previousQuestions.value, QuizCategoryId(body))
    ensures exists roll: nat :: PlayQuiz(qs, body, roll) == QuizQuestion(Some(q))
  {
    var available := Candidates(qs, body.value.previousQuestions.value, QuizCategoryId(body));
    var k :| 0 <= k < |available| && available[k] == q;
    assert k % |available| == k;
    assert PlayQuiz(qs, body, k) == QuizQuestion(Some(q));
  }

  /** Once a question is deleted no listing shows it and no quiz draws it. */
  lemma DeletedNeverListed(qs: seq<Question>, cs: seq<Category>, id: int, term: string,
                           categoryId: int, page: int, body: Option<QuizBody>, roll: nat)
    ensures var rest := RemoveId(qs, id);
      && (GetAllQuestions(rest, cs, page).QuestionPage? ==>
            forall q :: q in GetAllQuestions(rest, cs, page).questions ==> q.id != id)
      && (forall q :: q in Search(rest, term, page).questions ==> q.id != id)
      && (forall q :: q in QuestionsByCategory(rest, categoryId, page).questions ==> q.id != id)
      && (PlayQuiz(rest, body, roll).QuizQuestion? && PlayQuiz(rest, body, roll).question.Some? ==>
            PlayQuiz(rest, body, roll).question.value.id != id)
      && FindById(rest, id).None?
  {
  }
}
