# Trivia API handlers in Dafny

A model of the request-handling core of the trivia-question API (`backend/flaskr/__init__.py`): a
Flask application that lists categories, pages through questions, searches them, filters them by
category, creates and deletes questions, and serves quiz questions that skip the ones a player
has already seen. The relational store behind it is replaced by an abstract store: a sequence of
`Question` records (id, question, answer, category, difficulty), a sequence of `Category`
records (id, type), and the next id the store will hand out.

Layout, one module per concern:

- `wrappers.dfy` (`Wrappers`): `Option`, for missing JSON keys, JSON null and nullable fields.
- `errors.dfy` (`Errors`): the five error handlers as a status -> `{success: false, error, message}` table.
- `seqs.dfy` (`Seqs`): the store's query operations. `Filter` is `query.filter(...)` and `SortBy` (insertion sort) is `order_by(...)`. Lemmas cover counting, permutation and order.
- `pagination.dfy` (`Pagination`): `paginate_questions`, with Python's slice semantics written out.
- `text.dfy` (`Text`): `ilike '%term%'` as an ASCII case-insensitive substring test.
- `models.dfy` (`Models`): the two records, the parsed request bodies and Python truthiness.
- `handlers.dfy` (`Handlers`): every route handler as a function of the store's tables and the parsed request. It also holds the decisions the two mutating handlers use.
- `database.dfy` (`Database`): class `Store`, whose methods `RemoveQuestion` (`question.delete()`) and `CreateQuestion` (`question.insert()`) change the store in place.

Each handler answers a `Response`: `Error(status)` or one of the success bodies, all of which are
sent with `success: true`. A field that the JSON body leaves out is `None`
(`allCategories`); a JSON null is `None` as well (`currentCategory`, `question`).

Three error paths of the code are easy to misread:

- `GET /categories` with no categories answers 405. The `abort(404)` at line 45 is raised inside the `try`, and the bare `except:` at lines 50-51 turns it into `abort(405)`. `Handlers.ListCategories` models the `try` with `Handlers.Catch`.
- `POST /questions` reads the body's fields at lines 95-100, before the `try`. A body that is valid JSON but not an object (a list, `null`) fails with an uncaught `AttributeError`, which Flask answers with the registered 500 handler. In `POST /quizzes` the body is read inside the `try` (lines 147-149), so the same body answers 422 there.
- In `POST /quizzes` a missing `id` key raises a `KeyError` (422), but `"id": null` does not. `None == 0` is false, so line 156 filters on `category IS NULL`. No stored question has a null category, so the answer is `success: true` with a null question.

The random draw of the quiz (`random.randrange(0, len(available_questions))`, line 159) is a
parameter `roll`; the pick is candidate number `roll % |candidates|`. Only membership of the
pick is stated, plus the fact that every candidate is drawn for some roll.

## Model

| member | source | states |
|---|---|---|
| `Pagination.Paginate` | backend/flaskr/__init__.py:10-18 | For page p >= 1, the result is the window of items from index (p-1)*10 onward. Its length is 0 when (p-1)*10 >= len, else min(10, len - (p-1)*10), and entry i is item (p-1)*10 + i. It never holds more than 10 items, for any page |
| `Pagination.ItemOnPage` | backend/flaskr/__init__.py:11-18 | Every item is shown: item i is entry i % 10 of page i / 10 + 1 |
| `Pagination.PageZeroEmpty` | backend/flaskr/__init__.py:13-17 | Page 0 is always empty: its window is [-10:0] |
| `Pagination.NegativePageWraps` | backend/flaskr/__init__.py:13-17 | A page below 0 shows a window counted back from the end of the list, as Python's negative slice indices do |
| `Seqs.Filter` | backend/flaskr/__init__.py:130 | A query filter keeps exactly the stored elements that satisfy the predicate |
| `Seqs.FilterMultiset` | backend/flaskr/__init__.py:130 | A filter keeps every satisfying element as often as it occurs and drops every other one |
| `Seqs.SortBy` | backend/flaskr/__init__.py:58 | `order_by(id)` returns a permutation of the table that is ordered by id |
| `Seqs.FilterSize` | backend/flaskr/__init__.py:136 | On a table without repeated rows, the length of a filtered list is the number of distinct rows that satisfy the filter |
| `Seqs.FilterPermutation` | backend/flaskr/__init__.py:103-110 | Filtering a reordering of the table yields a reordering of the filtered table, with the same count |
| `Handlers.CategoryMap` | backend/flaskr/__init__.py:48 | The id -> type dict has one key per category id, and with unique ids each category's own type sits under its id |
| `Handlers.ListCategories` | backend/flaskr/__init__.py:40-51 | `GET /categories` fails exactly when there are no categories, and then with 405. Otherwise the answer holds the full id -> type map |
| `Handlers.GetAllQuestions` | backend/flaskr/__init__.py:56-73 | For page >= 1, `GET /questions` fails exactly when the page starts past the last question or there are no categories. Page 0 always fails, and every failure is 404. On success the page holds min(10, len - (p-1)*10) questions, each from the store, in id order, and entry i is question (p-1)*10 + i of the id-ordered store. `total_questions` is the unpaginated count, the category map is complete and the current category is null |
| `Handlers.EveryQuestionListed` | backend/flaskr/__init__.py:56-73 | While there are categories, every stored question is shown on some page of `GET /questions` |
| `Handlers.QuestionsById` | backend/flaskr/__init__.py:58 | The ordered listing holds exactly the stored questions, as many of them, sorted by id |
| `Handlers.CategoriesById` | backend/flaskr/__init__.py:43 | The ordered category listing holds exactly the stored categories, sorted by id |
| `Handlers.PageOfSorted` | backend/flaskr/__init__.py:59-69 | A page of an id-ordered list is id-ordered and holds only items of that list |
| `Handlers.Search` | backend/flaskr/__init__.py:102-112 | Search mode never fails. Every returned question is stored and contains the term, ignoring case. The page is id-ordered and holds at most 10. With unique ids, `total_questions` is the number of stored questions that match. For page >= 1 the page holds min(10, total - (p-1)*10) questions, none when it starts past the last match, and entry i is match (p-1)*10 + i of the id-ordered matches. No matches give an empty list and a total of 0. No category map and a null current category |
| `Handlers.EveryMatchFound` | backend/flaskr/__init__.py:102-110 | Every stored question that contains the term, ignoring case, is shown on some page of the search |
| `Handlers.FilteredPage` | backend/flaskr/__init__.py:103-106 | A page of filtered questions holds only stored questions that pass the filter. For page >= 1 it is empty exactly when it starts past the last match. The match list is empty when no stored question passes |
| `Handlers.FilterSorted` | backend/flaskr/__init__.py:103-105 | Filtering an id-ordered list keeps it id-ordered |
| `Handlers.MatchCount` | backend/flaskr/__init__.py:110 | With unique ids, the number of matches in any ordering of the store is the number of stored questions that match |
| `Handlers.QuestionsByCategory` | backend/flaskr/__init__.py:128-138 | `GET /categories/{id}/questions` never fails, even with no matches. Every returned question is stored and has that category, and there are at most 10. With unique ids, `total_questions` is that category's full count. For page >= 1 the page holds min(10, total - (p-1)*10) questions, none when it starts past the last match. `current_category` is the requested id. No order is claimed |
| `Handlers.EveryCategoryMemberListed` | backend/flaskr/__init__.py:128-138 | Every stored question of the category is shown on some page of the category listing |
| `Handlers.FindById` | backend/flaskr/__init__.py:80 | The lookup finds a question exactly when one with that id is stored, and what it finds is that stored question |
| `Handlers.RemoveId` | backend/flaskr/__init__.py:83 | After the delete, a question is stored exactly when it was stored before and has a different id |
| `Handlers.RemoveIdShrinks` | backend/flaskr/__init__.py:80-83 | With unique ids, deleting a stored id removes exactly one question and keeps ids unique |
| `Handlers.UniqueIdsAfterFilter` | backend/flaskr/__init__.py:83 | Removing questions keeps the remaining ids unique |
| `Handlers.Candidates` | backend/flaskr/__init__.py:152-157 | The quiz candidates are exactly the stored questions whose id is not among the previous ones and whose category matches. Category id 0 means any category, and a null id matches none |
| `Handlers.PlayQuiz` | backend/flaskr/__init__.py:144-167 | `POST /quizzes` fails exactly when the body, `previous_questions`, `quiz_category` or its `id` key is missing, and then with 422. Otherwise the question is null exactly when no stored question is a candidate, and always when the id is JSON null. A returned question is stored and its id is not among the previous ones. The category id is then a number, and when it is not 0 the question's category is that id |
| `Handlers.EveryCandidateDrawable` | backend/flaskr/__init__.py:159-160 | Every candidate is the pick for some value of the random draw |
| `Handlers.DeletedNeverListed` | backend/flaskr/__init__.py:78-88 | After a delete, no listing, search, category page or quiz returns a question with the deleted id, and a lookup of that id finds nothing |
| `Database.Store.RemoveQuestion` | backend/flaskr/__init__.py:78-88 | `DELETE /questions/{id}` of an absent id answers 404 and leaves the store unchanged. For a stored id it removes exactly that question: one fewer question, every other question still stored. It answers `deleted` = that id. Categories and the id counter are untouched, and the store invariant is kept |
| `Database.Store.CreateQuestion` | backend/flaskr/__init__.py:93-123 | `POST /questions`: a body that is not a JSON object answers 500 and changes nothing. A truthy `searchTerm` answers the search and changes nothing. Otherwise, if any of the four fields is falsy, it answers 422 and inserts nothing. If not, it appends exactly one question with those four fields and the next id, advances the counter and answers `success` alone. The store invariant is kept |
| `Database.AppendFreshId` | backend/flaskr/__init__.py:116-117 | Inserting a question with the next id keeps ids unique and below the advanced counter |
| `Database.CreatedIsListedLast` | backend/flaskr/__init__.py:116-117 | A created question is found again by its id and comes last in the id-ordered listing |
| `Text.Lower` | backend/flaskr/__init__.py:104 | Lower-casing keeps the length and lower-cases each ASCII letter in place |
| `Text.Contains` | backend/flaskr/__init__.py:104 | The substring test holds exactly when the needle occurs at some offset of the text |
| `Text.SearchIgnoresCase` | backend/flaskr/__init__.py:104 | A term and its lower-cased form match the same question texts |
| `Text.UpperCaseTermMatches` | backend/flaskr/__init__.py:102-105 | The term "WHAT" matches the text "what is" |
| `Errors.HandlerFor` | backend/flaskr/__init__.py:172-190 | A handler is registered exactly for 400, 404, 405, 422 and 500, and it reports the status it is registered for |
| `Errors.ErrorResponse` | backend/flaskr/__init__.py:172-190 | An error body has `success: false` and the status of its handler as `error` |
| `Errors.ErrorBodyDeterminesStatus` | backend/flaskr/__init__.py:172-190 | An error body carries nothing but its status: bodies, and messages alone, differ for different statuses |

## Left out

- Flask routing, JSON encoding and decoding, the HTTP status tuple and the parsing of `?page=` with `type=int`: page numbers and body fields arrive already parsed.
- The CORS setup and the `after_request` header injection (lines 25-35): they only add response headers.
- `setup_db` and the SQLAlchemy query, insert and delete internals. `models.py` is not part of this model, so the abstract store stands in for it, and a failing store call is not modelled. Where a bare `except:` surrounds the call, that failure would answer 405 (categories) or 422 (create, search, quiz). Elsewhere it would answer 500.
- Request bodies that are not valid JSON, or that use the wrong content type. A body that parses but is not an object is modelled for `POST /questions` (500) and `POST /quizzes` (422).
- Field values of unexpected JSON types: a string `category`, a numeric `searchTerm`, non-integer entries in `previous_questions`. Fields are typed as text or integer, and falsiness covers missing, null, `""` and `0`.
- Foreign keys and column types of the real schema: a question with an unknown category id is accepted, as the handler itself does not check it. A stored question never has a null category.
- jsonify turning the integer keys of the category map into strings.
- The uniform distribution of `random.randrange` (line 159): only membership of the pick and reachability of every candidate are stated.
- The wildcard meaning of `%` and `_` inside a search term, and case folding beyond ASCII letters: search is a plain substring test after ASCII lower-casing.
- Handlers.QuestionsByCategory: the result order is the store's, since the query at line 130 has no `order_by`. No contract claims an order.
- Handlers.PlayQuiz: the candidate order is the store's; only membership of the pick is stated.
- Handlers.GetAllQuestions: for pages below 0 it states only the 404 status of a failure. The window such a page shows is stated about `Pagination.Paginate` by `Pagination.NegativePageWraps`.
