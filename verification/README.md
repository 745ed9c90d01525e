# Course recommender core, modelled in Dafny

A model of the recommendation logic and the account store of a small
Streamlit course-recommendation application (`ProjectStyling.py`). Three pieces
are covered, each lifted out as pure functions over sequences of records. The
logged-in username is passed in as a parameter, not read from session state.

- **Content-based recommendation** (`recommend`). The catalog is a sequence of
  course names in row order. The precomputed similarity matrix is a sequence of
  score rows. The queried course is resolved to its first matching row. That row
  is enumerated into (index, score) entries and stable-sorted by score,
  descending. The top entry is dropped and positions 1..8 are mapped back to
  names. Scores are only ever compared, so they are integers here (`ranking.dfy`,
  `content_based.dfy`).
- **Collaborative recommendation** (`collaborative_filtering_recommendations`).
  This covers:
  - the early exit when the target user has no history;
  - the binary user-by-course interaction matrix;
  - the selection of ranks 1..3 of the user-similarity ranking;
  - the union of those peers' histories minus what the target user has already seen.

  The cosine similarity itself is an input: the ranking of usernames it produces
  (`collaborative.dfy`).
- **Account store.** This covers signup of users and admins, appending a course to
  a user's history, clearing a history, deleting a user, and looking up a history
  (`user_store.dfy`). `facade.dfy` ties the content-based page together: it
  recommends, then records the course for a logged-in user when the list is not
  empty.

`wrappers.dfy` holds `Option`/`Result`. `seqs.dfy` holds `Min` and the
first-occurrence lookup `FirstIndex`. The catalog lookup calls it directly. The
user store's lookup by username is proved to agree with it
(`UserStore.LookupIsFirstIndex`).

Behaviour of the code worth knowing, each stated by a member below:
- Appending to or clearing the history of a username that has no record is a
  silent no-op: the store comes back unchanged (`UserStore.AppendHistory`,
  `UserStore.ClearHistory`).
- The number of recommendations is fixed at 8.
- A course is guaranteed to be kept out of its own recommendations when its
  self-similarity is strictly the largest score in its row
  (`StrictSelfMaxExcludesQuery`). The sort drops rank 0, whatever course holds
  it, so a tie with an earlier row can put the course in its own list
  (`TieCanRecommendQuery`).
- With users alice [X, Y], bob [X, Y] and carol [Z] and alice ranked first,
  ranks 1..3 select both bob and carol, so Z is recommended to alice
  (`ThreeUserScenario`).

## Model

| member | source | states |
|---|---|---|
| Seqs.FirstIndex | ProjectStyling.py:141 | The row a course name resolves to: present exactly when the name is in the catalog; the row holds the name and no earlier row does |
| Ranking.SortDescending | ProjectStyling.py:143 | The sort of the enumerated row is a permutation of it with non-increasing scores; when the input indices increase, as `enumerate` makes them, equal scores keep input order (stability) |
| Ranking.RankedUnique | ProjectStyling.py:143 | Any two stable descending orderings of the same entries are identical, so the result does not depend on which stable sort produced it |
| ContentBased.Recommend | ProjectStyling.py:132-146 | It reports "data unavailable" exactly when the catalog is missing or empty or the matrix is missing. It reports "course not found" exactly when the catalog is usable and lacks the course. A success holds at most 8 names, all from the catalog |
| ContentBased.TopKSelection | ProjectStyling.py:141-145 | The kept entries are the row's own (index, score) pairs. There are min(8, row length - 1) of them and they are ranked. The dropped top entry ranks before every other entry. Every entry that is neither kept nor on top ranks after all kept ones |
| ContentBased.AlignedRecommendLength | ProjectStyling.py:141-145 | With a square matrix, a catalog course always gets exactly min(8, catalog size - 1) recommendations |
| ContentBased.RecommendIsStableTopK | ProjectStyling.py:141-145 | The result is exactly positions 1..8 of any stable descending sort of the queried row, mapped back to names |
| ContentBased.StrictSelfMaxExcludesQuery | ProjectStyling.py:141-145 | A course whose name is unique and whose self-similarity strictly exceeds every other score in its row is never recommended for itself |
| ContentBased.TieCanRecommendQuery | ProjectStyling.py:141-145 | Counterexample: an earlier row that ties with the queried course takes rank 0 and is dropped, so the queried course is recommended for itself |
| ContentBased.TiesKeepCatalogOrder | ProjectStyling.py:143-145 | Over catalog A, B, C, D, A's row [10, 9, 9, 1] yields [B, C, D]: the tie keeps catalog order and A is dropped |
| UserStore.GetUserHistory | ProjectStyling.py:149-154 | The history of the first record with that username, or the empty history when there is none |
| UserStore.LookupIsFirstIndex | ProjectStyling.py:151-154 | The record the lookup finds is the first with that username exactly when the first-occurrence search over the usernames finds it. The history read is that record's, or empty when the search finds nothing |
| UserStore.Signup | ProjectStyling.py:205-221 | It fails exactly when a field is empty, the admin list is non-empty (admin signup) or the username is taken (user signup). On success it appends the one new record and leaves the other document unchanged |
| UserStore.SignupKeepsInvariants | ProjectStyling.py:205-221 | Signup keeps usernames unique and the admin list at most one entry long; a new user starts with an empty history |
| UserStore.AppendHistory | ProjectStyling.py:285-291 | Only the first record with the username changes: the course is added at the end if absent. Every other record is unchanged, and an unknown username leaves the store unchanged |
| UserStore.AppendIdempotent | ProjectStyling.py:286-290 | Recording the same course for the same user a second time leaves the store unchanged |
| UserStore.AppendThenGet | ProjectStyling.py:286-290 | After recording, the user's history is the old one with the course appended if it was missing; every other user's history is unchanged |
| UserStore.AppendKeepsHistoriesDistinct | ProjectStyling.py:288-289 | Histories without duplicates stay without duplicates |
| UserStore.ClearHistory | ProjectStyling.py:319-330 | Only the first record with the username changes, and its history becomes empty; an unknown username leaves the store unchanged |
| UserStore.ClearThenGet | ProjectStyling.py:319-330 | Clearing then looking up yields the empty history; other users' histories are unchanged |
| UserStore.DeleteUser | ProjectStyling.py:346 | No record with that username remains; a record survives exactly when it was present and has another username |
| UserStore.DeleteDistributes | ProjectStyling.py:346 | Deleting from a concatenation deletes from each part, i.e. the surviving records keep their original order |
| UserStore.DeleteKeepsUnique | ProjectStyling.py:346 | Deleting keeps usernames unique |
| UserStore.DeleteThenGet | ProjectStyling.py:346 | After deletion the deleted user's history reads as empty and every other user's history is unchanged |
| Collaborative.Peers | ProjectStyling.py:179 | The selected peers are ranks 1..3 of the ranking (rank 0 dropped), at most three of them |
| Collaborative.InteractionMatrix | ProjectStyling.py:165-172 | One row per record, one column per catalog course. A cell is 1 exactly when the course is in that user's history, else 0. A row is all zero exactly when no course of the history is in the catalog |
| Collaborative.Recommend | ProjectStyling.py:157-188 | The result is empty for a user without history or without a record. Otherwise it is exactly the courses some peer at ranks 1..3 has seen and the target has not. It never contains a course the target has seen |
| Collaborative.TargetAmongPeersAddsNothing | ProjectStyling.py:179-186 | If the target itself lands among ranks 1..3, it contributes nothing: the result equals that of the other selected peers |
| Collaborative.ThreeUserScenario | ProjectStyling.py:179-186 | alice [X, Y], bob [X, Y], carol [Z] ranked alice, bob, carol: both bob and carol are selected and alice is recommended {Z} |
| Facade.RecommendationPage | ProjectStyling.py:276-292 | A failed or empty recommendation leaves the store unchanged. So does a visit by an anonymous visitor or an admin. Otherwise the store is exactly the result of recording the course for the logged-in user: only the first record with that username changes, its history gains the course if it was missing, and every other user's history is unchanged |

## Left out

- Streamlit UI (page rendering, navigation, CSS, messages) and session state: the logged-in user is a parameter (`Option<string>` in `Facade.RecommendationPage`).
- Login and logout and the plaintext password comparison: authentication is UI glue with no property worth proving here.
- Pickle loading and caching: the catalog and the matrix are `Option` inputs, `None` when loading failed. The catalog's DataFrame index is assumed to be the default range index, so a row label equals its position.
- JSON file initialisation, reading and writing: the store is an in-memory sequence. The fallback to an empty store on a decode error is not modelled.
- Floating-point similarity scores: scores are integers, since the code only compares them.
- The cosine similarity between users and the pandas DataFrame machinery come from a foreign library. The ranking they produce is an input, and no tie order among peers is asserted, because pandas sorts the column with a non-stable sort.
- Collaborative.Recommend: the ranking is not tied to the interaction matrix; the only requirement on it is that it lists each record's username once. Under that requirement the peer lookup cannot fail, so the exception the code would raise for an unknown peer is not modelled.
- Collaborative.InteractionMatrix: one row per record. With duplicate usernames, pandas' label-based assignment would behave differently; signup keeps usernames unique.
- Collaborative.Recommend returns a set; the arbitrary order of the list built from it is not modelled.
- ContentBased.Recommend: when the queried row is missing from the matrix, or a kept entry's index lies outside the catalog, the code raises an index error. The model reports `RowOutOfRange` instead and does not model the exception itself.
- Collaborative.Recommend: the catalog is not an input. When it failed to load, the code raises while building the interaction matrix for any user with a history, and that exception is not modelled.
- Facade.RecommendationPage: when the catalog failed to load, the page raises while reading the course names, before `recommend` runs. The model instead returns the `CatalogUnavailable` outcome: nothing shown, store unchanged.
- Facade.RecommendationPage: in the application the course always comes from the catalog's select box. The model accepts any course name.
- The admin pages' early return on an empty store is not modelled separately: clearing and deleting are no-ops on an empty store anyway.
