# Koine flashcards: the session engine and its helpers, in Dafny

The app is a single-page flashcard viewer for Koine Greek phrases. It loads
one or more deck files (JSON lists of phrase records). It shows the phrases
that pass a search box and a favourites-only switch, and lets the learner
browse them or run a "mastery session": a shuffled work queue of the shown
ids. Each card in the queue is graded correct (it leaves the queue) or
incorrect (it comes back a few cards later), until the queue runs dry and a
summary is stored. Favourites and lifetime per-phrase tallies persist
between visits.

This project models the logic under that UI:

- `Deck` is `load_deck_file` on an already decoded file. Non-objects are
  skipped and text fields are stripped. The id is `deck:base`, with a
  zero-padded default base. A non-object `meta` is dropped, and records
  with no Koine or English text are discarded.
- `Filter` is `match`, `filtered` and `filtered_ids`.
- `Browse` is the index arithmetic of `browse_next` and `browse_prev`.
- `Stores` covers `bump_stat`, `toggle_fav` and `save_favs`, plus the shape
  rule of `load_favs` applied to a decoded value.
- `Queue` holds the queue updates of a session: remove every copy, requeue
  `n` places back, rotate to the end, and `random.shuffle` in place over an
  array.
- `Session` is `st.session_state` as the class `SessionState`. Its methods
  are `start_mastery_session`, `reshuffle_session`, `mark_correct`,
  `mark_incorrect`, `end_session`, the Next / Prev / Reset buttons and
  `ensure_selected_valid`.
- `ParseMeta` is the row list of `render_parse_meta`.
- `Text` and `Json` hold the Python behaviours these lean on: `str.strip`,
  ASCII `lower`, `in` on strings, string order, `sorted`, `f"{n:04d}"`,
  truthiness, `str()` and the `esc` chain.

The random draws of `random.shuffle` are a parameter `pick: nat -> nat`.
The shuffle is CPython's Fisher-Yates pass from the top, with `j = pick(i) %
(i + 1)`. Only the permutation property is promised about it.

Where the code and the design description of the app differ, the model
follows the code:

- **Empty start.** `start_mastery_session([])` is not guarded. It starts a
  session with an empty queue and a total of 0, and leaves the selection
  alone. `Session.SessionState.StartMasterySession` models exactly that.
  The callers only pass a non-empty list in practice.
- **Ids can collide.** Ids are described as unique, but the loader does not
  enforce it. A first entry with the explicit id `"0002"` and a second
  entry with no id both load as `deck:0002`; see
  `Deck.ExplicitIdCanCollideWithDefault`. Ids are unique when no entry
  carries its own id (`Deck.DefaultIdsDistinct`).
- **Loading can fail on a bad field.** Besides a non-list file, loading
  also fails on a text field holding a truthy non-string (a number, a list,
  `true`), because `.strip()` raises. This is `DeckError.NotText`.
- **The queue can grow.** A card that is graded incorrect or rotated while
  it is not in the queue is added to it, so the queue can outgrow the
  session total. Length is preserved exactly when the card was queued once
  (`Queue.RequeueKeepsLength`, `Queue.RotatedToEndSpec`).

## Model

| member | source | states |
|---|---|---|
| Deck.TextFieldSpec | app.py:254-255 | `(p.get(key) or "").strip()` fails exactly on a truthy non-string; otherwise it is stripped, and non-empty exactly when the entry has non-blank text there |
| Deck.OptionalTextSpec | app.py:256-258 | `(… or "").strip() or None` is present exactly when the entry has non-blank text there, and then it is the stripped text |
| Deck.BaseIdSpec | app.py:250 | the base id is never empty or padded: the stripped `str` of a truthy id when that is not blank, else `f"{i+1:04d}"` |
| Deck.MetaOf | app.py:260-261 | `meta` is kept exactly when it is an object, and then unchanged |
| Deck.NormaliseRecordSpec | app.py:246-264 | one loop pass: non-objects are skipped; a dropped object has no Koine and no English text; a kept phrase has id `deck:base`, the deck's name, Koine and English equal to the entry's stripped text (one side non-empty), tag, audio and image equal to the entry's stripped text or `None` when it has none, and `meta` only if it was an object; it fails exactly when one of the five text fields holds a truthy non-string |
| Deck.LoadDeckFile | app.py:238-266 | a non-list raises `NotAList`; a list loads as the loop over its entries in order, stopping at the first error |
| Deck.FailsAtFirstError | app.py:244-266 | the list loads exactly when every entry does; on failure the error is that of the first failing entry |
| Deck.CollectStep | app.py:244-266 | each further entry either stops the loop with its error, is passed over, or appends its phrase |
| Deck.FailurePersists | app.py:244-266 | an error raised on a prefix is the error of the whole file |
| Deck.KeptIndicesExact | app.py:263-264 | the kept positions are exactly the entries that load to a phrase |
| Deck.LoadedInInputOrder | app.py:244-266 | the loaded phrases are the kept entries' phrases, one each, in input order |
| Deck.LoadedPhrasesWellFormed | app.py:244-266 | every loaded phrase has text on one side; its Koine, English, tag, audio, image and `meta` are those of its own entry, stripped; it has the deck's name and the id built from its own entry and position |
| Deck.DefaultIdInjective | app.py:250-251 | different positions give different default ids |
| Deck.DefaultIdsDistinct | app.py:250-251 | when no entry carries a truthy id, all loaded ids differ |
| Deck.ExplicitIdCanCollideWithDefault | app.py:250-251 | an explicit id "0002" on the first entry and no id on the second give two phrases with the same id |
| Deck.SecondDefaultId | app.py:250 | the default base of the second entry is "0002" |
| Text.TrimSpec | app.py:254-255 | `strip()` gives a slice of the input with white space at neither end, empty exactly when the input is all white space |
| Text.TrimIdempotent | app.py:531-532 | stripping twice is stripping once |
| Text.ZeroPad4RoundTrip | app.py:250 | `f"{n:04d}"` is all digits, at least four of them, and reads back as `n` |
| Text.ZeroPad4Injective | app.py:250 | different numbers pad to different strings |
| Text.DecimalRoundTrip | app.py:250 | `str(n)` of a natural number reads back as `n` |
| Text.LowerIdempotent | app.py:532 | lower-casing twice is lower-casing once |
| Text.ContainsIff | app.py:533 | `needle in hay` holds exactly when `needle` occurs at some offset of `hay` |
| Text.SortStrings | app.py:352 | `sorted(list(favs))` is strictly ascending and holds exactly the set's elements, once each |
| Text.BelowTransitive | app.py:352 | Python's string `<` is transitive |
| Text.BelowTotal | app.py:352 | two different strings are ordered one way or the other |
| Text.BelowIrreflexive | app.py:352 | no string is below itself |
| Text.Escape | app.py:315-321 | `esc(s)` leaves no `<` or `>` |
| Text.EscapeRoundTrip | app.py:315-321 | reading the three entities back undoes `esc` |
| Text.EscapeByChar | app.py:315-321 | the replace chain escapes one character at a time |
| Json.PyStr | app.py:250 | `str` of a string is itself, and `str` of a natural number is its decimal text |
| Filter.MatchesIff | app.py:528-534 | a phrase matches exactly when it passes the favourites switch and the query is blank or, stripped and lower-cased, occurs in the lower-cased Koine or English |
| Filter.NoFilterMatchesAll | app.py:528-534 | an empty query with the switch off matches everything |
| Filter.Filtered | app.py:537 | the shown phrases are exactly the matching ones, each as often as it was loaded, as a subsequence of the loaded order |
| Filter.IdsOfFiltered | app.py:543 | an id is shown exactly when a matching phrase carries it |
| Browse.IndexOf | app.py:604 | `list.index` finds the first position holding the id |
| Browse.NextMovesForward | app.py:603-605 | without repeats, Next moves the position one forward, wrapping |
| Browse.PrevMovesBack | app.py:610-612 | without repeats, Prev moves the position one back, wrapping (Python's `%` of `-1`) |
| Browse.PrevAfterNext | app.py:603-614 | without repeats, Prev undoes Next |
| Browse.NextAfterPrev | app.py:603-614 | without repeats, Next undoes Prev |
| Browse.PrevAfterNextNeedsDistinct | app.py:603-614 | with a repeated id, Prev after Next can land elsewhere |
| Stores.BumpedSpec | app.py:385-389 | `bump_stat` adds the phrase if missing, raises the named counter by one, and changes no other counter or record |
| Stores.BumpsCommute | app.py:385-389 | two bumps give the same tallies in either order |
| Stores.ToggledSpec | app.py:355-359 | `toggle_fav` flips the membership of that id and of no other |
| Stores.ToggleTwice | app.py:355-359 | toggling twice restores the favourites |
| Stores.SaveFavs | app.py:351-352 | the written content is a strictly sorted list of the ids as strings, which `load_favs` reads back as the same set |
| Stores.LoadedFavsNotAList | app.py:346 | anything but a list loads as no favourites |
| Stores.LoadedFavsOfStrings | app.py:346 | a list of strings loads as the set of those strings |
| Queue.Without | app.py:623 | removing an id leaves no copy of it, and the rest in order |
| Queue.WithoutCounts | app.py:623 | removal keeps every other id as often as before and shortens the queue by the copies of the removed one |
| Queue.WithoutIdempotent | app.py:623 | removing an id twice is removing it once |
| Queue.RequeuedSpec | app.py:640-643 | after requeueing, the card occurs once, at `min(n, len(rest))`, and removing it gives back the others in order |
| Queue.RequeueKeepsLength | app.py:640-643 | requeueing keeps the queue length exactly when the card was queued once |
| Queue.RotatedToEndSpec | app.py:785 | after Next the card occurs once, last, the others keep their order, and the length is kept exactly when the card was queued once |
| Queue.RotateIsRequeueAtEnd | app.py:785 | rotating is requeueing with a gap at least as long as the rest |
| Queue.Shuffle | app.py:581 | `random.shuffle` rearranges the array: same elements, same multiplicities |
| Session.GradedSpec | app.py:618-619 | after grading, the card is in exactly the set its grade names, no other id moves, and the sets stay disjoint |
| Session.GradeTwice | app.py:618-619 | grading the same card the same way twice is grading it once |
| Session.SessionState.constructor | app.py:396-434 | `ss_init`: no selection, answer hidden, auto-hide on, no session, empty queue and sets, zero counters, no summary |
| Session.SessionState.ToggleFav | app.py:355-360 | the favourites are toggled, and what is written loads back as the new favourites |
| Session.SessionState.BumpStat | app.py:385-390 | the tallies are bumped |
| Session.SessionState.ResetSession | app.py:490-498 | every session field is back to its initial value |
| Session.SessionState.EndSession | app.py:566-576 | the summary records the total, the two set sizes and the repeats; no session, empty queue, answer hidden |
| Session.SessionState.StartMasterySession | app.py:579-593 | the queue is a permutation of `ids`, sets and repeats are cleared, the total is `len(ids)`, no summary, a session runs, and the first queued card is selected when there is one |
| Session.SessionState.ReshuffleSession | app.py:596-600 | outside a session or on an empty queue nothing changes; otherwise the queue is permuted and its new head selected |
| Session.SessionState.BrowseNext | app.py:603-607 | the selection becomes the next shown id; auto-hide hides the answer |
| Session.SessionState.BrowsePrev | app.py:610-614 | the selection becomes the previous shown id; auto-hide hides the answer |
| Session.SessionState.MarkCorrect | app.py:617-630 | the grade and tally are recorded; in a session every copy leaves the queue and the head is selected, or the session ends with its summary; otherwise the selection moves on |
| Session.SessionState.RecordGrade | app.py:618-620 | the card goes into the set its grade names and out of the other, the sets stay disjoint, and its tally is bumped |
| Session.SessionState.RequeueCard | app.py:639-646 | one more repeat, the queue is the card requeued `repeat_after` places back, the answer is hidden and the non-empty queue's head selected |
| Session.SessionState.MarkIncorrect | app.py:633-648 | the grade and tally are recorded; in a session the repeat counter rises by one and the card is requeued `repeat_after` places back, with the head selected; otherwise the selection moves on and the queue is untouched |
| Session.SessionState.NextPressed | app.py:781-790 | in a session with cards left the selected card rotates to the end; otherwise `browse_next` |
| Session.SessionState.PrevPressed | app.py:769-775 | in a session Prev shows or hides the answer; otherwise `browse_prev` |
| Session.SessionState.EnsureSelectedValid | app.py:546-556 | the selection ends up among the shown ids: the queue head if shown, else the old selection if shown, else the first shown id |
| Session.DistinctPermutation | app.py:579-581 | shuffling ids without repeats gives a queue without repeats |
| Session.StudyAllCorrect | app.py:579-630 | a session over ids without repeats, each graded correct on first sight, ends by itself after one grade per card with the summary (n, n, 0, 0) |
| ParseMeta.JoinSnoc | app.py:299-300 | `sep.join` of one more part is the earlier join, the separator, then that part |
| ParseMeta.DisplaySpec | app.py:299-302 | a non-list value shows as its `str`; an empty list as ""; a one-item list as its item's `str`; a longer list as the shorter list's text, ", ", then the last item's `str` |
| ParseMeta.ParseMetaRows | app.py:272-313 | the preferred keys with a value come first, in their fixed order; then every other key with a value, sorted; every key with a non-`None` value appears once, shown as its value |
| ParseMeta.RowsContent | app.py:294-303 | a pass adds a row exactly for the keys not yet used whose value is not `None`, shown as its value |
| ParseMeta.RowsInOrder | app.py:305-307 | rows follow the order of the keys they were added from |
| ParseMeta.RowsSorted | app.py:308-310 | a pass over sorted keys gives sorted rows |
| ParseMeta.RowsDistinct | app.py:305-310 | a pass over keys without repeats gives no repeated key |
| ParseMeta.PreferredDistinct | app.py:275-288 | no preferred key is listed twice |
| ParseMeta.RestRows | app.py:308-310 | the second pass gives, sorted and once each, exactly the non-preferred keys with a value |
| ParseMeta.JoinedRows | app.py:305-310 | the two passes together hold every key with a value once |

## Left out

- The UI: the CSS, Streamlit widgets, `st.rerun` / `st.stop`, page setup,
  the progress bar, metrics, media display, HTML assembly beyond the row
  list and `esc`, and the jump list. These are presentation.
- The password gate, which reads secrets and the environment.
- File I/O. `safe_load_json`, `safe_write_json` (temporary write and
  rename), deck discovery and the `exists()` checks are not modelled. The
  decoded value stands in for a file read, and the value `save_favs` writes
  stands in for the write.
- `load_stats` and `save_stats`: tallies start from a given map.
- `int(rec.get(key, 0))` on a corrupt tally is not modelled; counters are
  natural numbers.
- `deck_label_from_filename`: Unicode `capitalize` and `isdigit` are
  library behaviour.
- `random.shuffle` randomness: the draws are the parameter `pick`.
- Accuracy and progress fractions, which are floating point.
- JSON floats are not modelled (`Json` has integers only).
- Deck records are reduced to the fields the app reads back. Other keys
  that `dict(p)` copies are dropped.
- Text.Lower: ASCII letters only, not Python's full Unicode `str.lower`.
- Json.PyStr: `str` of a list or an object is a fixed placeholder, not
  Python's repr. This affects a list-valued id and `Display` of nested
  values.
- ParseMeta.ParseMetaRows: a `meta` that is empty or not an object yields
  no rows here (the value type already is a map). A tuple value is not
  distinct from a list, since JSON has only lists.
- Session.SessionState.MarkCorrect, MarkIncorrect, NextPressed, PrevPressed,
  BrowseNext and BrowsePrev require the selection to be among the shown ids
  when they browse. The app establishes this with `ensure_selected_valid`
  on every run before any button acts (app.py:559), so an unselected state
  never reaches them.
- Session.SessionState.EnsureSelectedValid requires at least one shown id,
  because the app stops earlier when nothing matches (app.py:538-540).
- The session summary shown after a finished session and the "Study missed
  only" and "Restart" buttons are calls of `StartMasterySession` with
  other id lists and are not modelled separately.
