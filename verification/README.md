# Quiz and spaced-repetition core of a dementia-care companion

The service keeps, for each patient, a catalogue of reviewable items. These
are knowledge facts (with a sensitivity level) and family members. It quizzes
the patient on them and schedules each item for review again with a simple
spaced-repetition rule. This project models that pipeline as pure functions
over in-memory tables and proves what the code promises about it:

- **Scheduler** (`quiz.py` `_interval_days`, `compute_mastery_update`). An
  answer moves an item's mastery score and its two streak counters. The new
  score picks the review interval of 1, 2, 4, 7 or 14 days.
- **Mastery store** (`db.py` `_get_mastery_row`, `update_mastery`). The
  mastery table is an upsert keyed by (patient, item type, item id). Absent
  payload fields get defaults.
- **Due set** (`db.py` `due_items`). The patient's mastery rows that are due
  come first. After them come the catalogue items listed as never seen.
- **Selection and fallback drafting** (`quiz.py` `generate_quiz_questions`,
  `_fallback_questions`). Knowledge items are filtered by sensitivity. Due
  items come first and the catalogue fills the remaining slots. The pool is
  cut to `n`, and each pooled item becomes one multiple-choice draft when the
  external question generator is not used.
- **Answer evaluation** (`quiz.py` `evaluate_answer`). Answers are compared
  after stripping and lower-casing. Recall questions also accept a listed
  alternate.
- **Quiz endpoints** (`main.py` `generate_quiz`, `submit_quiz`). Generating a
  quiz opens a session and stores its questions; alternates are hidden unless
  they are revealed. Submitting a batch grades each answer in order, records a
  response, updates mastery, and then scores and completes the session.
- **Analytics accuracy** (`db.py` `analytics_summary`). Accuracy is computed
  per category as correct / max(total, 1).
- **Upload names** (`storage.py` `_safe_filename` and its caller). Each
  character outside `[A-Za-z0-9._-]` becomes `_`. A missing name becomes
  `"upload"`.

The modules are `Base`, `Records`, `Evaluation`, `MasteryStore`, `Scheduler`,
`DueSet`, `Selection`, `Analytics`, `Sessions` and `Storage`, one file each.
Scores are exact `real`s and times are whole seconds. The clock, the fresh
session and question ids, the uuid in a blob name and the question
generator's reply are parameters.

Two behaviours of the code shape the model:

- An unknown question id in a submitted batch is answered with a 400 "Invalid
  question id" (main.py:292-295). The responses and mastery updates of the
  submissions before it stay written; nothing rolls them back (main.py:292-321).
- Knowledge items carry an active flag (db.py:64), but no query of the core
  filters on it: the knowledge listing selects by patient and, optionally,
  category only (db.py:246-252).

## Model

| member | source | states |
|---|---|---|
| Scheduler.IntervalDays | quiz.py:37-46 | the interval is one of 1, 2, 4, 7, 14 days, chosen by the thresholds 0.8, 0.6, 0.4 and 0.2 on the score |
| Scheduler.IntervalDaysMonotone | quiz.py:37-46 | a higher score never gets a shorter interval |
| Scheduler.Baseline | quiz.py:181-184 | with no stored row the update starts from score 0 and zero counters, otherwise from the row's values |
| Scheduler.Advance | quiz.py:185-194 | a correct answer raises the correct streak by one and resets the other; a wrong answer does the reverse; the score becomes min(1, s+0.1) for a slow correct answer, min(1, s+0.15) for a fast one (under 3000 ms) and max(0, s-0.05) for a wrong one; the score stays in [0, 1] and the two counters are never both positive |
| Scheduler.ComputeMasteryUpdate | quiz.py:170-205 | there is no update exactly when the item type or id is missing or empty; otherwise the update names the payload's item for the answering patient, carries the advanced score and counters from the stored row of that key, sets last seen to now and next due to now plus the interval of the new score in days |
| Scheduler.UpdateKeepsRowInvariant | quiz.py:181-205 | writing a computed update keeps every row of the table with a score in [0, 1], non-negative counters and at most one positive streak |
| MasteryStore.GetMasteryRow | db.py:339-348 | the lookup returns a row stored under the key, and returns none exactly when no row has that key |
| MasteryStore.RowFor | db.py:356-365 | the written row takes the payload's fields, and absent ones default to score 0, zero counters, last seen now and no next-due time |
| MasteryStore.UpdateMastery | db.py:351-375 | after the upsert the key looks up the written row; the table grows by one row only when the key had no row; rows of other keys stay in place and their lookups are unchanged |
| MasteryStore.UpdateMasteryKeepsUnique | db.py:351-375 | the upsert keeps the table at most one row per key |
| MasteryStore.UpdateMasteryIsMapUpdate | db.py:351-375 | read as a map from key to row, the upsert is a single-key map update |
| DueSet.DueRows | db.py:383-389 | the due rows are exactly the rows of the patient whose next-due time is null or not after now |
| DueSet.AppendUnseen | db.py:402-425 | one catalogue pass lists each not-yet-known id once, as a never-seen entry of its type built from an item of the pass (a knowledge entry carries that item's sensitivity), and adds every listed id to the known set; the entries follow the order in which their ids first occur in the pass |
| DueSet.Catalogue | db.py:391-425 | the never-seen entries are the family and knowledge ids not suppressed, each once, family entries first; each entry is built from a family member, or from a knowledge item whose id no family member has; within each pass the entries follow the order of the pass's items |
| DueSet.DueItems | db.py:378-426 | as the source computes it: the stored entries are exactly the due rows, first and in table order; after them come the family ids and then the knowledge ids of the patient that are not among the due rows' item ids, each once, each built from the patient's family member or knowledge item of that id with its type and sensitivity, and each pass in the order of the patient's items |
| DueSet.NeverReviewedItemIsDue | db.py:391-425 | an item of the patient with no mastery row at all is always in the due list |
| DueSet.NotYetDueItemListedAsUnseen | db.py:383-425 | an item whose row is due only at time 100 is listed at time 50 as never seen |
| DueSet.DueItemsIntended | db.py:378-426 | corrected: the stored entries are exactly the due rows, first and in table order, and only never-seen entries follow them; those are exactly the catalogue ids the patient has no mastery row for, each once, each built from the patient's family member or knowledge item of that id, and each pass in the order of the patient's items |
| DueSet.DueListsAgreeWhenAllDue | db.py:383-392 | when every mastery row of the patient is due, the source's due list equals the corrected one |
| Selection.SensitiveFiltered | quiz.py:77-81 | a knowledge item is kept exactly when sensitive items are included or its level is below 2 |
| Selection.LookupById | quiz.py:83-84 | the id-keyed dict finds an item exactly when one has the id, and finds the last such item |
| Selection.Resolve | quiz.py:88-93 | a knowledge entry resolves in the filtered knowledge, a family entry in the family list, any other type to nothing; an entry resolves exactly when its id is in the list its type selects |
| Selection.PrioritiseDue | quiz.py:87-96 | the due-first items have distinct ids, none already seen, and come from the filtered knowledge or the family list |
| Selection.FillIn | quiz.py:98-105 | the fill-in items are distinct unseen candidates, and there are at most max(n - count, 1) of them |
| Selection.ItemsPool | quiz.py:77-107 | for n >= 0 the pool holds at most n items; its ids are distinct; each item is a family member or an admitted knowledge item |
| Selection.PrioritiseDueIsFirstById | quiz.py:87-96 | the due-first pass equals the first item of each id among the resolved due entries not already seen, in due-list order |
| Selection.FillInIsTake | quiz.py:98-105 | the fill-in pass equals the first max(n - count, 1) of the first-by-id unseen candidates |
| Selection.ItemsPoolSpec | quiz.py:77-107 | the pool is the first n of the distinct resolved due items followed by the distinct remaining candidates (filtered knowledge, then family); for negative n, at most one fill-in item precedes the cut |
| Selection.SensitiveItemsWithheld | quiz.py:77-81 | with sensitive items excluded, no pooled item has sensitivity 2 or more |
| Selection.FallbackDraft | quiz.py:52-65 | each draft is a difficulty-1 "mcq" with empty alternates, options [answer, "Not sure"], the answer being the value or full name, the prompt naming the label or full name, type "knowledge" exactly for knowledge items and the item's id |
| Selection.FallbackQuestions | quiz.py:49-66 | for n >= 0 there are min(n, number of items) drafts, one per item in order |
| Selection.FirstOptionIsCorrect | quiz.py:58-59 | choosing the first option of a fallback draft is judged correct; choosing "Not sure" is judged correct only when the answer has the key of "Not sure" |
| Selection.GenerateQuizQuestions | quiz.py:107-111 | a generator reply is returned as it came; otherwise the drafts are one per pooled item, in order, at most n when n >= 0, with distinct item ids |
| Evaluation.EvaluateAnswer | quiz.py:155-167 | a non-recall answer is correct exactly when its key (strip, lower-case) equals the correct answer's key; a recall answer also passes when its key equals a lower-cased, unstripped alternate |
| Evaluation.NormaliseIdempotent | quiz.py:163-167 | normalising an answer twice is normalising it once |
| Evaluation.NormaliseIgnoresCase | quiz.py:163-167 | the key of an answer does not depend on letter case |
| Evaluation.NormaliseIgnoresPadding | quiz.py:163-167 | the key of an answer does not depend on leading or trailing whitespace |
| Evaluation.EvaluateDependsOnlyOnKey | quiz.py:155-167 | two answers with the same key get the same verdict |
| Evaluation.NormaliseIgnoresLeading | quiz.py:163-167 | any run of leading whitespace leaves the key of an answer unchanged |
| Evaluation.NormaliseIgnoresTrailing | quiz.py:163-167 | any run of trailing whitespace leaves the key of an answer unchanged |
| Evaluation.PaddedVariantKey | quiz.py:163-167 | a string padded with whitespace and changed in letter case has the key of the original |
| Evaluation.CanonicalAnswerAccepted | quiz.py:155-167 | an answer made of whitespace, then the correct answer's text in any letter case, then whitespace, is accepted, for every question type |
| Evaluation.NonRecallIgnoresAlternates | quiz.py:167 | a non-recall verdict does not depend on the alternates list |
| Evaluation.RecallAcceptsAlternate | quiz.py:161-166 | a recall question accepts an answer whose key is that of an unpadded alternate |
| Evaluation.PaddedAlternateNeverMatches | quiz.py:166 | an alternate starting with whitespace never matches any answer, because alternates are lower-cased but not stripped |
| Analytics.CategoryOf | db.py:448 | the category is the payload's item type when the key is present, even null, and "unknown" otherwise |
| Analytics.Verdicts | db.py:434-448 | one row per question, in order, pairing the question's category with the given verdict |
| Analytics.MatchesOf | db.py:434-444 | the join rows of a response are one row per question bearing its id, in table order, each pairing the response's verdict with that question's category; so a row is there exactly when such a question gives it |
| Analytics.JoinAnswered | db.py:434-444 | a row is in the join exactly when some response created at or after the cutoff pairs with a question of its id to give it; with no recent response the join is empty |
| Analytics.JoinConcat | db.py:434-444 | the join over two lists of responses is the concatenation of the two joins |
| Analytics.JoinOfOne | db.py:434-444 | the join of a single response is its rows from every question of its id when it was created at or after the cutoff, and empty otherwise |
| Analytics.JoinSnoc | db.py:434-444 | one more response adds exactly its own rows at the end of the join, so the join's multiplicities are fixed response by response |
| Analytics.TwoAnswersHalfAccuracy | db.py:429-456 | one right and one wrong recent answer to the same knowledge question give that category accuracy 0.5 |
| Analytics.Tallies | db.py:445-452 | the tallies have one entry per category, holding the correct and total counts of its rows |
| Analytics.Accuracy | db.py:453-456 | each category seen has accuracy correct / max(total, 1), in [0, 1], and has at least one row |
| Analytics.AccuracyByCategory | db.py:429-456 | as the source computes it: the accuracy of every recent response of every patient, per category |
| Analytics.OtherPatientsAnswersCounted | db.py:434-444 | a patient with no sessions is shown accuracy 0.0 for "knowledge" because of another patient's wrong answer |
| Analytics.AccuracyByCategoryForPatient | db.py:429-456 | corrected: only responses to questions of the patient's own sessions are counted; each accuracy is in [0, 1] |
| Analytics.PatientAccuracyIgnoresOtherPatients | db.py:429-456 | adding responses to other patients' questions leaves the corrected accuracy unchanged |
| Analytics.SinglePatientAgrees | db.py:429-456 | when every question belongs to the patient's sessions, the corrected accuracy equals the source's |
| Sessions.ViewOf | main.py:257-271 | the returned question carries the stored id, type and item reference, and its alternates only when answers are revealed |
| Sessions.Presentable | main.py:95-105 | a draft passes the response model exactly when its options, if any, are all strings and its item type and item id are present strings |
| Sessions.FirstUnpresentable | main.py:249-267 | the index of the first draft the response model rejects, every earlier draft being accepted, or the number of drafts when all are |
| Sessions.OpenSession | main.py:245-271 | one active session is appended whose total counts every draft; the drafts are stored in order under their fresh ids; when all are presentable the client receives their views, with no alternates unless revealed; otherwise the result is a 500 after the drafts up to and including the first rejected one are stored; no other table changes |
| Sessions.FallbackDraftPresentable | quiz.py:58 | a fallback draft passes the response model exactly when its item is not a knowledge item with an empty value |
| Sessions.FallbackDraftsPresentable | quiz.py:49-66 | the fallback drafts of a pool all pass the response model exactly when no pooled item is a knowledge item with an empty value |
| Sessions.FallbackQuizFailsOnEmptyValue | main.py:237-267 | without a generator reply and for n >= 0, generation for an existing patient succeeds exactly when no pooled item is a knowledge item with an empty value, and otherwise answers 500 with the session row already stored |
| Sessions.GenerateQuiz | main.py:224-272 | an unknown patient gives 404 "Patient not found" and changes nothing; otherwise the session is opened, as above, with the drafts drawn from the due list as the source computes it |
| Sessions.GenerateQuizIntended | main.py:224-272 | corrected: the same endpoint drawing its drafts from the corrected due list |
| Sessions.GenerationAgreesWhenAllDue | main.py:236-245 | when every mastery row of the patient is due, the endpoint and its corrected form give the same result |
| Sessions.FallbackSessionIsCapped | main.py:237-247 | without a generator reply and with n >= 0 the session opened for an existing patient has at most n questions |
| Sessions.QuestionById | main.py:288-293 | the id-keyed question dict finds a question of the session exactly when one has the id |
| Sessions.Grade | main.py:292-312 | the batch is graded in order; grading stops at the first unknown question id, and completes exactly when every id is known; each graded answer is judged against its question, and its response row records the verdict, time and clock |
| Sessions.Remember | main.py:313-321 | an answer whose question names an item upserts the computed update, any other answer changes nothing; uniqueness of keys and the row invariant are kept |
| Sessions.RememberAll | main.py:292-321 | the updates of a batch, applied in order, keep uniqueness and the row invariant, and change nothing when no question names an item |
| Sessions.RememberAllKeys | main.py:313-321 | after a batch the table has rows for exactly the keys it had and the items the graded questions name |
| Sessions.WeakItems | main.py:326-328 | the weak items are the question ids of the incorrect answers, in submission order with one entry per wrong answer, and number the batch size minus the correct count |
| Sessions.CompleteSession | db.py:326-336 | the session's rows are marked completed with the score and average, and other sessions are unchanged |
| Sessions.Close | main.py:323-336 | the summary's score is correct / max(batch size, 1), in [0, 1] and 0 for an empty batch; the average is total time / max(batch size, 1); correct plus weak items equals the total |
| Sessions.SubmitQuiz | main.py:280-336 | an unknown session gives 404 "Session not found" and changes nothing; an unknown question id gives 400 "Invalid question id" with the earlier responses and mastery updates kept and the session untouched; otherwise the session is completed with the summary's score and average, and responses and mastery updates are recorded for the whole batch |
| Sessions.RecallQuizGenerated | tests/test_app.py:46-90 | generating with a one-question generator reply opens session "s" with that question, its alternates revealed |
| Sessions.RecallQuizScoresFull | tests/test_app.py:91-104 | submitting "blue" to that recall question scores 1.0 with no weak items |
| Storage.SafeFilename | storage.py:20-22 | the name keeps its length; allowed characters stay in place and every other character becomes '_' |
| Storage.SafeFilenameKeepsSafeNames | storage.py:20-22 | a name of allowed characters only is left as it is |
| Storage.SafeFilenameIdempotent | storage.py:20-22 | sanitising twice is sanitising once |
| Storage.StoredFilename | storage.py:56 | a missing or empty name is stored as "upload"; otherwise the stored name has the same length and keeps exactly the allowed characters |
| Storage.BlobName | storage.py:57 | the blob path lies in the patient's folder of "patient-docs", ends with the stored name, and that name holds no '/' |

## Left out

- The Azure OpenAI client, its prompt and the parsing of its reply are not modelled. The generator is a parameter that is not configured, fails, or replies with a list of drafts.
- Selection.GenerateQuizQuestions: with the client configured, the source serialises the family, knowledge and due lists with `json.dumps` before it calls the client (quiz.py:129-138). Those dicts carry `datetime` columns (db.py:144-148), so `json.dumps` raises `TypeError` outside the `try` of quiz.py:141 whenever the patient has a family member, an admitted knowledge item or a due stored row. The request then answers 500 before any session row is written (main.py:237-247). That path is not modelled: the `Failed` and `Replied` generator outcomes stand for a generator that receives its input, as when the generator function is replaced (tests/test_app.py:80).
- Selection.GenerateQuizQuestions: a generator reply is passed on unvalidated and not capped at `n`, so the cap holds only for the fallback drafts.
- Sessions.GenerateQuiz: a generator draft missing its question type, prompt or difficulty, which the source rejects with an error, is not modelled; drafts always carry those fields. A missing item type or item id is modelled, as a rejected draft.
- `datetime.utcnow()` and `uuid4()` are not modelled. The clock and the fresh ids are parameters. One `now` stands for every clock read of a request: the creation times of all the responses of a batch and the two clock reads of each mastery update, which the source takes separately (a response is stamped at db.py:321).
- JSON encoding of payloads and answers is not modelled. Answers are their `str()` rendering, and a payload is the `Draft` record.
- IEEE-754 rounding of the mastery score is not modelled. Scores are exact reals, so a score that lands exactly on a threshold through float rounding is out of scope.
- Unicode `lower()` and `strip()` are not modelled. Lower-casing is ASCII, and whitespace is an explicit set of characters.
- FastAPI routing, request models, API-key checks and CORS are transport glue and are not modelled. Of the response models, only the check of a returned question is modelled (Sessions.Presentable).
- SQL tables, surrogate row ids and the CRUD helpers are replaced by sequences.
- Analytics.JoinAnswered, DueSet.DueItems: the source's queries have no `ORDER BY`, so the database may return rows in any order. The model fixes one order, the order of the sequences: responses in turn, and for each its questions in table order. The accuracies depend only on the counts per category, so they do not depend on this choice.
- Blob upload, container creation, family photos and Cosmos logging are cloud I/O. Only the blob name of a document upload is modelled.
- Analytics.AccuracyByCategory: the `last_seen` and `next_due` maps of the analytics summary are not modelled, because they only render timestamps as ISO strings.
- The knowledge listing's optional category filter is not modelled, because quiz generation never passes one.

## Findings

| source | as written | input that shows it | evidently intended | confidence | as-written member | corrected member |
|---|---|---|---|---|---|---|
| db.py:392 | the known ids that suppress catalogue entries are seeded from the due rows only | an item whose mastery row is due at time 100, asked for at time 50, is listed again as never seen | the docstring promises catalogue entries only for items missing mastery rows, so ids of every mastery row of the patient should suppress them | not executed | DueSet.NotYetDueItemListedAsUnseen | DueSet.DueItemsIntended |
| db.py:434-444 | the accuracy join is never restricted to the patient's sessions | a patient with no sessions is shown another patient's wrong answer as accuracy 0.0 for "knowledge" | only responses to the patient's own questions are counted, as the mastery part of the same summary filters by patient | not executed | Analytics.OtherPatientsAnswersCounted | Analytics.PatientAccuracyIgnoresOtherPatients |
