# Apollo survey service: question store and topic memberships

This project models two pieces of the Apollo survey back end in Dafny and
proves properties of them.

1. **The question service** (`QuestionServiceImpl`). The state is a `Store`:
   questions by id, the existing surveys with the ids in each survey's question
   collection, and the next id the repository will generate. `findById`,
   `findAllQuestions`, `findAllBySurveyId`, `save`, `delete` and the `update`
   stub are pure functions or methods over that state. A failing call returns
   `Failure(ResourceNotFound(...))` (or `NullPointer`) and no store, so a failure
   never writes anything. The read operations return no store at all, so they
   cannot change it. `Valid` states the store's invariants:
   - every question is kept under its own id;
   - ids are positive and below the next generated id;
   - every question belongs to an existing survey;
   - each survey's collection lists exactly the questions that point at it.

   The survey's collection is the inverse side of the question→survey link.
   It is kept as explicit state so that the two steps of `delete` show up: first
   detach the question from its survey, then remove it. `save` links the stored
   question into its survey's collection, and unlinks it from its previous
   survey. This is what the persistence layer shows on the next read.
2. **The topic membership association** (`TopicUsers`). A membership object
   has a heap address (what Java's `==` compares) and two nullable fields.
   `Equals` and `HashCode` follow the Java code step by step:
   - identity test, then null and foreign-class tests, then topic and user
     comparison;
   - `Objects.hash` as `Arrays.hashCode` in 32-bit arithmetic.

   Topic's and User's own `equals`/`hashCode` are parameters. The `topicusers`
   table is a sequence of `(topicid, userid)` rows under its unique constraint.

Files: `wrappers.dfy` (Option, Result), `java_int.dfy` (32-bit wrap-around),
`decimal.dfy` (Java's rendering of a `long`), `service_errors.dfy`,
`question_service.dfy`, `question_properties.dfy`, `topic_users.dfy`,
`membership_table.dfy`.

Two details of `save`:

- A submitted question with a nonzero id is not simply given that id. The id
  must name a stored question, or `save` fails with `ResourceNotFound` before
  the survey is resolved.
- A submitted question whose survey reference is null fails with a
  `NullPointerException` when the survey id is read. This happens after the id
  check and before any lookup.

## Model

| member | source | states |
|---|---|---|
| QuestionService.FindSurvey | src/main/java/com/lambdaschool/apollo/services/SurveyService.java:12 | survey lookup yields the survey exactly when it exists; otherwise not-found naming that survey id (the lookup's own exception and the null-return error are one error in the model) |
| QuestionService.RemoveQuestion | src/main/java/com/lambdaschool/apollo/services/SurveyService.java:22 | removeQuestion drops the question id from that survey's collection only; every survey keeps existing and the others keep their collections |
| QuestionService.FindById | src/main/java/com/lambdaschool/apollo/services/QuestionServiceImpl.java:24-29 | succeeds exactly when the id is stored; otherwise fails with ResourceNotFound for that question id |
| QuestionProperties.FindByIdReturnsStored | src/main/java/com/lambdaschool/apollo/services/QuestionServiceImpl.java:25-29 | a lookup returns q exactly when q is a stored record carrying that id |
| QuestionService.FindAllQuestions | src/main/java/com/lambdaschool/apollo/services/QuestionServiceImpl.java:31-37 | the list holds every stored question and nothing else, as many entries as records, no id twice |
| QuestionService.FindAllBySurveyId | src/main/java/com/lambdaschool/apollo/services/QuestionServiceImpl.java:39-45 | the list holds exactly the stored questions linked to the survey, none missing, none extra, no id twice |
| QuestionProperties.SurveyQueryMatchesCollection | src/main/java/com/lambdaschool/apollo/services/QuestionServiceImpl.java:40-45 | in a valid store the query by survey id selects exactly the ids in that survey's question collection |
| QuestionProperties.SaveUnknownIdFails | src/main/java/com/lambdaschool/apollo/services/QuestionServiceImpl.java:77-79 | a nonzero id that is not stored fails with ResourceNotFound for the question, whatever the survey; so this error wins over a missing survey |
| QuestionProperties.SaveMissingSurveyFails | src/main/java/com/lambdaschool/apollo/services/QuestionServiceImpl.java:85-91 | with an acceptable id, a survey id that does not exist fails with ResourceNotFound for that survey and stores nothing |
| QuestionProperties.SaveSucceedsIff | src/main/java/com/lambdaschool/apollo/services/QuestionServiceImpl.java:73-91 | save succeeds if and only if the id is 0 or stored, the survey reference is set and the survey exists |
| QuestionProperties.SaveOverwrites | src/main/java/com/lambdaschool/apollo/services/QuestionServiceImpl.java:75-88 | saving under an existing id replaces that record with the submitted body, leader flag, type and survey; no other record, no survey's existence and no id counter changes |
| QuestionProperties.SaveInserts | src/main/java/com/lambdaschool/apollo/services/QuestionServiceImpl.java:75-88 | saving with id 0 adds exactly one record, under a fresh nonzero id, holding the submitted fields; existing records are untouched |
| QuestionProperties.SaveThenFind | src/main/java/com/lambdaschool/apollo/services/QuestionServiceImpl.java:85-88 | the returned question is what findById then yields for its id |
| QuestionProperties.SavePreservesValid | src/main/java/com/lambdaschool/apollo/services/QuestionServiceImpl.java:85-88 | save keeps every store invariant, including each survey listing exactly its questions |
| QuestionProperties.DeleteAbsentFails | src/main/java/com/lambdaschool/apollo/services/QuestionServiceImpl.java:51-52 | deleting an id that is not stored fails with ResourceNotFound for it and changes nothing |
| QuestionProperties.DetachUnlistsEverywhere | src/main/java/com/lambdaschool/apollo/services/QuestionServiceImpl.java:63-67 | after the detach step the question is still stored but no survey lists it; every other listing stays |
| QuestionProperties.DeleteRemovesOnlyIt | src/main/java/com/lambdaschool/apollo/services/QuestionServiceImpl.java:51-68 | deleting a stored id succeeds, removes exactly that record and its listing, leaves the other records and listings, and the survey query no longer finds it |
| QuestionProperties.DeletePreservesValid | src/main/java/com/lambdaschool/apollo/services/QuestionServiceImpl.java:67-68 | delete keeps every store invariant |
| QuestionProperties.SaveThenDeleteRestores | src/main/java/com/lambdaschool/apollo/services/QuestionServiceImpl.java:47-93 | storing a new question and deleting it gives back the original questions and survey collections |
| QuestionProperties.UpdateHasNoEffect | src/main/java/com/lambdaschool/apollo/services/QuestionServiceImpl.java:95-99 | the update stub returns null and leaves the store as it was |
| ServiceErrors.NotFoundMessage | src/main/java/com/lambdaschool/apollo/services/QuestionServiceImpl.java:77-91 | the exception text starts "Question " or "Survey Id " according to what was sought and ends " Not Found" |
| ServiceErrors.NotFoundMessageIdentifies | src/main/java/com/lambdaschool/apollo/services/QuestionServiceImpl.java:28 | different missing resources never produce the same message |
| Decimal.ParseLongToString | src/main/java/com/lambdaschool/apollo/services/QuestionServiceImpl.java:28 | the id rendered into a message parses back to the same long |
| Memberships.New | src/main/java/com/lambdaschool/apollo/models/TopicUsers.java:50-53 | the constructor stores exactly the given topic and user |
| Memberships.SetTopic | src/main/java/com/lambdaschool/apollo/models/TopicUsers.java:69-71 | setTopic changes the topic to the argument; the user and the object's identity are unchanged |
| Memberships.SetUser | src/main/java/com/lambdaschool/apollo/models/TopicUsers.java:87-89 | setUser changes the user to the argument; the topic and the object's identity are unchanged |
| Memberships.EqualsIdentityAndClass | src/main/java/com/lambdaschool/apollo/models/TopicUsers.java:93-94 | equals is true for the same object and false for null or an object of another class |
| Memberships.EqualsIsStructural | src/main/java/com/lambdaschool/apollo/models/TopicUsers.java:95-97 | two distinct memberships with both fields set are equal if and only if topics are equal and users are equal |
| Memberships.EqualsOnUnsetTopic | src/main/java/com/lambdaschool/apollo/models/TopicUsers.java:96-97 | a receiver with a null topic throws when compared with another membership, while the reverse call answers false |
| Memberships.EqualsSymmetric | src/main/java/com/lambdaschool/apollo/models/TopicUsers.java:91-98 | on memberships with both fields set, equals is symmetric whenever Topic's and User's equals are |
| Memberships.EqualsTransitive | src/main/java/com/lambdaschool/apollo/models/TopicUsers.java:91-98 | equals is transitive whenever Topic's and User's equals are equivalences, whatever the fields hold |
| JavaInt.Wrap | src/main/java/com/lambdaschool/apollo/models/TopicUsers.java:102 | a Java int result is the exact value reduced into the 32-bit range, unchanged when it already fits |
| Memberships.ArraysHashCodeIsPolynomial | src/main/java/com/lambdaschool/apollo/models/TopicUsers.java:102 | the 31-multiplier hash folded with wrap-around at every step equals the exact polynomial reduced modulo 2^32 |
| Memberships.HashCodeClosedForm | src/main/java/com/lambdaschool/apollo/models/TopicUsers.java:101-103 | hashCode is 961 + 31·hash(topic) + hash(user) in 32-bit arithmetic (0 for a null field): it depends on the pair only |
| Memberships.EqualsImpliesSameHash | src/main/java/com/lambdaschool/apollo/models/TopicUsers.java:91-103 | equal memberships have equal hash codes when Topic's and User's hashes agree with their equals |
| MembershipTable.Insert | src/main/java/com/lambdaschool/apollo/models/TopicUsers.java:13 | an insert succeeds exactly when the (topicid, userid) key is new, appending that row; otherwise it is refused as a duplicate key |
| MembershipTable.InsertKeepsUnique | src/main/java/com/lambdaschool/apollo/models/TopicUsers.java:13 | a table never holds two rows with the same key after an insert |
| MembershipTable.RemoveKeepsUnique | src/main/java/com/lambdaschool/apollo/models/TopicUsers.java:13 | deleting a key's rows keeps the constraint |
| MembershipTable.InsertThenRemove | src/main/java/com/lambdaschool/apollo/models/TopicUsers.java:13 | adding a membership row and deleting it restores the table |
| MembershipTable.UniqueRowCount | src/main/java/com/lambdaschool/apollo/models/TopicUsers.java:13 | under the constraint the table has as many rows as distinct keys |
| MembershipTable.EqualsIffSameRow | src/main/java/com/lambdaschool/apollo/models/TopicUsers.java:13 | when Topic and User compare by id, two memberships are equal if and only if they map to the same table key |

## Left out

- QuestionService.RemoveQuestion and QuestionService.FindSurvey: the survey service's implementation is not part of this model. These state the behaviour the question service relies on: lookup finds an existing survey or signals not-found, and removeQuestion drops the question from that survey's collection.
- ServiceErrors.NotFoundMessage: the "Survey Id ... Not Found" text is raised by the question service only when the survey lookup returns null. If the survey service throws its own not-found exception instead, that exception and its message reach the caller. The model writes both cases as the same error, `ResourceNotFound(SurveyResource(id))`, because the survey service's code is not part of this model.
- QuestionService.Delete requires a valid store. In a valid store every stored question has a survey; the code never handles a stored question without one.
- Question id generation is a counter (`nextId`) that yields an id not yet in the store. The repository's actual sequence is not modelled.
- Java `long` overflow of ids and of the counter is not modelled; ids are unbounded integers.
- The order of `findAllQuestions` and `findAllBySurveyId` results is left unspecified, as the repository does not promise one.
- `@Transactional` rollback, JPA cascade settings, the foreign-key failure described in the comments of `delete`, JSON and Swagger annotations and auditing fields are persistence or transport concerns and are not modelled.
- Question fields other than id, body, leader flag, type and survey are not modelled. The type is the enum constant's name.
- `TopicUsers.toString` is not modelled: it relies on Topic's and User's `toString`, which are not part of this model.
- The getters `getTopic` and `getUser` are plain field reads. Their contracts are stated through `Memberships.New`, `Memberships.SetTopic` and `Memberships.SetUser`.
- Memberships.EqualsSymmetric holds only for memberships with both fields set; `Memberships.EqualsOnUnsetTopic` shows why.
- Topic's and User's `equals` and `hashCode` are parameters. The model assumes Java's contract that `x.equals(null)` is false.
