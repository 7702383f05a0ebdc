/** The question store of the survey service: questions kept by id, the
    surveys they belong to, and the service operations as state transitions. */
module QuestionService {
  import opened Wrappers
  import opened ServiceErrors

  /** The name of a question's response kind (only `TEXT` appears in the seed data). */
  type QuestionType = string

  /** A question: its id (0 for one not yet stored), body text, leader-only
      flag, response kind and the survey it belongs to (a nullable reference,
      written as the survey's id). */
  datatype Question = Question(id: int, body: string, leader: bool, kind: QuestionType, survey: Option<int>)

  /** The persisted state the service sees: questions by id, every existing
      survey with the ids in its question collection, and the next id the
      repository hands out. */
  datatype Store = Store(questions: map<int, Question>, surveys: map<int, set<int>>, nextId: int)

  /** Question `k` is linked to an existing survey and listed in that survey's collection. */
  ghost predicate Filed(st: Store, k: int)
    requires k in st.questions
  {
    match st.questions[k].survey
    case None => false
    case Some(s) => s in st.surveys && k in st.surveys[s]
  }

  /** Every question is kept under its own id. */
  ghost predicate KeyedById(st: Store) {
    forall k | k in st.questions :: st.questions[k].id == k
  }

  /** The invariants of every reachable store: each question is kept under its
      own id, ids are positive and below the next generated one, every question
      belongs to an existing survey, and each survey's collection lists exactly
      the questions that point at it. */
  ghost predicate Valid(st: Store) {
    && 1 <= st.nextId
    && KeyedById(st)
    && (forall k | k in st.questions :: 0 < k < st.nextId)
    && (forall k | k in st.questions :: Filed(st, k))
    && (forall s, k | s in st.surveys && k in st.surveys[s] ::
          k in st.questions && st.questions[k].survey == Some(s))
  }

  /** What the repository query by survey id selects: the ids of the questions linked to survey `s`. */
  ghost function SurveyQuestionIds(st: Store, s: int): set<int> {
    set k | k in st.questions && st.questions[k].survey == Some(s)
  }

  /** A store holding the given surveys and no questions. */
  function Empty(surveyIds: set<int>): (st: Store)
    ensures Valid(st)
    ensures st.questions == map[]
    ensures st.surveys.Keys == surveyIds
    ensures forall s | s in st.surveys :: st.surveys[s] == {}
  {
    Store(map[], map s | s in surveyIds :: {}, 1)
  }

  // ---- Collaborators of the survey service ----

  /** `SurveyService.findById`: the survey itself, or not-found. */
  function FindSurvey(st: Store, surveyId: int): (r: Result<int, Error>)
    ensures r.Success? <==> surveyId in st.surveys
    ensures r.Success? ==> r.value == surveyId
    ensures r.Failure? ==> r.error == ResourceNotFound(SurveyResource(surveyId))
  {
    if surveyId in st.surveys then Success(surveyId)
    else Failure(ResourceNotFound(SurveyResource(surveyId)))
  }

  /** `SurveyService.removeQuestion`: drops question `id` from survey `s`'s
      collection. Its code is not part of this model; this is the behaviour
      the question service relies on. */
  function RemoveQuestion(surveys: map<int, set<int>>, s: int, id: int): (r: map<int, set<int>>)
    ensures r.Keys == surveys.Keys
    ensures forall t | t in r :: r[t] == if t == s then surveys[t] - {id} else surveys[t]
  {
    if s in surveys then surveys[s := surveys[s] - {id}] else surveys
  }

  /** The survey side of a stored question's link: survey `s` lists question `id`. */
  function AddQuestion(surveys: map<int, set<int>>, s: int, id: int): (r: map<int, set<int>>)
    ensures r.Keys == surveys.Keys
    ensures forall t | t in r :: r[t] == if t == s then surveys[t] + {id} else surveys[t]
  {
    if s in surveys then surveys[s := surveys[s] + {id}] else surveys
  }

  /** A non-empty set has an element. */
  lemma SomeElement<T>(p: set<T>) returns (x: T)
    requires p != {}
    ensures x in p
  {
    if forall y :: y !in p {
      assert false;
    }
    x :| x in p;
  }

  /** A value held by a map is held under some key. */
  lemma KeyOfValue<K, V>(m: map<K, V>, v: V) returns (k: K)
    requires v in m.Values
    ensures k in m && m[k] == v
  {
    k :| k in m && m[k] == v;
  }

  // ---- QuestionServiceImpl ----

  /** `findById`: the stored question, or `ResourceNotFound`. */
  function FindById(st: Store, id: int): (r: Result<Question, Error>)
    ensures r.Success? <==> id in st.questions
    ensures r.Failure? ==> r.error == ResourceNotFound(QuestionResource(id))
  {
    if id in st.questions then Success(st.questions[id])
    else Failure(ResourceNotFound(QuestionResource(id)))
  }

  /** `findAllQuestions`: every stored question, each once, in no promised order. */
  method FindAllQuestions(st: Store) returns (r: seq<Question>)
    ensures |r| == |st.questions|
    ensures forall q :: q in r <==> q in st.questions.Values
    ensures KeyedById(st) ==> forall i, j :: 0 <= i < j < |r| ==> r[i].id != r[j].id
  {
    r := [];
    var pending := st.questions.Keys;
    ghost var done: set<int> := {};
    ghost var ks: seq<int> := [];
    while pending != {}
      invariant done !! pending && done + pending == st.questions.Keys
      invariant |ks| == |r| == |done|
      invariant forall i | 0 <= i < |ks| :: ks[i] in done && r[i] == st.questions[ks[i]]
      invariant forall i, j | 0 <= i < j < |ks| :: ks[i] != ks[j]
      invariant forall k | k in done :: k in ks
      decreases pending
    {
      // The lemma supplies an element, so the choice below is known to exist.
      ghost var _ := SomeElement(pending);
      var k :| k in pending;
      r := r + [st.questions[k]];
      ks := ks + [k];
      pending := pending - {k};
      done := done + {k};
    }
    assert done == st.questions.Keys;
    forall q | q in st.questions.Values
      ensures q in r
    {
      var k := KeyOfValue(st.questions, q);
      var i :| 0 <= i < |ks| && ks[i] == k;
      assert r[i] == q;
    }
  }

  /** `findAllBySurveyId`: exactly the stored questions linked to the survey, each once. */
  method FindAllBySurveyId(st: Store, surveyId: int) returns (r: seq<Question>)
    ensures forall q :: q in r <==> q in st.questions.Values && q.survey == Some(surveyId)
    ensures KeyedById(st) ==> forall i, j :: 0 <= i < j < |r| ==> r[i].id != r[j].id
  {
    r := [];
    var pending := st.questions.Keys;
    ghost var done: set<int> := {};
    ghost var ks: seq<int> := [];
    while pending != {}
      invariant done !! pending && done + pending == st.questions.Keys
      invariant |ks| == |r|
      invariant forall i | 0 <= i < |ks| :: ks[i] in done && r[i] == st.questions[ks[i]]
      invariant forall i | 0 <= i < |r| :: r[i].survey == Some(surveyId)
      invariant forall i, j | 0 <= i < j < |ks| :: ks[i] != ks[j]
      invariant forall k | k in done && st.questions[k].survey == Some(surveyId) :: k in ks
      decreases pending
    {
      // The lemma supplies an element, so the choice below is known to exist.
      ghost var _ := SomeElement(pending);
      var k :| k in pending;
      if st.questions[k].survey == Some(surveyId) {
        r := r + [st.questions[k]];
        ks := ks + [k];
      }
      pending := pending - {k};
      done := done + {k};
    }
    forall q | q in st.questions.Values && q.survey == Some(surveyId)
      ensures q in r
    {
      var k := KeyOfValue(st.questions, q);
      var i :| 0 <= i < |ks| && ks[i] == k;
      assert r[i] == q;
    }
  }

  /** `save`: a nonzero id must name a stored question, which the submitted
      one then replaces in full; id 0 stores a new question under a freshly
      generated id. Either way the survey is resolved first, and the question
      is linked to it. */
  function Save(st: Store, q: Question): (r: Result<(Store, Question), Error>)
  {
    if q.id != 0 && q.id !in st.questions then
      Failure(ResourceNotFound(QuestionResource(q.id)))
    else if q.survey.None? then
      Failure(NullPointer)
    else
      var s :- FindSurvey(st, q.survey.value);
      var id := if q.id != 0 then q.id else st.nextId;
      var saved := Question(id, q.body, q.leader, q.kind, Some(s));
      var unlinked :=
        if id in st.questions && st.questions[id].survey.Some?
        then RemoveQuestion(st.surveys, st.questions[id].survey.value, id)
        else st.surveys;
      var next := if q.id != 0 then st.nextId else st.nextId + 1;
      Success((Store(st.questions[id := saved], AddQuestion(unlinked, s, id), next), saved))
  }

  /** First half of `delete`: the question's survey stops listing it; the question itself is still stored. */
  function Detach(st: Store, id: int): (d: Store)
    requires id in st.questions && st.questions[id].survey.Some?
    ensures d.questions == st.questions && d.nextId == st.nextId
    ensures d.surveys == RemoveQuestion(st.surveys, st.questions[id].survey.value, id)
  {
    st.(surveys := RemoveQuestion(st.surveys, st.questions[id].survey.value, id))
  }

  /** `delete`: look the question up, detach it from its survey, then remove it. */
  function Delete(st: Store, id: int): (r: Result<Store, Error>)
    requires Valid(st)
  {
    if id !in st.questions then
      Failure(ResourceNotFound(QuestionResource(id)))
    else
      var detached := Detach(st, id);
      Success(detached.(questions := detached.questions - {id}))
  }

  /** `update`: a stub that returns null. */
  function Update(st: Store, q: Question): (Store, Option<Question>) {
    (st, None)
  }
}
