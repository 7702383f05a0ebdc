/** What the question service promises its callers, proved of the model. */
module QuestionProperties {
  import opened Wrappers
  import opened ServiceErrors
  import opened QuestionService

  // ---- findById ----

  /** A lookup succeeds with exactly the record stored under the id. */
  lemma FindByIdReturnsStored(st: Store, id: int, q: Question)
    requires KeyedById(st)
    ensures FindById(st, id) == Success(q) <==> q in st.questions.Values && q.id == id
  {
    if q in st.questions.Values && q.id == id {
      var k := KeyOfValue(st.questions, q);
      assert k == id;
    }
  }

  // ---- findAllBySurveyId ----

  /** The repository query by survey id and the survey's own question
      collection agree in every valid store. */
  lemma SurveyQueryMatchesCollection(st: Store, s: int)
    requires Valid(st)
    requires s in st.surveys
    ensures SurveyQuestionIds(st, s) == st.surveys[s]
  {
    forall k | k in SurveyQuestionIds(st, s)
      ensures k in st.surveys[s]
    {
      assert Filed(st, k);
    }
    forall k | k in st.surveys[s]
      ensures k in SurveyQuestionIds(st, s)
    {
    }
  }

  // ---- save ----

  /** A nonzero id that is not stored is rejected before anything else is
      looked at, whatever survey the question names. */
  lemma SaveUnknownIdFails(st: Store, q: Question)
    requires q.id != 0 && q.id !in st.questions
    ensures Save(st, q) == Failure(ResourceNotFound(QuestionResource(q.id)))
  {
  }

  /** With an acceptable id, a survey id that does not resolve is rejected. */
  lemma SaveMissingSurveyFails(st: Store, q: Question, s: int)
    requires q.id == 0 || q.id in st.questions
    requires q.survey == Some(s) && s !in st.surveys
    ensures Save(st, q) == Failure(ResourceNotFound(SurveyResource(s)))
  {
  }

  /** Save succeeds exactly when the id is 0 or stored and the survey exists;
      whenever it fails nothing is written, since a failure carries no store. */
  lemma SaveSucceedsIff(st: Store, q: Question)
    ensures Save(st, q).Success? <==>
      (q.id == 0 || q.id in st.questions) && q.survey.Some? && q.survey.value in st.surveys
  {
  }

  /** A save under an existing id replaces that record in full with the
      submitted fields and touches no other record and no survey's existence. */
  lemma SaveOverwrites(st: Store, q: Question)
    requires q.id != 0
    requires Save(st, q).Success?
    ensures var (st', saved) := Save(st, q).value;
      && saved == q
      && st'.questions.Keys == st.questions.Keys
      && st'.questions[q.id] == saved
      && (forall k | k in st.questions && k != q.id :: st'.questions[k] == st.questions[k])
      && st'.surveys.Keys == st.surveys.Keys
      && st'.nextId == st.nextId
  {
  }

  /** A save with id 0 stores the submitted fields under a fresh nonzero id and
      leaves every existing record as it was. */
  lemma SaveInserts(st: Store, q: Question)
    requires Valid(st)
    requires q.id == 0
    requires Save(st, q).Success?
    ensures var (st', saved) := Save(st, q).value;
      && saved.id != 0 && saved.id !in st.questions
      && saved == q.(id := saved.id)
      && st'.questions.Keys == st.questions.Keys + {saved.id}
      && st'.questions[saved.id] == saved
      && (forall k | k in st.questions :: st'.questions[k] == st.questions[k])
      && st'.surveys.Keys == st.surveys.Keys
  {
  }

  /** The saved question can be found again under the id save returns. */
  lemma SaveThenFind(st: Store, q: Question)
    requires Save(st, q).Success?
    ensures var (st', saved) := Save(st, q).value;
      FindById(st', saved.id) == Success(saved)
  {
  }

  /** Save keeps every store invariant, in particular that each survey's
      collection lists exactly the questions linked to it. */
  lemma SavePreservesValid(st: Store, q: Question)
    requires Valid(st)
    requires Save(st, q).Success?
    ensures Valid(Save(st, q).value.0)
  {
    var (st', saved) := Save(st, q).value;
    var id := saved.id;
    var s := q.survey.value;
    forall k | k in st'.questions
      ensures Filed(st', k)
    {
      if k != id {
        assert Filed(st, k);
      }
    }
    forall t, k | t in st'.surveys && k in st'.surveys[t]
      ensures k in st'.questions && st'.questions[k].survey == Some(t)
    {
      if k != id {
        assert k in st.surveys[t];
      }
    }
  }

  // ---- delete ----

  /** Deleting an id that is not stored fails; nothing is written. */
  lemma DeleteAbsentFails(st: Store, id: int)
    requires Valid(st)
    requires id !in st.questions
    ensures Delete(st, id) == Failure(ResourceNotFound(QuestionResource(id)))
  {
  }

  /** The detach step alone: the question is still stored, but no survey's
      collection lists it any more, and every other listing stays. */
  lemma DetachUnlistsEverywhere(st: Store, id: int)
    requires Valid(st)
    requires id in st.questions
    ensures var d := Detach(st, id);
      && d.questions == st.questions
      && d.surveys.Keys == st.surveys.Keys
      && (forall s | s in d.surveys :: d.surveys[s] == st.surveys[s] - {id})
  {
    var d := Detach(st, id);
    assert Filed(st, id);
    forall s | s in d.surveys
      ensures d.surveys[s] == st.surveys[s] - {id}
    {
      if s != st.questions[id].survey.value {
        assert id !in st.surveys[s];
      }
    }
  }

  /** Deleting a stored question removes that record and every listing of
      it, and leaves all other records and listings as they were. */
  lemma DeleteRemovesOnlyIt(st: Store, id: int)
    requires Valid(st)
    requires id in st.questions
    ensures Delete(st, id).Success?
    ensures var st' := Delete(st, id).value;
      && st'.questions.Keys == st.questions.Keys - {id}
      && (forall k | k in st'.questions :: st'.questions[k] == st.questions[k])
      && st'.surveys.Keys == st.surveys.Keys
      && (forall s | s in st'.surveys :: st'.surveys[s] == st.surveys[s] - {id})
      && (forall s | s in st'.surveys :: id !in SurveyQuestionIds(st', s))
  {
    DetachUnlistsEverywhere(st, id);
  }

  /** Delete keeps every store invariant. */
  lemma DeletePreservesValid(st: Store, id: int)
    requires Valid(st)
    requires Delete(st, id).Success?
    ensures Valid(Delete(st, id).value)
  {
    var st' := Delete(st, id).value;
    DetachUnlistsEverywhere(st, id);
    forall k | k in st'.questions
      ensures Filed(st', k)
    {
      assert Filed(st, k);
    }
  }

  /** Storing a new question and then deleting it gives back the questions
      and survey collections the store started with. */
  lemma SaveThenDeleteRestores(st: Store, q: Question)
    requires Valid(st)
    requires q.id == 0
    requires Save(st, q).Success?
    ensures var (st1, saved) := Save(st, q).value;
      Valid(st1) && saved.id in st1.questions &&
      var st2 := Delete(st1, saved.id).value;
      st2.questions == st.questions && st2.surveys == st.surveys
  {
    var (st1, saved) := Save(st, q).value;
    SavePreservesValid(st, q);
    SaveInserts(st, q);
    var id := saved.id;
    DeleteRemovesOnlyIt(st1, id);
    var st2 := Delete(st1, id).value;
    assert st2.questions == st.questions;
    assert st2.surveys == st.surveys;
  }

  // ---- update ----

  /** The update stub returns null and changes nothing. */
  lemma UpdateHasNoEffect(st: Store, q: Question)
    ensures Update(st, q).0 == st
    ensures Update(st, q).1.None?
  {
  }
}
