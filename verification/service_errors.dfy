/** The errors the question service raises. */
module ServiceErrors {
  import opened Decimal

  /** What a failed lookup was looking for. */
  datatype Resource = QuestionResource(id: int) | SurveyResource(id: int)

  /** `ResourceNotFoundException`, and the `NullPointerException` a null
      survey reference on a submitted question provokes. */
  datatype Error = ResourceNotFound(what: Resource) | NullPointer

  /** The text the service puts in its `ResourceNotFoundException`. */
  function NotFoundMessage(r: Resource): (m: string)
    ensures 20 <= |m|
    ensures r.QuestionResource? ==> m[..9] == "Question "
    ensures r.SurveyResource? ==> m[..10] == "Survey Id "
    ensures m[|m| - 10..] == " Not Found"
  {
    match r
    case QuestionResource(id) => "Question " + LongToString(id) + " Not Found"
    case SurveyResource(id) => "Survey Id " + LongToString(id) + " Not Found"
  }

  /** The message names the resource exactly: two different resources never
      produce the same text. */
  lemma NotFoundMessageIdentifies(a: Resource, b: Resource)
    requires NotFoundMessage(a) == NotFoundMessage(b)
    ensures a == b
  {
    var m := NotFoundMessage(a);
    assert a.QuestionResource? <==> m[0] == 'Q';
    assert b.QuestionResource? <==> m[0] == 'Q';
    var pre := if a.QuestionResource? then 9 else 10;
    var ida := LongToString(a.id);
    var idb := LongToString(b.id);
    assert |ida| == |m| - pre - 10 == |idb|;
    assert m[pre..|m| - 10] == ida;
    assert NotFoundMessage(b)[pre..|m| - 10] == idb;
    LongToStringInjective(a.id, b.id);
  }
}
