/** `GET /api/get_question?subject=...` (main.cpp:95-120): serve a question
    of the requested subject, or of a randomly chosen subject when the
    requested one is unknown. The two `rand()` results are parameters. */
module QuestionPick {
  import opened CsvRow
  import opened QuestionTable

  const EmptyMessage := "Error: Database empty."

  /** The JSON reply: an error text, or the chosen question. */
  datatype Reply =
    | Failure(message: string)
    | Question(subject: string, question: string, options: seq<string>, answer: int)

  /** The reply shows question `q` of subject `s`. */
  predicate Shows(r: Reply, s: string, q: QuizQuestion) {
    r.Question? && r.subject == s && r.question == q.question && r.options == q.options
      && r.answer == q.correctIndex
  }

  /** The handler, given a table in key order whose lists are all non-empty
      and hold four options each, as every loaded table is. `subjectDraw` and `indexDraw` are the two `rand()`
      values, used modulo the number of subjects and of questions. */
  function GetQuestion(db: Table, subject: string, subjectDraw: nat, indexDraw: nat): (r: Reply)
    requires Valid(db)
    ensures r.Failure? <==> |db| == 0
    ensures r.Failure? ==> r.message == EmptyMessage
    ensures subject in Keys(db) ==> r.Question? && r.subject == subject
    ensures subject !in Keys(db) && |db| > 0 ==> r.Question? && r.subject == db[subjectDraw % |db|].subject
    ensures r.Question? ==>
      && r.subject in Keys(db)
      && |Lookup(db, r.subject)| > 0
      && Shows(r, r.subject, Lookup(db, r.subject)[indexDraw % |Lookup(db, r.subject)|])
    ensures r.Question? ==> |r.options| == 4
  {
    assert subject in Keys(db) ==> |Lookup(db, subject)| > 0 by {
      if subject in Keys(db) {
        LookupNonEmpty(db, subject);
      }
    }
    if (subject !in Keys(db) || |Lookup(db, subject)| == 0) && |db| == 0 then
      Failure(EmptyMessage)
    else
      var chosen :=
        if subject !in Keys(db) || |Lookup(db, subject)| == 0 then db[subjectDraw % |db|].subject
        else subject;
      assert chosen in Keys(db);
      LookupNonEmpty(db, chosen);
      LookupFourOptions(db, chosen);
      var list := Lookup(db, chosen);
      var q := list[indexDraw % |list|];
      Question(chosen, q.question, q.options[..4], q.correctIndex)
  }

  lemma {:induction false} QuestionsForFromRows(rows: seq<Row>, s: string, k: nat)
    requires k < |QuestionsFor(rows, s)|
    ensures exists j :: 0 <= j < |rows| && rows[j] == Row(s, QuestionsFor(rows, s)[k])
  {
    var init := rows[..|rows| - 1];
    if k < |QuestionsFor(init, s)| {
      QuestionsForFromRows(init, s, k);
      var j :| 0 <= j < |init| && init[j] == Row(s, QuestionsFor(init, s)[k]);
      assert rows[j] == init[j];
    } else {
      assert rows[|rows| - 1] == Row(s, QuestionsFor(rows, s)[k]);
    }
  }

  /** Whatever the draws, a question served from a table holding exactly the
      questions of `rows` is one of those rows, shown under that row's own
      subject. */
  lemma ServedFromRow(db: Table, rows: seq<Row>, subject: string, subjectDraw: nat, indexDraw: nat)
    requires Valid(db)
    requires forall s :: Lookup(db, s) == QuestionsFor(rows, s)
    ensures var r := GetQuestion(db, subject, subjectDraw, indexDraw);
      r.Question? ==> Row(r.subject, QuizQuestion(r.question, r.options, r.answer)) in rows
  {
    var r := GetQuestion(db, subject, subjectDraw, indexDraw);
    if r.Question? {
      var list := Lookup(db, r.subject);
      var k := indexDraw % |list|;
      QuestionsForFromRows(rows, r.subject, k);
      var j :| 0 <= j < |rows| && rows[j] == Row(r.subject, QuestionsFor(rows, r.subject)[k]);
      assert rows[j] == Row(r.subject, QuizQuestion(r.question, r.options, r.answer));
    }
  }
}
