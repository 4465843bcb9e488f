/** One line of `questions.csv` turned into a question, or skipped
    (main.cpp:39-60). The expected layout is
    `subject,question,opt1,opt2,opt3,opt4,ans_index`; fields past the seventh
    are ignored and the answer index is not range-checked. */
module CsvRow {
  import opened Optional
  import opened CsvSplit
  import opened IntParse

  /** `struct QuizQuestion` (main.cpp:17-21). */
  datatype QuizQuestion = QuizQuestion(question: string, options: seq<string>, correctIndex: int)

  /** An accepted line: the subject it is filed under and the question. */
  datatype Row = Row(subject: string, item: QuizQuestion)

  const MinFields: nat := 7

  /** A line is accepted exactly when it has at least seven fields and the
      seventh is a number `std::stoi` accepts. */
  function ParseLine(line: string): (r: Option<Row>)
    ensures r.Some? <==> |Fields(line)| >= MinFields && Stoi(Fields(line)[6]).Some?
    ensures r.Some? ==> |r.value.item.options| == 4
    ensures r.Some? ==> IntMin <= r.value.item.correctIndex <= IntMax
  {
    var f := Fields(line);
    if |f| < MinFields then None
    else
      match Stoi(f[6])
      case None => None
      case Some(k) => Some(Row(f[0], QuizQuestion(f[1], [f[2], f[3], f[4], f[5]], k)))
  }

  /** What a line of comma-free fields parses to: the first six fields
      are taken as they stand and the seventh is whatever `std::stoi` makes
      of it, so white space before the index, a sign, leading zeros and
      text after it (a carriage return, say) are all accepted. A final
      comma changes nothing; without it the last field must not be empty,
      as the split would drop it. */
  lemma {:induction false} ParseFields(fs: seq<string>)
    requires |fs| >= MinFields
    requires forall k :: 0 <= k < |fs| ==> NoComma(fs[k])
    ensures ParseLine(Join(fs) + ",")
      == (match Stoi(fs[6])
          case None => None
          case Some(k) => Some(Row(fs[0], QuizQuestion(fs[1], fs[2..6], k))))
    ensures |fs[|fs| - 1]| > 0 ==> ParseLine(Join(fs)) == ParseLine(Join(fs) + ",")
  {
    assert [fs[2], fs[3], fs[4], fs[5]] == fs[2..6];
    SplitJoinWithComma(fs);
    if |fs[|fs| - 1]| > 0 {
      SplitJoin(fs);
    }
  }

  /** A line ending in a carriage return, as a file saved with Windows line
      ends gives: the return stays on the index field and `std::stoi`
      stops before it, so the question is still read with its index. */
  lemma {:induction false} ParseCarriageReturn(head: seq<string>, n: int)
    requires |head| == MinFields - 1
    requires forall k :: 0 <= k < |head| ==> NoComma(head[k])
    requires IntMin <= n <= IntMax
    ensures ParseLine(Join(head + [Show(n) + "\r"]))
      == Some(Row(head[0], QuizQuestion(head[1], head[2..6], n)))
  {
    var fs := head + [Show(n) + "\r"];
    StoiShowHasNoComma(n);
    assert NoComma(fs[6]);
    assert forall k :: 0 <= k < |fs| ==> NoComma(fs[k]) by {
      forall k | 0 <= k < |fs| ensures NoComma(fs[k]) {
        if k < 6 {
          assert fs[k] == head[k];
        }
      }
    }
    StoiShow("", n, "\r");
    assert "" + Show(n) + "\r" == fs[6];
    assert fs[2..6] == head[2..6];
    ParseFields(fs);
  }

  /** A row that can be written as one line: no commas inside its text,
      four options, and an index that fits in an `int`. */
  predicate Writable(row: Row) {
    && NoComma(row.subject)
    && NoComma(row.item.question)
    && |row.item.options| == 4
    && (forall k :: 0 <= k < 4 ==> NoComma(row.item.options[k]))
    && IntMin <= row.item.correctIndex <= IntMax
  }

  /** The fields a row is written as, followed by any extra columns. */
  function RowFields(row: Row, extra: seq<string>): (fs: seq<string>)
    requires |row.item.options| == 4
  {
    [row.subject, row.item.question] + row.item.options + [Show(row.item.correctIndex)] + extra
  }

  /** Reading a written row gives the row back, whatever comma-free columns
      follow it; with no final comma the last column must not be empty, as
      the split would drop it. */
  lemma ParseWrittenLine(row: Row, extra: seq<string>)
    requires Writable(row)
    requires forall k :: 0 <= k < |extra| ==> NoComma(extra[k])
    ensures ParseLine(Join(RowFields(row, extra)) + ",") == Some(row)
    ensures |extra| == 0 || |extra[|extra| - 1]| > 0 ==> ParseLine(Join(RowFields(row, extra))) == Some(row)
  {
    var fs := RowFields(row, extra);
    assert fs[6] == Show(row.item.correctIndex);
    assert [fs[2], fs[3], fs[4], fs[5]] == row.item.options;
    assert fs[0] == row.subject && fs[1] == row.item.question;
    assert forall k :: 0 <= k < |fs| ==> NoComma(fs[k]) by {
      forall k | 0 <= k < |fs| ensures NoComma(fs[k]) {
        if k == 6 {
          StoiShowHasNoComma(row.item.correctIndex);
        }
      }
    }
    StoiShow("", row.item.correctIndex, "");
    assert "" + Show(row.item.correctIndex) + "" == Show(row.item.correctIndex);
    assert Stoi(fs[6]) == Some(row.item.correctIndex);
    SplitJoinWithComma(fs);
    assert ParseLine(Join(fs) + ",") == Some(row);
    if |extra| == 0 || |extra[|extra| - 1]| > 0 {
      SplitJoin(fs);
    }
  }

  lemma StoiShowHasNoComma(n: int)
    ensures NoComma(Show(n))
  {
  }
}
