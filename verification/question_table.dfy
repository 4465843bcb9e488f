/** The global `std::map<std::string, std::vector<QuizQuestion>> database`
    (main.cpp:24) and the loop of `load_csv_database` that fills it
    (main.cpp:39-60). The map is an association list kept in strictly
    increasing key order, as `std::map` keeps it, so that "the k-th entry
    from `begin()`" is simply index k. */
module QuestionTable {
  import opened Optional
  import opened CsvRow

  /** `std::string`'s `<`: lexicographic, characters compared by code (the
      characters stand for bytes, compared as unsigned). */
  predicate Less(a: string, b: string)
    decreases |a|
  {
    if |a| == 0 then |b| > 0
    else if |b| == 0 then false
    else if a[0] != b[0] then a[0] < b[0]
    else Less(a[1..], b[1..])
  }

  lemma {:induction false} LessIrreflexive(a: string)
    ensures !Less(a, a)
    decreases |a|
  {
    if |a| > 0 {
      LessIrreflexive(a[1..]);
    }
  }

  lemma {:induction false} LessTransitive(a: string, b: string, c: string)
    requires Less(a, b) && Less(b, c)
    ensures Less(a, c)
    decreases |a|
  {
    if |a| > 0 && a[0] == b[0] && b[0] == c[0] {
      LessTransitive(a[1..], b[1..], c[1..]);
    }
  }

  lemma {:induction false} LessTotal(a: string, b: string)
    requires a != b
    ensures Less(a, b) || Less(b, a)
    decreases |a|
  {
    if |a| > 0 && |b| > 0 && a[0] == b[0] {
      assert a == [a[0]] + a[1..] && b == [b[0]] + b[1..];
      LessTotal(a[1..], b[1..]);
    }
  }

  /** One map entry: a subject and its questions in insertion order. */
  datatype Slot = Slot(subject: string, questions: seq<QuizQuestion>)

  type Table = seq<Slot>

  function Keys(t: Table): set<string> {
    set i | 0 <= i < |t| :: t[i].subject
  }

  /** The question list filed under `s`, or the empty list a fresh
      `database[s]` would start from. */
  function Lookup(t: Table, s: string): seq<QuizQuestion> {
    if |t| == 0 then [] else if t[0].subject == s then t[0].questions else Lookup(t[1..], s)
  }

  ghost predicate Ordered(t: Table) {
    forall i, j :: 0 <= i < j < |t| ==> Less(t[i].subject, t[j].subject)
  }

  ghost predicate NonEmptyLists(t: Table) {
    forall i :: 0 <= i < |t| ==> |t[i].questions| > 0
  }

  ghost predicate FourOptions(t: Table) {
    forall i, k :: 0 <= i < |t| && 0 <= k < |t[i].questions| ==> |t[i].questions[k].options| == 4
  }

  /** What every table the loader builds satisfies. */
  ghost predicate Valid(t: Table) {
    Ordered(t) && NonEmptyLists(t) && FourOptions(t)
  }

  lemma KeysCons(x: Slot, t: Table)
    ensures Keys([x] + t) == {x.subject} + Keys(t)
  {
    var u := [x] + t;
    forall k | k in Keys(u)
      ensures k in {x.subject} + Keys(t)
    {
      var i :| 0 <= i < |u| && u[i].subject == k;
      if i > 0 {
        assert u[i] == t[i - 1];
      }
    }
    forall k | k in {x.subject} + Keys(t)
      ensures k in Keys(u)
    {
      if k == x.subject {
        assert u[0].subject == k;
      } else {
        var i :| 0 <= i < |t| && t[i].subject == k;
        assert u[i + 1] == t[i];
      }
    }
  }

  lemma {:induction false} LookupAbsent(t: Table, s: string)
    requires s !in Keys(t)
    ensures Lookup(t, s) == []
  {
    if |t| > 0 {
      KeysCons(t[0], t[1..]);
      assert t == [t[0]] + t[1..];
      LookupAbsent(t[1..], s);
    }
  }

  /** In an ordered table, looking up a key finds its own slot. */
  lemma {:induction false} LookupSlot(t: Table, i: nat)
    requires Ordered(t) && i < |t|
    ensures Lookup(t, t[i].subject) == t[i].questions
  {
    if i > 0 {
      assert Less(t[0].subject, t[i].subject);
      LessIrreflexive(t[0].subject);
      LookupSlot(t[1..], i - 1);
    }
  }

  /** Every key present has a non-empty list under it. */
  lemma {:induction false} LookupNonEmpty(t: Table, s: string)
    requires NonEmptyLists(t) && s in Keys(t)
    ensures |Lookup(t, s)| > 0
  {
    if t[0].subject != s {
      var i :| 0 <= i < |t| && t[i].subject == s;
      assert t[1..][i - 1] == t[i];
      LookupNonEmpty(t[1..], s);
    }
  }

  /** Every question found by a lookup has four options. */
  lemma {:induction false} LookupFourOptions(t: Table, s: string)
    requires FourOptions(t)
    ensures forall k :: 0 <= k < |Lookup(t, s)| ==> |Lookup(t, s)[k].options| == 4
  {
    if |t| > 0 && t[0].subject != s {
      assert FourOptions(t[1..]) by {
        assert forall i :: 0 <= i < |t| - 1 ==> t[1..][i] == t[i + 1];
      }
      LookupFourOptions(t[1..], s);
    }
  }

  /** A key below the first key of an ordered table is below all of them. */
  lemma BelowAll(t: Table, s: string)
    requires Ordered(t) && |t| > 0 && Less(s, t[0].subject)
    ensures forall j :: 0 <= j < |t| ==> Less(s, t[j].subject)
    ensures s !in Keys(t)
  {
    forall j | 0 < j < |t|
      ensures Less(s, t[j].subject)
    {
      LessTransitive(s, t[0].subject, t[j].subject);
    }
    forall j | 0 <= j < |t|
      ensures t[j].subject != s
    {
      LessIrreflexive(s);
    }
  }

  /** `database[s].push_back(q)`: append to the list filed under `s`, or
      file a new one-question list at its place in key order. */
  function PushBack(t: Table, s: string, q: QuizQuestion): Table
  {
    if |t| == 0 then [Slot(s, [q])]
    else if t[0].subject == s then [Slot(s, t[0].questions + [q])] + t[1..]
    else if Less(s, t[0].subject) then [Slot(s, [q])] + t
    else [t[0]] + PushBack(t[1..], s, q)
  }

  /** The push adds `s` to the keys and nothing else. */
  lemma {:induction false} PushBackKeys(t: Table, s: string, q: QuizQuestion)
    ensures Keys(PushBack(t, s, q)) == Keys(t) + {s}
  {
    if |t| > 0 {
      assert t == [t[0]] + t[1..];
      KeysCons(t[0], t[1..]);
      if t[0].subject == s {
        assert PushBack(t, s, q) == [Slot(s, t[0].questions + [q])] + t[1..];
        KeysCons(Slot(s, t[0].questions + [q]), t[1..]);
      } else if Less(s, t[0].subject) {
        assert PushBack(t, s, q) == [Slot(s, [q])] + t;
        KeysCons(Slot(s, [q]), t);
      } else {
        assert PushBack(t, s, q) == [t[0]] + PushBack(t[1..], s, q);
        PushBackKeys(t[1..], s, q);
        KeysCons(t[0], PushBack(t[1..], s, q));
      }
    } else {
      assert PushBack(t, s, q)[0].subject == s;
    }
  }

  /** On an ordered table the push appends `q` to the list under `s` and
      leaves every other subject's list as it was. */
  lemma {:induction false} PushBackLookup(t: Table, s: string, q: QuizQuestion)
    requires Ordered(t)
    ensures Lookup(PushBack(t, s, q), s) == Lookup(t, s) + [q]
    ensures forall k :: k != s ==> Lookup(PushBack(t, s, q), k) == Lookup(t, k)
  {
    if |t| > 0 && t[0].subject != s {
      var r := PushBack(t, s, q);
      if Less(s, t[0].subject) {
        BelowAll(t, s);
        LookupAbsent(t, s);
        assert r[1..] == t;
      } else {
        var rest := PushBack(t[1..], s, q);
        assert r[1..] == rest;
        OrderedTail(t);
        PushBackLookup(t[1..], s, q);
      }
    }
  }

  lemma OrderedTail(t: Table)
    requires Ordered(t) && |t| > 0
    ensures Ordered(t[1..])
  {
  }

  /** A slot whose key is below every key of an ordered table can be put
      in front of it. */
  lemma OrderedCons(x: Slot, u: Table)
    requires Ordered(u)
    requires forall k :: k in Keys(u) ==> Less(x.subject, k)
    ensures Ordered([x] + u)
  {
  }

  /** The push keeps the keys in strictly increasing order. */
  lemma {:induction false} PushBackOrdered(t: Table, s: string, q: QuizQuestion)
    requires Ordered(t)
    ensures Ordered(PushBack(t, s, q))
  {
    if |t| == 0 {
    } else if t[0].subject == s {
      OrderedTail(t);
      forall k | k in Keys(t[1..])
        ensures Less(s, k)
      {
        var i :| 0 <= i < |t[1..]| && t[1..][i].subject == k;
        assert t[1..][i] == t[i + 1];
      }
      OrderedCons(Slot(s, t[0].questions + [q]), t[1..]);
    } else if Less(s, t[0].subject) {
      BelowAll(t, s);
      forall k | k in Keys(t)
        ensures Less(s, k)
      {
      }
      OrderedCons(Slot(s, [q]), t);
    } else {
      LessTotal(s, t[0].subject);
      OrderedTail(t);
      PushBackOrdered(t[1..], s, q);
      PushBackKeys(t[1..], s, q);
      var rest := PushBack(t[1..], s, q);
      forall k | k in Keys(rest)
        ensures Less(t[0].subject, k)
      {
        if k != s {
          var i :| 0 <= i < |t[1..]| && t[1..][i].subject == k;
          assert t[1..][i] == t[i + 1];
        }
      }
      OrderedCons(t[0], rest);
    }
  }

  /** The push keeps every list non-empty and, for a four-option question,
      every question at four options. */
  lemma {:induction false} PushBackLists(t: Table, s: string, q: QuizQuestion)
    requires NonEmptyLists(t) && FourOptions(t) && |q.options| == 4
    ensures NonEmptyLists(PushBack(t, s, q)) && FourOptions(PushBack(t, s, q))
  {
    var r := PushBack(t, s, q);
    if |t| == 0 {
    } else if t[0].subject == s {
      assert forall i :: 0 < i < |r| ==> r[i] == t[i];
      var qs := t[0].questions + [q];
      assert forall k :: 0 <= k < |qs| ==> qs[k] == q || qs[k] == t[0].questions[k];
    } else if Less(s, t[0].subject) {
      assert forall i :: 0 < i < |r| ==> r[i] == t[i - 1];
    } else {
      var tl := t[1..];
      assert forall i :: 0 <= i < |tl| ==> tl[i] == t[i + 1];
      PushBackLists(tl, s, q);
      var rest := PushBack(tl, s, q);
      assert forall i :: 0 < i < |r| ==> r[i] == rest[i - 1];
    }
  }

  /** Pushing a four-option question keeps a table valid. */
  lemma PushBackValid(t: Table, s: string, q: QuizQuestion)
    requires Valid(t) && |q.options| == 4
    ensures Valid(PushBack(t, s, q))
  {
    PushBackOrdered(t, s, q);
    PushBackLists(t, s, q);
  }

  /** The row a line contributes, if it is accepted. */
  function Parsed(line: string): seq<Row> {
    match ParseLine(line)
    case Some(row) => [row]
    case None => []
  }

  /** The accepted rows of a file, in file order. */
  function Accepted(lines: seq<string>): seq<Row> {
    if |lines| == 0 then [] else Accepted(lines[..|lines| - 1]) + Parsed(lines[|lines| - 1])
  }

  /** The questions of the rows filed under `s`, in order. */
  function QuestionsFor(rows: seq<Row>, s: string): seq<QuizQuestion> {
    if |rows| == 0 then []
    else
      var last := rows[|rows| - 1];
      QuestionsFor(rows[..|rows| - 1], s) + (if last.subject == s then [last.item] else [])
  }

  function Subjects(rows: seq<Row>): set<string> {
    set i | 0 <= i < |rows| :: rows[i].subject
  }

  lemma SubjectsSnoc(rows: seq<Row>, row: Row)
    ensures Subjects(rows + [row]) == Subjects(rows) + {row.subject}
  {
    var u := rows + [row];
    forall k | k in Subjects(u)
      ensures k in Subjects(rows) + {row.subject}
    {
      var i :| 0 <= i < |u| && u[i].subject == k;
      if i < |rows| {
        assert u[i] == rows[i];
      }
    }
    forall k | k in Subjects(rows) + {row.subject}
      ensures k in Subjects(u)
    {
      if k == row.subject {
        assert u[|rows|].subject == k;
      } else {
        var i :| 0 <= i < |rows| && rows[i].subject == k;
        assert u[i] == rows[i];
      }
    }
  }

  /** One turn of the load loop: a skipped line changes nothing. */
  function AddLine(db: Table, line: string): Table
  {
    match ParseLine(line)
    case Some(row) => PushBack(db, row.subject, row.item)
    case None => db
  }

  /** A table that holds exactly the rows `before` still does after the
      next line is added, with that line's row (if any) appended. */
  lemma AddLineKeeps(db: Table, before: seq<Row>, line: string)
    requires Valid(db)
    requires Keys(db) == Subjects(before)
    requires forall s :: Lookup(db, s) == QuestionsFor(before, s)
    ensures Valid(AddLine(db, line))
    ensures Keys(AddLine(db, line)) == Subjects(before + Parsed(line))
    ensures forall s :: Lookup(AddLine(db, line), s) == QuestionsFor(before + Parsed(line), s)
  {
    match ParseLine(line) {
      case Some(row) =>
        PushBackValid(db, row.subject, row.item);
        PushBackKeys(db, row.subject, row.item);
        PushBackLookup(db, row.subject, row.item);
        var after := before + [row];
        assert after[..|after| - 1] == before;
        SubjectsSnoc(before, row);
      case None =>
        assert before + [] == before;
    }
  }

  /** The load loop over the lines of the file. Every subject with an
      accepted row gets exactly its questions, in file order, and no other
      subject appears; so every list in the table is non-empty. */
  method LoadDatabase(lines: seq<string>) returns (db: Table)
    ensures Valid(db)
    ensures Keys(db) == Subjects(Accepted(lines))
    ensures forall s :: Lookup(db, s) == QuestionsFor(Accepted(lines), s)
    ensures forall s :: s in Keys(db) ==> |Lookup(db, s)| > 0
  {
    db := [];
    var i := 0;
    while i < |lines|
      invariant 0 <= i <= |lines|
      invariant Valid(db)
      invariant Keys(db) == Subjects(Accepted(lines[..i]))
      invariant forall s :: Lookup(db, s) == QuestionsFor(Accepted(lines[..i]), s)
    {
      assert lines[..i + 1][..i] == lines[..i];
      assert Accepted(lines[..i + 1]) == Accepted(lines[..i]) + Parsed(lines[i]);
      AddLineKeeps(db, Accepted(lines[..i]), lines[i]);
      db := AddLine(db, lines[i]);
      i := i + 1;
    }
    assert lines[..|lines|] == lines;
    forall s | s in Keys(db)
      ensures |Lookup(db, s)| > 0
    {
      var j :| 0 <= j < |db| && db[j].subject == s;
      LookupSlot(db, j);
    }
  }
}
