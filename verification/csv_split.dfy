/** Splitting one line of the question file into fields with repeated
    `std::getline(ss, segment, ',')` (main.cpp:40-46). Each call takes the
    characters up to the next comma and consumes the comma; a call that finds
    the stream already exhausted fails and ends the loop. So empty fields in
    the middle are kept, an empty field after a final comma is not produced,
    and an empty line has no fields at all. */
module CsvSplit {

  predicate NoComma(f: string) {
    forall i :: 0 <= i < |f| ==> f[i] != ','
  }

  /** Index of the first comma, or the length when there is none. */
  function CommaAt(s: string): (i: nat)
    ensures i <= |s|
    ensures NoComma(s[..i])
    ensures i < |s| ==> s[i] == ','
  {
    if |s| == 0 || s[0] == ',' then 0 else 1 + CommaAt(s[1..])
  }

  /** The fields separated by single commas. */
  function Join(fs: seq<string>): string {
    if |fs| == 0 then ""
    else if |fs| == 1 then fs[0]
    else fs[0] + "," + Join(fs[1..])
  }

  predicate EndsWithComma(s: string) {
    |s| > 0 && s[|s| - 1] == ','
  }

  /** The `getline` loop: comma-free fields, none at all exactly when the
      line is empty. */
  function Fields(s: string): (fs: seq<string>)
    ensures forall k :: 0 <= k < |fs| ==> NoComma(fs[k])
    ensures |fs| == 0 <==> |s| == 0
    decreases |s|
  {
    if |s| == 0 then []
    else
      var i := CommaAt(s);
      [s[..i]] + Fields(if i < |s| then s[i + 1..] else [])
  }

  /** Joining the fields back with commas gives the line, less its final
      comma when it has one. Together with the contract of `Fields` this
      pins the fields down completely. */
  lemma {:induction false} FieldsRejoin(s: string)
    ensures Join(Fields(s)) + (if EndsWithComma(s) then "," else "") == s
    decreases |s|
  {
    if |s| > 0 {
      var i := CommaAt(s);
      var a := s[..i];
      if i == |s| {
        assert a == s;
      } else {
        var rest := s[i + 1..];
        assert s == a + "," + rest;
        if |rest| == 0 {
          assert Fields(s) == [a];
        } else {
          FieldsRejoin(rest);
          var f := Fields(rest);
          assert Fields(s) == [a] + f;
          assert ([a] + f)[1..] == f;
          assert Join([a] + f) == a + "," + Join(f);
          assert EndsWithComma(s) == EndsWithComma(rest);
        }
      }
    }
  }

  /** Splitting a joined line that ends in a comma gives back every field,
      including empty ones. */
  lemma {:induction false} SplitJoinWithComma(fs: seq<string>)
    requires |fs| > 0
    requires forall k :: 0 <= k < |fs| ==> NoComma(fs[k])
    ensures Fields(Join(fs) + ",") == fs
    decreases |fs|
  {
    var s := Join(fs) + ",";
    CommaAfterField(fs[0], if |fs| == 1 then "" else Join(fs[1..]) + ",");
    if |fs| == 1 {
      assert s == fs[0] + ",";
      assert s[|fs[0]| + 1..] == [];
    } else {
      assert s == fs[0] + "," + (Join(fs[1..]) + ",");
      assert s[|fs[0]| + 1..] == Join(fs[1..]) + ",";
      SplitJoinWithComma(fs[1..]);
    }
  }

  /** Splitting a joined line whose last field is not empty gives back every
      field. */
  lemma {:induction false} SplitJoin(fs: seq<string>)
    requires |fs| > 0 && |fs[|fs| - 1]| > 0
    requires forall k :: 0 <= k < |fs| ==> NoComma(fs[k])
    ensures Fields(Join(fs)) == fs
    decreases |fs|
  {
    var s := Join(fs);
    if |fs| == 1 {
      assert CommaAt(s) == |s|;
      assert s[..|s|] == s;
      assert Fields(s) == [s] + Fields([]);
    } else {
      CommaAfterField(fs[0], Join(fs[1..]));
      assert s == fs[0] + "," + Join(fs[1..]);
      assert s[|fs[0]| + 1..] == Join(fs[1..]);
      SplitJoin(fs[1..]);
    }
  }

  lemma CommaAfterField(f: string, rest: string)
    requires NoComma(f)
    ensures CommaAt(f + "," + rest) == |f|
    ensures (f + "," + rest)[..|f|] == f
  {
    var s := f + "," + rest;
    assert forall j :: 0 <= j < |f| ==> s[j] == f[j] && s[..CommaAt(s)][j] == s[j];
    assert s[|f|] == ',';
  }
}
