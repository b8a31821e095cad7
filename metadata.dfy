/** The metadata aggregator of the generator: the stored difficulty, JLPT level
    and politeness level of a generated sentence, from the caller's values and the
    resolved vocabulary rows. A caller's value is used when it is truthy (non-empty). */
module Metadata {
  import opened Wrappers
  import opened Store

  /** `rows.some((x) => x.row.difficulty === level)`. */
  function AnyDifficulty(rows: seq<Vocabulary>, level: string): (b: bool)
    ensures b <==> exists i :: 0 <= i < |rows| && rows[i].difficulty == level
  {
    if rows == [] then false
    else rows[0].difficulty == level || AnyDifficulty(rows[1..], level)
  }

  /** The difficulty written for the sentence: the caller's, else the highest of
      Advanced, Intermediate, Beginner that some row has, else null. */
  function SentenceDifficulty(requested: string, rows: seq<Vocabulary>): (r: Option<string>)
    ensures requested != "" ==> r == Some(requested)
    ensures requested == "" ==>
      && (r == Some("Advanced") <==> exists i :: 0 <= i < |rows| && rows[i].difficulty == "Advanced")
      && (r == Some("Intermediate") <==>
            (forall i :: 0 <= i < |rows| ==> rows[i].difficulty != "Advanced")
            && exists i :: 0 <= i < |rows| && rows[i].difficulty == "Intermediate")
      && (r == Some("Beginner") <==>
            (forall i :: 0 <= i < |rows| ==> rows[i].difficulty != "Advanced" && rows[i].difficulty != "Intermediate")
            && exists i :: 0 <= i < |rows| && rows[i].difficulty == "Beginner")
      && (r == None <==> forall i :: 0 <= i < |rows| ==> rows[i].difficulty !in {"Advanced", "Intermediate", "Beginner"})
  {
    if requested != "" then Some(requested)
    else if AnyDifficulty(rows, "Advanced") then Some("Advanced")
    else if AnyDifficulty(rows, "Intermediate") then Some("Intermediate")
    else if AnyDifficulty(rows, "Beginner") then Some("Beginner")
    else None
  }

  /** The rank of a known difficulty level; 0 for anything else. */
  function Rank(level: string): nat {
    if level == "Beginner" then 1 else if level == "Intermediate" then 2 else if level == "Advanced" then 3 else 0
  }

  /** The priority scan is a maximum: the derived difficulty ranks at least as high
      as every row's, and some row has it. */
  lemma DerivedDifficultyIsMaximum(rows: seq<Vocabulary>)
    ensures match SentenceDifficulty("", rows)
      case None => forall i :: 0 <= i < |rows| ==> Rank(rows[i].difficulty) == 0
      case Some(level) =>
        && (exists i :: 0 <= i < |rows| && rows[i].difficulty == level)
        && forall i :: 0 <= i < |rows| ==> Rank(rows[i].difficulty) <= Rank(level)
  {
  }

  /** The derived difficulty depends only on which rows there are, not on their order. */
  lemma DifficultyIgnoresOrder(rows: seq<Vocabulary>, other: seq<Vocabulary>)
    requires multiset(rows) == multiset(other)
    ensures SentenceDifficulty("", rows) == SentenceDifficulty("", other)
  {
    forall level ensures AnyDifficulty(rows, level) == AnyDifficulty(other, level) {
      if AnyDifficulty(rows, level) {
        var i :| 0 <= i < |rows| && rows[i].difficulty == level;
        assert rows[i] in multiset(other);
      }
      if AnyDifficulty(other, level) {
        var i :| 0 <= i < |other| && other[i].difficulty == level;
        assert other[i] in multiset(rows);
      }
    }
  }

  /** `values.reduce((acc, x) => acc || x, acc)`, "" standing for every falsy value:
      the accumulator if it is truthy, else the first truthy value, else "". */
  function OrReduce(acc: string, values: seq<string>): (r: string)
    ensures acc != "" ==> r == acc
    ensures acc == "" ==> (r == "" <==> forall i :: 0 <= i < |values| ==> values[i] == "")
    ensures acc == "" && r != "" ==>
      exists i :: 0 <= i < |values| && values[i] == r && forall j :: 0 <= j < i ==> values[j] == ""
    decreases |values|
  {
    if values == [] then acc
    else
      var r := OrReduce(if acc != "" then acc else values[0], values[1..]);
      assert acc == "" && values[0] == "" && r != "" ==>
        exists i :: 0 <= i < |values| && values[i] == r && forall j :: 0 <= j < i ==> values[j] == "" by {
        if acc == "" && values[0] == "" && r != "" {
          var k :| 0 <= k < |values[1..]| && values[1..][k] == r && forall j :: 0 <= j < k ==> values[1..][j] == "";
          assert values[k + 1] == r;
          assert forall j :: 0 <= j < k + 1 ==> values[j] == "" by {
            forall j | 0 <= j < k + 1 ensures values[j] == "" {
              if j > 0 { assert values[j] == values[1..][j - 1]; }
            }
          }
        }
      }
      r
  }

  /** JLPT level and politeness: the caller's value, else the first truthy value in
      slot order (`reduce(...) || null`), else null. */
  function FirstTruthy(requested: string, values: seq<string>): (r: Option<string>)
    ensures requested != "" ==> r == Some(requested)
    ensures requested == "" ==> (r == None <==> forall i :: 0 <= i < |values| ==> values[i] == "")
    ensures requested == "" && r.Some? ==>
      exists i :: 0 <= i < |values| && values[i] == r.value && r.value != ""
                  && forall j :: 0 <= j < i ==> values[j] == ""
  {
    if requested != "" then Some(requested)
    else
      var x := OrReduce("", values);
      if x != "" then Some(x) else None
  }

  /** Unlike the difficulty, the first-truthy choice does depend on slot order. */
  lemma FirstTruthyDependsOnOrder()
    ensures FirstTruthy("", ["N5", "N3"]) == Some("N5")
    ensures FirstTruthy("", ["N3", "N5"]) == Some("N3")
  {
    assert OrReduce("", ["N5", "N3"]) == OrReduce("N5", ["N3"]);
    assert OrReduce("", ["N3", "N5"]) == OrReduce("N3", ["N5"]);
  }

  function JlptLevels(rows: seq<Vocabulary>): seq<string>
  {
    seq(|rows|, i requires 0 <= i < |rows| => rows[i].jlptLevel)
  }

  function PolitenessLevels(rows: seq<Vocabulary>): seq<string>
  {
    seq(|rows|, i requires 0 <= i < |rows| => rows[i].politenessLevel)
  }
}
