/** Scores and the metrics derived from them: isValidScore, the lenient
    filter the constructor applies to initial grades, getAverage and
    getGradeStatus. Scores are exact reals. */
module Grades {

  /** isValidScore: a finite number between 0 and 100, both ends included. */
  predicate IsValidScore(n: real)
  {
    0.0 <= n <= 100.0
  }

  /** Every stored score is valid. */
  predicate AllValid(g: map<string, real>)
  {
    forall k :: k in g ==> IsValidScore(g[k])
  }

  /** The one key a grade can never be stored under. The grade table is a plain
      object, so assigning to its "__proto__" key calls the prototype setter
      inherited from Object.prototype, which ignores a number: nothing is
      stored and nothing is thrown. */
  const ProtoKey: string := "__proto__"

  /** What a grade table can hold: valid scores, and never the ProtoKey entry. */
  predicate Storable(g: map<string, real>)
  {
    AllValid(g) && ProtoKey !in g
  }

  /** The entries of an initial grade map the constructor keeps: exactly those
      with a valid score, under their key as given (not trimmed), except an
      entry under ProtoKey, whose assignment has no effect. */
  function KeepValid(g: map<string, real>): (r: map<string, real>)
    ensures Storable(r)
    ensures forall k :: k in r <==> k in g && k != ProtoKey && IsValidScore(g[k])
    ensures forall k :: k in r ==> r[k] == g[k]
  {
    map k | k in g && k != ProtoKey && IsValidScore(g[k]) :: g[k]
  }

  /** A table that is already storable passes the filter unchanged. */
  lemma KeepValidOfValid(g: map<string, real>)
    requires Storable(g)
    ensures KeepValid(g) == g
  {
  }

  /** The sum of the stored scores (the reduce in getAverage). */
  ghost function Sum(g: map<string, real>): real
    decreases g.Keys
  {
    if g == map[] then 0.0
    else
      var k :| k in g;
      g[k] + Sum(g - {k})
  }

  /** The sum does not depend on which subject is taken first. */
  lemma {:induction false} SumRemove(g: map<string, real>, k: string)
    requires k in g
    ensures Sum(g) == g[k] + Sum(g - {k})
    decreases g.Keys
  {
    var j :| j in g && Sum(g) == g[j] + Sum(g - {j});
    if j != k {
      SumRemove(g - {j}, k);
      SumRemove(g - {k}, j);
      assert g - {j} - {k} == g - {k} - {j};
    }
  }

  /** With every score in [0, 100], the sum lies in [0, 100 * count]. */
  lemma {:induction false} SumBounds(g: map<string, real>)
    requires AllValid(g)
    ensures 0.0 <= Sum(g) <= 100.0 * (|g| as real)
    decreases g.Keys
  {
    if g != map[] {
      var k :| k in g;
      SumRemove(g, k);
      assert (g - {k}).Keys == g.Keys - {k};
      assert |g - {k}| == |g| - 1;
      SumBounds(g - {k});
    }
  }

  /** getAverage: 0 for no grades, else the arithmetic mean; with valid scores
      it lies in [0, 100]. */
  ghost function Mean(g: map<string, real>): (avg: real)
    ensures g == map[] ==> avg == 0.0
    ensures AllValid(g) ==> 0.0 <= avg <= 100.0
  {
    if |g| == 0 then 0.0
    else
      var n := |g| as real;
      assert AllValid(g) ==> 0.0 <= Sum(g) / n <= 100.0 by {
        if AllValid(g) { SumBounds(g); }
      }
      Sum(g) / n
  }

  /** The threshold of getGradeStatus. */
  const PassMark: real := 75.0

  /** getGradeStatus: "Lulus" (passed) from an average of 75 upwards, else "Tidak Lulus". */
  function Status(avg: real): (s: string)
    ensures s == "Lulus" <==> avg >= PassMark
    ensures s == "Lulus" || s == "Tidak Lulus"
  {
    if avg >= PassMark then "Lulus" else "Tidak Lulus"
  }

  /** Grades {90, 60} average exactly 75, which passes: the threshold is inclusive. */
  lemma BoundaryAverage()
    ensures Mean(map["Matematika" := 90.0, "Fisika" := 60.0]) == 75.0
    ensures Status(Mean(map["Matematika" := 90.0, "Fisika" := 60.0])) == "Lulus"
  {
    var g := map["Matematika" := 90.0, "Fisika" := 60.0];
    var rest := map["Fisika" := 60.0];
    assert "Matematika" != "Fisika" by { assert "Matematika"[0] != "Fisika"[0]; }
    SumRemove(g, "Matematika");
    assert g - {"Matematika"} == rest;
    SumRemove(rest, "Fisika");
    assert rest - {"Fisika"} == map[];
    assert |g| == 2;
  }
}
