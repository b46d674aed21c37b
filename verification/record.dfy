/** The student record as a value: the plain object toJSON produces and
    fromJSON reads, and the value-level meaning of every operation that
    builds or changes a record (constructor, setters, addGrade, the patch
    applied by updateStudent). The Student class is proved against these. */
module Record {
  import opened Results
  import opened Text
  import opened Grades

  /** { id, name, className, grades }, as toJSON returns it. */
  datatype StudentData = StudentData(id: string, name: string, className: string, grades: map<string, real>)

  /** What a constructed Student always satisfies: a non-blank id, a non-blank
      trimmed name and class name, and a grade table of valid scores with no
      ProtoKey entry. */
  predicate WellFormed(d: StudentData)
  {
    IsNonEmptyString(d.id) && IsStoredText(d.name) && IsStoredText(d.className) && Storable(d.grades)
  }

  /** new Student({ id, name, className, grades }): id, name and class name are
      checked in that order; on success name and class name are trimmed, the id
      is kept as given and the initial grades keep only their valid entries
      (an entry under ProtoKey is lost to the prototype setter). */
  function Construct(id: string, name: string, className: string, grades: map<string, real>): (r: Result<StudentData, Error>)
    ensures r.Success? <==> IsNonEmptyString(id) && IsNonEmptyString(name) && IsNonEmptyString(className)
    ensures r.Failure? ==> r.error == (if !IsNonEmptyString(id) then InvalidId
                                       else if !IsNonEmptyString(name) then BlankName
                                       else BlankClassName)
    ensures r.Success? ==> WellFormed(r.value)
    ensures r.Success? ==> r.value.id == id && r.value.name == Trim(name) && r.value.className == Trim(className)
    ensures r.Success? ==> forall k :: k in r.value.grades <==> k in grades && k != ProtoKey && IsValidScore(grades[k])
    ensures r.Success? ==> forall k :: k in r.value.grades ==> r.value.grades[k] == grades[k]
  {
    if !IsNonEmptyString(id) then Failure(InvalidId)
    else if !IsNonEmptyString(name) then Failure(BlankName)
    else if !IsNonEmptyString(className) then Failure(BlankClassName)
    else
      TrimmedIsStored(name);
      TrimmedIsStored(className);
      Success(StudentData(id, Trim(name), Trim(className), KeepValid(grades)))
  }

  /** Student.fromJSON: the constructor applied to the record's fields. Every
      well-formed record, which is every toJSON result, decodes to itself. */
  function Decode(obj: StudentData): (r: Result<StudentData, Error>)
    ensures WellFormed(obj) ==> r == Success(obj)
    ensures r.Success? ==> WellFormed(r.value)
  {
    assert WellFormed(obj) ==> Construct(obj.id, obj.name, obj.className, obj.grades) == Success(obj) by {
      if WellFormed(obj) {
        TrimOfTrimmed(obj.name);
        TrimOfTrimmed(obj.className);
        KeepValidOfValid(obj.grades);
      }
    }
    Construct(obj.id, obj.name, obj.className, obj.grades)
  }

  /** The name setter: a blank name is refused, otherwise it is stored trimmed. */
  function WithName(d: StudentData, nm: string): (r: Result<StudentData, Error>)
    ensures r.Success? <==> IsNonEmptyString(nm)
    ensures r.Failure? ==> r.error == BlankName
    ensures r.Success? ==> r.value == d.(name := Trim(nm))
    ensures r.Success? && WellFormed(d) ==> WellFormed(r.value)
  {
    if !IsNonEmptyString(nm) then Failure(BlankName)
    else
      TrimmedIsStored(nm);
      Success(d.(name := Trim(nm)))
  }

  /** The className setter: a blank class name is refused, otherwise it is stored trimmed. */
  function WithClassName(d: StudentData, cls: string): (r: Result<StudentData, Error>)
    ensures r.Success? <==> IsNonEmptyString(cls)
    ensures r.Failure? ==> r.error == BlankClassName
    ensures r.Success? ==> r.value == d.(className := Trim(cls))
    ensures r.Success? && WellFormed(d) ==> WellFormed(r.value)
  {
    if !IsNonEmptyString(cls) then Failure(BlankClassName)
    else
      TrimmedIsStored(cls);
      Success(d.(className := Trim(cls)))
  }

  /** addGrade: the subject is checked first, then the score; on success the
      trimmed subject is inserted or overwritten and no other key changes. A
      trimmed subject equal to ProtoKey passes both checks and stores nothing. */
  function WithGrade(d: StudentData, subject: string, score: real): (r: Result<StudentData, Error>)
    ensures r.Success? <==> IsNonEmptyString(subject) && IsValidScore(score)
    ensures r.Failure? ==> r.error == (if !IsNonEmptyString(subject) then BlankSubject else InvalidScore)
    ensures r.Success? ==> r.value.id == d.id && r.value.name == d.name && r.value.className == d.className
    ensures r.Success? && Trim(subject) == ProtoKey ==> r.value == d
    ensures r.Success? && Trim(subject) != ProtoKey ==> r.value.grades.Keys == d.grades.Keys + {Trim(subject)}
    ensures r.Success? && Trim(subject) != ProtoKey ==> r.value.grades[Trim(subject)] == score
    ensures r.Success? ==> forall k :: k in d.grades && k != Trim(subject) ==> r.value.grades[k] == d.grades[k]
    ensures r.Success? && WellFormed(d) ==> WellFormed(r.value)
  {
    if !IsNonEmptyString(subject) then Failure(BlankSubject)
    else if !IsValidScore(score) then Failure(InvalidScore)
    else if Trim(subject) == ProtoKey then Success(d)
    else Success(d.(grades := d.grades[Trim(subject) := score]))
  }

  /** The "__proto__" subject is accepted but never stored, by addGrade or by
      the constructor, so it never reaches getAverage. */
  lemma ProtoKeyNeverStored(d: StudentData)
    ensures WithGrade(d, "__proto__", 80.0) == Success(d)
    ensures Construct("1", "Budi", "XA", map["__proto__" := 80.0]) == Success(StudentData("1", "Budi", "XA", map[]))
  {
    TrimOfTrimmed("__proto__");
    TrimOfTrimmed("Budi");
    TrimOfTrimmed("XA");
    assert !IsWhitespace("1"[0]) && !IsWhitespace("Budi"[0]) && !IsWhitespace("XA"[0]) && !IsWhitespace("__proto__"[0]);
    assert KeepValid(map["__proto__" := 80.0]) == map[];
  }

  /** The data argument of updateStudent. An absent name or class name is None;
      the grades are the patch's entries in iteration order. */
  datatype Patch = Patch(name: Option<string>, className: Option<string>, grades: seq<(string, real)>)

  /** A record after an update that may have stopped part-way, and how it ended. */
  datatype Applied = Applied(data: StudentData, outcome: Outcome<Error>)

  /** One entry of the patch's grade loop: an invalid score is skipped silently,
      a valid one goes through addGrade, which may refuse a blank subject. */
  function GradeStep(d: StudentData, e: (string, real)): (a: Applied)
    ensures a.outcome.Pass? <==> !IsValidScore(e.1) || IsNonEmptyString(e.0)
    ensures a.outcome.Fail? ==> a.data == d && a.outcome.error == BlankSubject
    ensures !IsValidScore(e.1) ==> a.data == d
    ensures IsValidScore(e.1) && IsNonEmptyString(e.0) ==> WithGrade(d, e.0, e.1) == Success(a.data)
    ensures WellFormed(d) ==> WellFormed(a.data)
  {
    if !IsValidScore(e.1) then Applied(d, Pass)
    else
      match WithGrade(d, e.0, e.1)
      case Success(d') => Applied(d', Pass)
      case Failure(err) => Applied(d, Fail(err))
  }

  /** The grade loop of updateStudent: entries in order until addGrade throws.
      It never touches id, name or class name, keeps a well-formed record
      well-formed, and fails exactly when some valid-scored entry has a blank subject. */
  function MergeGrades(d: StudentData, es: seq<(string, real)>): (a: Applied)
    ensures a.data.id == d.id && a.data.name == d.name && a.data.className == d.className
    ensures WellFormed(d) ==> WellFormed(a.data)
    ensures d.grades.Keys <= a.data.grades.Keys
    ensures a.outcome.Pass? <==> forall k :: 0 <= k < |es| && IsValidScore(es[k].1) ==> IsNonEmptyString(es[k].0)
    ensures a.outcome.Fail? ==> a.outcome.error == BlankSubject
  {
    if es == [] then Applied(d, Pass)
    else
      var prev := MergeGrades(d, es[..|es| - 1]);
      if prev.outcome.Fail? then prev else GradeStep(prev.data, es[|es| - 1])
  }

  /** The score the last valid-scored entry for a (trimmed) subject carries, if
      any; none for ProtoKey, under which nothing is stored. */
  function LatestScore(es: seq<(string, real)>, subject: string): (r: Option<real>)
    ensures r.Some? ==> IsValidScore(r.value)
  {
    if es == [] || subject == ProtoKey then None
    else
      var e := es[|es| - 1];
      if IsValidScore(e.1) && Trim(e.0) == subject then Some(e.1) else LatestScore(es[..|es| - 1], subject)
  }

  /** A grade loop that completes leaves each subject with the score of its last
      valid entry, or with its old score when the patch has none for it. */
  lemma {:induction false} MergeGradesResult(d: StudentData, es: seq<(string, real)>)
    requires MergeGrades(d, es).outcome.Pass?
    ensures var g := MergeGrades(d, es).data.grades;
      forall s :: (s in g <==> s in d.grades || LatestScore(es, s).Some?)
        && (s in g ==> g[s] == if LatestScore(es, s).Some? then LatestScore(es, s).value else d.grades[s])
  {
    if es != [] {
      var init := es[..|es| - 1];
      MergeGradesResult(d, init);
    }
  }

  /** Once the grade loop has thrown, later entries are never looked at. */
  lemma {:induction false} MergeGradesStops(d: StudentData, es: seq<(string, real)>, k: nat)
    requires k <= |es| && MergeGrades(d, es[..k]).outcome.Fail?
    ensures MergeGrades(d, es) == MergeGrades(d, es[..k])
  {
    if k < |es| {
      MergeGradesStops(d, es[..|es| - 1], k);
      assert es[..|es| - 1][..k] == es[..k];
    } else {
      assert es[..k] == es;
    }
  }

  /** Entries whose scores are all invalid change nothing. */
  lemma {:induction false} InvalidScoresIgnored(d: StudentData, es: seq<(string, real)>)
    requires forall k :: 0 <= k < |es| ==> !IsValidScore(es[k].1)
    ensures MergeGrades(d, es) == Applied(d, Pass)
  {
    if es != [] {
      InvalidScoresIgnored(d, es[..|es| - 1]);
    }
  }

  /** updateStudent after the lookup: the name if given, then the class name if
      given, then the grade loop, stopping at the first throw with everything
      before it already applied. */
  function ApplyPatch(d: StudentData, p: Patch): (a: Applied)
    ensures a.data.id == d.id
    ensures WellFormed(d) ==> WellFormed(a.data)
    ensures a.outcome.Pass? <==>
      && (p.name.Some? ==> IsNonEmptyString(p.name.value))
      && (p.className.Some? ==> IsNonEmptyString(p.className.value))
      && (forall k :: 0 <= k < |p.grades| && IsValidScore(p.grades[k].1) ==> IsNonEmptyString(p.grades[k].0))
    ensures a.outcome.Fail? ==> (a.outcome.error ==
      if p.name.Some? && !IsNonEmptyString(p.name.value) then BlankName
      else if p.className.Some? && !IsNonEmptyString(p.className.value) then BlankClassName
      else BlankSubject)
    ensures p.name.Some? && IsNonEmptyString(p.name.value) ==> a.data.name == Trim(p.name.value)
    ensures p.name.None? || !IsNonEmptyString(p.name.value) ==> a.data.name == d.name
    ensures (p.name.None? || IsNonEmptyString(p.name.value)) && p.className.Some? && IsNonEmptyString(p.className.value)
      ==> a.data.className == Trim(p.className.value)
    ensures p.className.None? || (p.name.Some? && !IsNonEmptyString(p.name.value)) || !IsNonEmptyString(p.className.value)
      ==> a.data.className == d.className
    ensures (p.name.Some? && !IsNonEmptyString(p.name.value)) || (p.className.Some? && !IsNonEmptyString(p.className.value))
      ==> a.data.grades == d.grades
    ensures a.outcome.Pass? ==> var g := a.data.grades;
      forall s :: (s in g <==> s in d.grades || LatestScore(p.grades, s).Some?)
        && (s in g ==> g[s] == if LatestScore(p.grades, s).Some? then LatestScore(p.grades, s).value else d.grades[s])
  {
    var named := if p.name.Some? then WithName(d, p.name.value) else Success(d);
    if named.Failure? then Applied(d, Fail(named.error))
    else
      var classed := if p.className.Some? then WithClassName(named.value, p.className.value) else Success(named.value);
      if classed.Failure? then Applied(named.value, Fail(classed.error))
      else
        var c := classed.value;
        assert MergeGrades(c, p.grades).outcome.Pass? ==> var g := MergeGrades(c, p.grades).data.grades;
          forall s :: (s in g <==> s in c.grades || LatestScore(p.grades, s).Some?)
            && (s in g ==> g[s] == if LatestScore(p.grades, s).Some? then LatestScore(p.grades, s).value else c.grades[s])
        by {
          if MergeGrades(c, p.grades).outcome.Pass? {
            MergeGradesResult(c, p.grades);
          }
        }
        MergeGrades(c, p.grades)
  }

  /** A score out of range is skipped while the rest of the patch still applies:
      renaming with { Math: 150 } renames and leaves Math as it was. */
  lemma OutOfRangeSkipped(d: StudentData)
    ensures ApplyPatch(d, Patch(Some("Budi"), None, [("Math", 150.0)])) == Applied(d.(name := "Budi"), Pass)
  {
    TrimOfTrimmed("Budi");
    assert WithName(d, "Budi") == Success(d.(name := "Budi"));
    InvalidScoresIgnored(d.(name := "Budi"), [("Math", 150.0)]);
  }

  /** As written, a blank subject with a valid score throws after the name has
      already been changed: the update is applied in part. */
  lemma BlankSubjectAfterRename(d: StudentData)
    ensures ApplyPatch(d, Patch(Some("Budi"), None, [(" ", 80.0)])) == Applied(d.(name := "Budi"), Fail(BlankSubject))
  {
    TrimOfTrimmed("Budi");
    TrimEmptyIffBlank(" ");
    assert WithName(d, "Budi") == Success(d.(name := "Budi"));
    var es := [(" ", 80.0)];
    var renamed := d.(name := "Budi");
    assert !IsNonEmptyString(" ");
    assert es[..0] == [];
    assert MergeGrades(renamed, es[..0]) == Applied(renamed, Pass);
    assert GradeStep(renamed, es[0]) == Applied(renamed, Fail(BlankSubject));
  }
}
