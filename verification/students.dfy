/** The Student class: a record whose name, class name and grades are
    changed in place by its setters and addGrade, and which keeps the
    well-formedness of Record.WellFormed through every change. */
module Students {
  import opened Results
  import opened Text
  import opened Grades
  import opened Record

  class Student {
    const id: string
    var name: string
    var className: string
    var grades: map<string, real>

    /** toJSON: the plain record of the four fields (the grade map is a value, so a copy). */
    function ToJson(): StudentData
      reads this
    {
      StudentData(id, name, className, grades)
    }

    /** The object invariant: the fields form a well-formed record. */
    ghost predicate Valid()
      reads this
    {
      WellFormed(ToJson())
    }

    /** The body of the source's constructor once its three checks have passed:
        name and class name trimmed, then the initial grades filtered entry by entry. */
    constructor (id: string, name: string, className: string, initial: map<string, real>)
      requires IsNonEmptyString(id) && IsNonEmptyString(name) && IsNonEmptyString(className)
      ensures Valid()
      ensures Construct(id, name, className, initial) == Success(ToJson())
    {
      this.id := id;
      this.name := Trim(name);
      this.className := Trim(className);
      var kept: map<string, real> := map[];
      var rest := initial.Keys;
      while rest != {}
        invariant rest <= initial.Keys
        invariant kept == KeepValid(initial - rest)
        decreases rest
      {
        var sub :| sub in rest;
        if IsValidScore(initial[sub]) {
          // the prototype setter ignores a number: nothing is stored
          if sub != ProtoKey {
            kept := kept[sub := initial[sub]];
          }
        }
        rest := rest - {sub};
        assert initial - rest == (initial - (rest + {sub}))[sub := initial[sub]];
      }
      assert initial - rest == initial;
      this.grades := kept;
      TrimmedIsStored(name);
      TrimmedIsStored(className);
    }

    /** new Student({ id, name, className, grades }), throwing replaced by a Failure. */
    static method Create(id: string, name: string, className: string, initial: map<string, real>)
      returns (r: Result<Student, Error>)
      ensures r.Failure? ==> Construct(id, name, className, initial) == Failure(r.error)
      ensures r.Success? ==> fresh(r.value) && r.value.Valid()
      ensures r.Success? ==> Construct(id, name, className, initial) == Success(r.value.ToJson())
    {
      if !IsNonEmptyString(id) {
        return Failure(InvalidId);
      }
      if !IsNonEmptyString(name) {
        return Failure(BlankName);
      }
      if !IsNonEmptyString(className) {
        return Failure(BlankClassName);
      }
      var s := new Student(id, name, className, initial);
      return Success(s);
    }

    /** Student.fromJSON: a new Student built from a plain record. */
    static method FromJson(obj: StudentData) returns (r: Result<Student, Error>)
      ensures r.Failure? ==> Decode(obj) == Failure(r.error)
      ensures r.Success? ==> fresh(r.value) && r.value.Valid() && Decode(obj) == Success(r.value.ToJson())
    {
      r := Create(obj.id, obj.name, obj.className, obj.grades);
    }

    /** Student.fromJSON on a record that is already well-formed, as every record
        saveToFile writes is: the new student holds exactly that record. */
    static method Restore(d: StudentData) returns (s: Student)
      requires WellFormed(d)
      ensures fresh(s) && s.Valid() && s.ToJson() == d
    {
      assert !IsWhitespace(d.name[0]) && !IsWhitespace(d.className[0]);
      assert Decode(d) == Success(d);
      s := new Student(d.id, d.name, d.className, d.grades);
    }

    /** The name setter. */
    method SetName(nm: string) returns (r: Outcome<Error>)
      requires Valid()
      modifies this
      ensures Valid()
      ensures WithName(old(ToJson()), nm) == if r.Pass? then Success(ToJson()) else Failure(r.error)
      ensures r.Fail? ==> ToJson() == old(ToJson())
    {
      if !IsNonEmptyString(nm) {
        return Fail(BlankName);
      }
      TrimmedIsStored(nm);
      name := Trim(nm);
      r := Pass;
    }

    /** The className setter. */
    method SetClassName(cls: string) returns (r: Outcome<Error>)
      requires Valid()
      modifies this
      ensures Valid()
      ensures WithClassName(old(ToJson()), cls) == if r.Pass? then Success(ToJson()) else Failure(r.error)
      ensures r.Fail? ==> ToJson() == old(ToJson())
    {
      if !IsNonEmptyString(cls) {
        return Fail(BlankClassName);
      }
      TrimmedIsStored(cls);
      className := Trim(cls);
      r := Pass;
    }

    /** addGrade: insert or overwrite one subject's score. */
    method AddGrade(subject: string, score: real) returns (r: Outcome<Error>)
      requires Valid()
      modifies this
      ensures Valid()
      ensures WithGrade(old(ToJson()), subject, score) == if r.Pass? then Success(ToJson()) else Failure(r.error)
      ensures r.Fail? ==> ToJson() == old(ToJson())
    {
      if !IsNonEmptyString(subject) {
        return Fail(BlankSubject);
      }
      if !IsValidScore(score) {
        return Fail(InvalidScore);
      }
      if Trim(subject) != ProtoKey {
        grades := grades[Trim(subject) := score];
      }
      r := Pass;
    }

    /** The grade loop of updateStudent: addGrade for every entry with a valid
        score, in order, until one throws. */
    method MergeEntries(es: seq<(string, real)>) returns (r: Outcome<Error>)
      requires Valid()
      modifies this
      ensures Valid()
      ensures MergeGrades(old(ToJson()), es) == Applied(ToJson(), r)
    {
      ghost var start := ToJson();
      var k := 0;
      while k < |es|
        invariant 0 <= k <= |es|
        invariant Valid()
        invariant MergeGrades(start, es[..k]) == Applied(ToJson(), Pass)
      {
        var (subject, score) := es[k];
        assert es[..k + 1][..k] == es[..k];
        if IsValidScore(score) {
          r := AddGrade(subject, score);
          if r.Fail? {
            MergeGradesStops(start, es, k + 1);
            return;
          }
        }
        k := k + 1;
      }
      assert es[..k] == es;
      r := Pass;
    }

    /** The body of updateStudent once the student is found: the name setter,
        the class name setter, then the grade loop, each step stopping the
        update when it throws. */
    method Update(patch: Patch) returns (r: Outcome<Error>)
      requires Valid()
      modifies this
      ensures Valid()
      ensures ApplyPatch(old(ToJson()), patch) == Applied(ToJson(), r)
    {
      if patch.name.Some? {
        r := SetName(patch.name.value);
        if r.Fail? {
          return;
        }
      }
      if patch.className.Some? {
        r := SetClassName(patch.className.value);
        if r.Fail? {
          return;
        }
      }
      r := MergeEntries(patch.grades);
    }

    /** getAverage: 0 with no grades, else the mean, always within [0, 100]. */
    ghost function Average(): (avg: real)
      reads this
      ensures grades == map[] ==> avg == 0.0
      ensures Valid() ==> 0.0 <= avg <= 100.0
    {
      Mean(grades)
    }

    /** getGradeStatus: "Lulus" exactly when the average reaches 75. */
    ghost function GradeStatus(): (s: string)
      reads this
      ensures s == "Lulus" <==> Average() >= PassMark
      ensures s != "Lulus" ==> s == "Tidak Lulus"
    {
      Status(Average())
    }
  }
}
