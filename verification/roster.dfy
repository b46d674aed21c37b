/** StudentManager: the ordered list of Student objects, its queries, and
    its persistence. The store file is modelled by its decoded contents;
    saveToFile becomes an assignment to the ghost field persisted. */
module Roster {
  import opened Results
  import opened Grades
  import opened Record
  import opened Students
  import opened Ranking

  /** findIndex by id: the first position holding that id, or -1. */
  function FirstIndex(xs: seq<Student>, id: string): (i: int)
    ensures -1 <= i < |xs|
    ensures i == -1 <==> forall j :: 0 <= j < |xs| ==> xs[j].id != id
    ensures 0 <= i ==> xs[i].id == id && forall j :: 0 <= j < i ==> xs[j].id != id
  {
    if xs == [] then -1
    else if xs[0].id == id then 0
    else
      var k := FirstIndex(xs[1..], id);
      if k < 0 then -1 else k + 1
  }

  /** students.map(s => s.toJSON()): what saveToFile writes. */
  function Snapshots(xs: seq<Student>): (ds: seq<StudentData>)
    reads xs
    ensures |ds| == |xs| && forall k :: 0 <= k < |xs| ==> ds[k] == xs[k].ToJson()
  {
    if xs == [] then [] else Snapshots(xs[..|xs| - 1]) + [xs[|xs| - 1].ToJson()]
  }

  /** loadFromFile: a missing or unparsable store (None), or one holding a record
      the constructor rejects, gives the empty list. Otherwise each record becomes
      its fromJSON result (LoadDecodes); what saveToFile wrote, a list of
      well-formed records, loads back unchanged and in order. */
  function Load(store: Option<seq<StudentData>>): (ds: seq<StudentData>)
    ensures forall k :: 0 <= k < |ds| ==> WellFormed(ds[k])
    ensures store.None? ==> ds == []
    ensures store.Some? && (exists k :: 0 <= k < |store.value| && Decode(store.value[k]).Failure?) ==> ds == []
    ensures store.Some? && (forall k :: 0 <= k < |store.value| ==> WellFormed(store.value[k])) ==> ds == store.value
  {
    if store.None? then []
    else
      MapAllSpec(store.value, Decode);
      match MapAll(store.value, Decode)
      case None => []
      case Some(ds) => ds
  }

  /** A store whose every record decodes loads as those records' fromJSON
      results, one per record and in order: an untrimmed name is trimmed and
      invalid scores are dropped on the way in. */
  lemma {:induction false} LoadDecodes(store: Option<seq<StudentData>>)
    requires store.Some? && forall k :: 0 <= k < |store.value| ==> Decode(store.value[k]).Success?
    ensures |Load(store)| == |store.value|
    ensures forall k :: 0 <= k < |store.value| ==> Decode(store.value[k]) == Success(Load(store)[k])
  {
    MapAllSpec(store.value, Decode);
  }

  /** Averages of the listed students, position by position. */
  ghost function Averages(xs: seq<Student>): (avgs: seq<real>)
    reads xs
    ensures |avgs| == |xs| && forall k :: 0 <= k < |xs| ==> avgs[k] == xs[k].Average()
  {
    if xs == [] then [] else Averages(xs[..|xs| - 1]) + [xs[|xs| - 1].Average()]
  }

  /** students.filter(s => s.className === c): exact, case-sensitive comparison
      with the query as given. Each matching student is kept as often as it is
      listed, and nothing else is kept. */
  function KeepClass(xs: seq<Student>, c: string): (r: seq<Student>)
    reads xs
    ensures forall x :: x in r ==> x in xs && x.className == c
    ensures forall x :: x in xs && x.className == c ==> multiset(r)[x] == multiset(xs)[x]
  {
    if xs == [] then []
    else
      var init := xs[..|xs| - 1];
      var last := xs[|xs| - 1];
      assert xs == init + [last];
      var rest := KeepClass(init, c);
      if last.className == c then rest + [last] else rest
  }

  /** The filter keeps list order: filtering a concatenation filters each part. */
  lemma {:induction false} KeepClassConcat(a: seq<Student>, b: seq<Student>, c: string)
    ensures KeepClass(a + b, c) == KeepClass(a, c) + KeepClass(b, c)
    decreases |b|
  {
    if b != [] {
      var init := b[..|b| - 1];
      assert (a + b)[..|a + b| - 1] == a + init;
      KeepClassConcat(a, init, c);
    } else {
      assert a + b == a;
    }
  }

  /** Every listed student keeps its own invariant. */
  ghost predicate EachValid(xs: seq<Student>)
    reads xs
  {
    forall k {:trigger xs[k].Valid()} :: 0 <= k < |xs| ==> xs[k].Valid()
  }

  /** No two listed students share an id. */
  predicate DistinctIds(xs: seq<Student>)
  {
    forall i, j :: 0 <= i < j < |xs| ==> xs[i].id != xs[j].id
  }

  /** saveToFile then loadFromFile: the records written for valid students are
      read back as the same records, in the same order. */
  lemma SaveLoadRoundTrip(xs: seq<Student>)
    requires EachValid(xs)
    ensures Load(Some(Snapshots(xs))) == Snapshots(xs)
  {
    var ds := Snapshots(xs);
    forall k | 0 <= k < |ds|
      ensures WellFormed(ds[k])
    {
      assert xs[k].Valid();
    }
  }

  /** splice(i, 1): the list without position i, the rest in order. */
  function RemoveAt(xs: seq<Student>, i: nat): (r: seq<Student>)
    requires i < |xs|
    ensures |r| == |xs| - 1
    ensures forall k :: 0 <= k < i ==> r[k] == xs[k]
    ensures forall k :: i <= k < |r| ==> r[k] == xs[k + 1]
  {
    if i == 0 then xs[1..] else [xs[0]] + RemoveAt(xs[1..], i - 1)
  }

  /** push keeps the students valid, and keeps the ids distinct when the new id
      is not taken yet. */
  lemma AppendKeeps(xs: seq<Student>, s: Student)
    requires EachValid(xs) && s.Valid()
    ensures EachValid(xs + [s])
    ensures DistinctIds(xs) && (forall t :: t in xs ==> t.id != s.id) ==> DistinctIds(xs + [s])
  {
  }

  /** splice(i, 1) keeps the students valid and the ids distinct; with distinct
      ids the removed student's id is gone from the list. */
  lemma RemoveAtKeeps(xs: seq<Student>, i: nat)
    requires i < |xs| && EachValid(xs)
    ensures EachValid(RemoveAt(xs, i))
    ensures DistinctIds(xs) ==> DistinctIds(RemoveAt(xs, i))
    ensures DistinctIds(xs) ==> forall t :: t in RemoveAt(xs, i) ==> t.id != xs[i].id
  {
  }

  /** The students of a store that decoded in full: Student.fromJSON on each
      record in order, each record being kept as it is. */
  method RestoreAll(ds: seq<StudentData>) returns (loaded: seq<Student>)
    requires forall k :: 0 <= k < |ds| ==> WellFormed(ds[k])
    ensures Snapshots(loaded) == ds && EachValid(loaded)
  {
    loaded := [];
    var k := 0;
    while k < |ds|
      invariant k <= |ds| && |loaded| == k
      invariant forall j :: 0 <= j < k ==> loaded[j].ToJson() == ds[j]
      invariant EachValid(loaded)
    {
      var s := Student.Restore(ds[k]);
      loaded := loaded + [s];
      k := k + 1;
    }
    assert Snapshots(loaded) == ds;
  }

  class StudentManager {
    var students: seq<Student>
    ghost var persisted: Option<seq<StudentData>>

    /** Every listed student keeps its own invariant. */
    ghost predicate Valid()
      reads this, students
    {
      EachValid(students)
    }

    /** No two listed students share an id. addStudent and removeStudent keep
        this; loadFromFile does not check it. */
    predicate UniqueIds()
      reads this
    {
      DistinctIds(students)
    }

    /** new StudentManager(): the list loaded from the store. */
    constructor (store: Option<seq<StudentData>>)
      ensures Valid() && persisted == store
      ensures Snapshots(students) == Load(store)
    {
      var loaded := RestoreAll(Load(store));
      students := loaded;
      persisted := store;
    }

    /** saveToFile: the store now holds every listed student's record, in list
        order. A failed write is only logged by the source and is not modelled. */
    method SaveToFile()
      requires Valid()
      modifies this
      ensures Valid()
      ensures students == old(students)
      ensures persisted == Some(Snapshots(students))
    {
      persisted := Some(Snapshots(students));
    }

    /** findStudent: the first student with the id, or null. */
    function FindStudent(id: string): (s: Student?)
      reads this
      ensures s == null <==> forall t :: t in students ==> t.id != id
      ensures s != null ==> s.id == id && 0 <= FirstIndex(students, id) && s == students[FirstIndex(students, id)]
    {
      var i := FirstIndex(students, id);
      if i < 0 then null else students[i]
    }

    /** addStudent: a duplicate id is refused and nothing changes; otherwise the
        student goes at the end and the list is saved. */
    method AddStudent(s: Student) returns (r: Outcome<Error>)
      requires Valid() && s.Valid()
      modifies this
      ensures Valid()
      ensures r.Fail? <==> exists t :: t in old(students) && t.id == s.id
      ensures r.Fail? ==> r.error == DuplicateId && students == old(students) && persisted == old(persisted)
      ensures r.Pass? ==> students == old(students) + [s] && persisted == Some(Snapshots(students))
      ensures r.Pass? ==> FindStudent(s.id) == s
      ensures old(UniqueIds()) ==> UniqueIds()
    {
      if FindStudent(s.id) != null {
        return Fail(DuplicateId);
      }
      AppendKeeps(students, s);
      students := students + [s];
      assert Valid();
      SaveToFile();
      r := Pass;
    }

    /** removeStudent: an unknown id is refused and nothing changes; otherwise the
        first student with the id is cut out, the others keep their order, and
        the list is saved. */
    method RemoveStudent(id: string) returns (r: Outcome<Error>)
      requires Valid()
      modifies this
      ensures Valid()
      ensures r.Fail? <==> forall t :: t in old(students) ==> t.id != id
      ensures r.Fail? ==> r.error == NotFound && students == old(students) && persisted == old(persisted)
      ensures r.Pass? ==> var i := FirstIndex(old(students), id);
        && 0 <= i
        && students == RemoveAt(old(students), i)
        && persisted == Some(Snapshots(students))
      ensures old(UniqueIds()) ==> UniqueIds()
      ensures old(UniqueIds()) && r.Pass? ==> forall t :: t in students ==> t.id != id
    {
      var i := FirstIndex(students, id);
      if i < 0 {
        return Fail(NotFound);
      }
      RemoveAtKeeps(students, i);
      students := RemoveAt(students, i);
      assert Valid();
      SaveToFile();
      r := Pass;
    }

    /** updateStudent: an unknown id is refused; otherwise the found student is
        patched as Record.ApplyPatch says, which may stop part-way, no other
        student changes, and the list is saved only if the whole patch applied. */
    method UpdateStudent(id: string, patch: Patch) returns (r: Outcome<Error>)
      requires Valid()
      modifies this, students
      ensures Valid() && students == old(students)
      ensures FirstIndex(students, id) < 0 ==> r == Fail(NotFound) && persisted == old(persisted)
      ensures 0 <= FirstIndex(students, id) ==>
        var s := students[FirstIndex(students, id)];
        ApplyPatch(old(s.ToJson()), patch) == Applied(s.ToJson(), r)
      ensures forall k :: 0 <= k < |students| && students[k] != FindStudent(id) ==> unchanged(students[k])
      ensures r.Pass? ==> persisted == Some(Snapshots(students))
      ensures r.Fail? ==> persisted == old(persisted)
    {
      var i := FirstIndex(students, id);
      if i < 0 {
        return Fail(NotFound);
      }
      var s := students[i];
      r := s.Update(patch);
      if r.Pass? {
        SaveToFile();
      }
    }

    /** getAllStudents: the students in list order, as a sequence value, so later
        changes to the manager's list do not reach it. */
    function AllStudents(): (r: seq<Student>)
      reads this
      ensures |r| == |students| && forall k :: 0 <= k < |r| ==> r[k] == students[k]
    {
      students
    }

    /** getTopStudents(n = 3): slice(0, n) of the list stably sorted by
        descending average. */
    ghost function TopStudents(n: int := 3): (r: seq<Student>)
      reads this, students
      ensures |r| == SliceEnd(n, |students|)
      ensures forall a :: 0 <= a < |r| ==> r[a] == students[Top(Averages(students), n)[a]]
      ensures forall a, b :: 0 <= a < b < |r| ==> r[a].Average() >= r[b].Average()
    {
      var xs := students;
      var idx := Top(Averages(xs), n);
      seq(|idx|, a requires 0 <= a < |idx| => xs[idx[a]])
    }

    /** filterByClass: the students whose stored class name equals c exactly, in list order. */
    function FilterByClass(c: string): (r: seq<Student>)
      reads this, students
      ensures forall x :: x in r ==> x in students && x.className == c
      ensures forall x :: x in students && x.className == c ==> x in r
    {
      KeepClass(students, c)
    }
  }
}
