/** Failure-carrying return values and the roster's error conditions.
    The source signals every error by throwing; the model returns it instead. */
module Results {

  datatype Option<+T> = None | Some(value: T)

  datatype Result<+T, +E> = Success(value: T) | Failure(error: E)

  /** The outcome of an operation that returns nothing on success. */
  datatype Outcome<+E> = Pass | Fail(error: E)

  /** xs.map(f) for an f that may throw: all the results in order, or None as
      soon as one application fails. */
  function MapAll<T, U, E>(xs: seq<T>, f: T -> Result<U, E>): (r: Option<seq<U>>)
    ensures r.Some? ==> |r.value| == |xs|
  {
    if xs == [] then Some([])
    else
      match MapAll(xs[..|xs| - 1], f)
      case None => None
      case Some(ys) =>
        match f(xs[|xs| - 1])
        case Failure(_) => None
        case Success(y) => Some(ys + [y])
  }

  /** The mapped list exists exactly when f succeeds on every element, and then
      holds f's result for each element at its position. */
  lemma {:induction false} MapAllSpec<T, U, E>(xs: seq<T>, f: T -> Result<U, E>)
    ensures MapAll(xs, f).Some? <==> forall k :: 0 <= k < |xs| ==> f(xs[k]).Success?
    ensures MapAll(xs, f).Some? ==> forall k :: 0 <= k < |xs| ==> f(xs[k]) == Success(MapAll(xs, f).value[k])
  {
    if xs != [] {
      var init := xs[..|xs| - 1];
      MapAllSpec(init, f);
      assert forall k :: 0 <= k < |init| ==> xs[k] == init[k];
    }
  }

  /** One constructor per distinct error the core throws. */
  datatype Error =
    | InvalidId        // constructor: id blank or not a string
    | BlankName        // constructor and the name setter
    | BlankClassName   // constructor and the class-name setter
    | BlankSubject     // addGrade: subject blank
    | InvalidScore     // addGrade: score outside [0, 100]
    | DuplicateId      // addStudent: id already present
    | NotFound         // removeStudent and updateStudent: no such id

  /** The text of the Error object the source throws for each error. The model
      returns the Error itself; this table only records the wording. */
  function Message(e: Error): string
  {
    match e
    case InvalidId => "ID tidak valid"
    case BlankName => "Nama tidak boleh kosong"
    case BlankClassName => "Kelas tidak boleh kosong"
    case BlankSubject => "Mata pelajaran tidak boleh kosong"
    case InvalidScore => "Nilai harus angka antara 0-100"
    case DuplicateId => "ID siswa harus unik"
    case NotFound => "Siswa tidak ditemukan"
  }
}
