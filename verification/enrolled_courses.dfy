/** The `enrolledCourses` list kept in browser storage: its record shape and
    the queries several pages make of it. */
module EnrolledCourses {
  import opened Nullable

  /** One stored enrollment. `price` is absent or `testScore` is `null` when the
      stored object says so; nothing in the pages ever writes a score. */
  datatype Record = Record(
    id: string,
    title: string,
    description: string,
    price: Option<real>,
    image: string,
    category: string,
    hasTakenTest: bool,
    testScore: Option<int>,
    progress: string)

  /** The storage key's value: `None` when the key is absent. */
  type Store = Option<seq<Record>>

  /** Some stored record carries the course id. */
  predicate HasCourse(list: seq<Record>, id: string) {
    exists i :: 0 <= i < |list| && list[i].id == id
  }

  /** How many stored records carry the course id. */
  function Occurrences(list: seq<Record>, id: string): (n: nat)
    ensures n <= |list|
    ensures n == 0 <==> !HasCourse(list, id)
  {
    if |list| == 0 then 0
    else
      var rest := Occurrences(list[1..], id);
      assert forall i :: 1 <= i < |list| ==> list[i] == list[1..][i - 1];
      assert HasCourse(list[1..], id) ==> HasCourse(list, id);
      (if list[0].id == id then 1 else 0) + rest
  }

  /** Counting occurrences distributes over appending. */
  lemma {:induction false} OccurrencesAppend(a: seq<Record>, b: seq<Record>, id: string)
    ensures Occurrences(a + b, id) == Occurrences(a, id) + Occurrences(b, id)
  {
    if |a| > 0 {
      assert (a + b)[1..] == a[1..] + b;
      OccurrencesAppend(a[1..], b, id);
    } else {
      assert a + b == b;
    }
  }
}
