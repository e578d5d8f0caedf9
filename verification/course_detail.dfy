/** The course detail page: the catalog it looks courses up in, the
    enrollment check its effect performs, and the enroll button's handler. */
module CourseDetail {
  import opened Nullable
  import opened EnrolledCourses

  datatype Course = Course(
    id: string,
    title: string,
    description: string,
    price: real,
    category: string,
    level: string,
    image: string)

  /** The page's own catalog, keyed by route id. */
  const CoursesData: map<string, Course> := map[
    "1" := Course("1", "Python Programming Fundamentals",
      "Learn the foundations of Python programming in this comprehensive course. You'll start with the basics and progress to building complete applications. Python is one of the most versatile and in-demand programming languages in the world, used for everything from web development to data science and machine learning.",
      5999.99, "Programming", "Beginner",
      "https://images.unsplash.com/photo-1649972904349-6e44c42644a7?auto=format&fit=crop&q=80&w=1200"),
    "2" := Course("2", "Web Development Bootcamp",
      "Master HTML, CSS, and JavaScript to create modern and responsive websites.",
      8999.99, "Web Development", "Intermediate",
      "https://images.unsplash.com/photo-1461749280684-dccba630e2f6?auto=format&fit=crop&q=80&w=1200")
  ]

  /** The member names every plain object literal inherits from
      `Object.prototype`. */
  const InheritedKeys: set<string> := {
    "constructor", "toString", "toLocaleString", "valueOf", "hasOwnProperty",
    "isPrototypeOf", "propertyIsEnumerable", "__proto__", "__defineGetter__",
    "__defineSetter__", "__lookupGetter__", "__lookupSetter__"
  }

  /** What `coursesData[id]` yields: a catalog course, `undefined`, or (for an
      inherited member name) a truthy function or object that is no course. */
  datatype Entry = Undefined | Own(course: Course) | Inherited

  function Lookup(id: string): (e: Entry)
    ensures e.Own? <==> id in CoursesData
    ensures e.Own? ==> e.course == CoursesData[id] && e.course.id == id && e.course.price > 0.0
    ensures e.Inherited? <==> id !in CoursesData && id in InheritedKeys
    ensures e.Undefined? <==> id !in CoursesData && id !in InheritedKeys
  {
    if id in CoursesData then Own(CoursesData[id])
    else if id in InheritedKeys then Inherited
    else Undefined
  }

  /** What the page renders for a route id. An inherited entry passes the
      `!course` guard and then throws at `course.rating.toFixed(1)`. */
  datatype View = NotFound | Detail(course: Course) | Crash

  function Render(id: string): (v: View)
    ensures v.Detail? <==> id in CoursesData
    ensures v.Detail? ==> v.course == CoursesData[id]
    ensures v.NotFound? <==> id !in CoursesData && id !in InheritedKeys
    ensures v.Crash? <==> id !in CoursesData && id in InheritedKeys
  {
    match Lookup(id)
    case Undefined => NotFound
    case Own(c) => Detail(c)
    case Inherited => Crash
  }

  /** Every catalog id is an own key: none of them names an inherited member,
      so the catalog's courses always render. */
  lemma CatalogRenders(id: string)
    requires id in CoursesData
    ensures id !in InheritedKeys && Render(id) == Detail(CoursesData[id])
  {
  }

  /** The enrollment flag after the page's effect has run: it is only
      recomputed when logged in, the id is non-empty and the key is stored;
      otherwise it keeps its previous value. */
  function CheckEnrolled(loggedIn: bool, id: string, store: Store, previous: bool): (flag: bool)
    ensures loggedIn && id != "" && store.Some? ==> (flag <==> HasCourse(store.value, id))
    ensures !(loggedIn && id != "" && store.Some?) ==> flag == previous
  {
    if loggedIn && id != "" && store.Some? then
      exists i :: 0 <= i < |store.value| && store.value[i].id == id
    else previous
  }

  /** The fresh record the handler appends. */
  function NewRecord(id: string, c: Course): (r: Record)
    ensures r.id == id && r.price == Some(c.price)
    ensures !r.hasTakenTest && r.testScore == None && r.progress == "0%"
  {
    Record(id, c.title, c.description, Some(c.price), c.image, c.category, false, None, "0%")
  }

  /** How the handler ends. */
  datatype Effect =
    | GoToLogin        // not logged in: toast and redirect
    | GoToMyCourses    // the page already knows the learner is enrolled
    | AlreadyStored    // the stored list has the id: nothing is written
    | Enrolled         // one record appended and the list written back
    | Failed           // `course.title` on an undefined entry throws; the catch toasts

  /** What the handler leaves behind: the stored list, the page's enrolled
      flag (`setIsEnrolled(true)` after a write) and how it ended. */
  datatype Outcome = Outcome(store: Store, flag: bool, effect: Effect)

  /** `handleEnroll`. */
  function HandleEnroll(loggedIn: bool, enrolledFlag: bool, id: string, store: Store): (o: Outcome)
    // the stored list changes only on a successful enrollment
    ensures o.effect != Enrolled ==> o.store == store
    // the flag is raised by a successful enrollment and otherwise left alone
    ensures o.flag <==> enrolledFlag || o.effect == Enrolled
    ensures !loggedIn ==> o.effect == GoToLogin
    ensures loggedIn && enrolledFlag ==> o.effect == GoToMyCourses
    // an id already stored: nothing happens at all
    ensures loggedIn && !enrolledFlag && HasCourse(store.GetOr([]), id) ==> o.effect == AlreadyStored
    // a new id the catalog lacks: reading the course throws and the catch reports failure
    ensures loggedIn && !enrolledFlag && !HasCourse(store.GetOr([]), id) && id !in CoursesData
            ==> o.effect == Failed
    // an id already stored is never appended or rewritten
    ensures store.Some? && HasCourse(store.value, id) ==> o.store == store
    // otherwise exactly one fresh record is added after the untouched old list
    ensures o.effect == Enrolled <==>
              loggedIn && !enrolledFlag && id in CoursesData
              && !HasCourse(store.GetOr([]), id)
    ensures o.effect == Enrolled ==>
              o.store == Some(store.GetOr([]) + [NewRecord(id, CoursesData[id])])
  {
    if !loggedIn then Outcome(store, enrolledFlag, GoToLogin)
    else if enrolledFlag then Outcome(store, enrolledFlag, GoToMyCourses)
    else
      var list := store.GetOr([]);
      if exists i :: 0 <= i < |list| && list[i].id == id then Outcome(store, enrolledFlag, AlreadyStored)
      else
        match Lookup(id)
        case Own(c) => Outcome(Some(list + [NewRecord(id, c)]), true, Enrolled)
        case _ => Outcome(store, enrolledFlag, Failed)
  }

  /** After an enrollment the id is stored exactly once, and the records
      already stored keep their positions and values. */
  lemma EnrollAppendsOnce(loggedIn: bool, enrolledFlag: bool, id: string, store: Store)
    requires HandleEnroll(loggedIn, enrolledFlag, id, store).effect == Enrolled
    ensures var list := HandleEnroll(loggedIn, enrolledFlag, id, store).store.value;
            && Occurrences(list, id) == 1
            && |list| == |store.GetOr([])| + 1
            && list[..|list| - 1] == store.GetOr([])
  {
    var stored := store.GetOr([]);
    var c := CoursesData[id];
    OccurrencesAppend(stored, [NewRecord(id, c)], id);
    assert Occurrences([NewRecord(id, c)], id) == 1 by {
      assert [NewRecord(id, c)][1..] == [];
    }
  }

  /** Enrolling twice stores the same list as enrolling once, whatever the
      page's flag says the second time, and the id then occurs once if it did
      not occur before. */
  lemma EnrollIdempotent(id: string, store: Store, flag2: bool)
    ensures var once := HandleEnroll(true, false, id, store).store;
            HandleEnroll(true, flag2, id, once).store == once
    ensures var once := HandleEnroll(true, false, id, store).store;
            id in CoursesData && !HasCourse(store.GetOr([]), id)
            ==> Occurrences(once.value, id) == 1
  {
    var first := HandleEnroll(true, false, id, store);
    if first.effect == Enrolled {
      EnrollAppendsOnce(true, false, id, store);
      var list := first.store.value;
      assert list[|list| - 1].id == id;
      assert HasCourse(list, id);
    }
  }

  /** With nothing stored, an enrollment writes a one-record list. */
  lemma EnrollIntoEmptyStore(id: string)
    requires id in CoursesData
    ensures HandleEnroll(true, false, id, None) == Outcome(Some([NewRecord(id, CoursesData[id])]), true, Enrolled)
  {
    assert [] + [NewRecord(id, CoursesData[id])] == [NewRecord(id, CoursesData[id])];
  }

  /** The handler and the page's effect agree: after an enrollment, the
      effect recomputing the flag from the written list finds the id. */
  lemma FlagAfterEnroll(id: string, store: Store, previous: bool)
    requires HandleEnroll(true, false, id, store).effect == Enrolled
    ensures CheckEnrolled(true, id, HandleEnroll(true, false, id, store).store, previous)
  {
    EnrollAppendsOnce(true, false, id, store);
    var list := HandleEnroll(true, false, id, store).store.value;
    assert list[|list| - 1].id == id;
  }

  /** When the effect has found the id in the stored list, the handler writes
      nothing, whether it redirects or sees the id itself. */
  lemma FlagBlocksWrite(id: string, store: Store, previous: bool, flag: bool)
    requires id != "" && store.Some? && CheckEnrolled(true, id, store, previous)
    ensures HandleEnroll(true, flag, id, store).store == store
  {
  }

  /** The click after an enrollment finds the raised flag and redirects to
      the learner's courses, writing nothing. */
  lemma NextClickRedirects(loggedIn: bool, enrolledFlag: bool, id: string, store: Store)
    requires HandleEnroll(loggedIn, enrolledFlag, id, store).effect == Enrolled
    ensures var o := HandleEnroll(loggedIn, enrolledFlag, id, store);
            HandleEnroll(true, o.flag, id, o.store) == Outcome(o.store, true, GoToMyCourses)
  {
  }

  /** An id that is stored while the page's flag is down (the effect has not
      seen it) gets no response: the handler neither writes nor raises the
      flag, so every further click ends the same way. */
  lemma StoredButUnflaggedIsSilent(id: string, store: Store)
    requires HasCourse(store.GetOr([]), id)
    ensures var o := HandleEnroll(true, false, id, store);
            o == Outcome(store, false, AlreadyStored)
            && HandleEnroll(true, o.flag, id, o.store) == o
  {
  }
}
