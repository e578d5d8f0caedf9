/** The course catalog page: its six listed courses and the filter the
    sidebar controls apply to them. */
module Courses {
  import opened Text

  datatype Listing = Listing(
    id: string,
    title: string,
    description: string,
    price: real,
    category: string,
    level: string)

  const AllCourses: seq<Listing> := [
    Listing("1", "Python Programming Fundamentals",
      "Learn the basics of Python programming language and build your first applications.",
      99.99, "Programming", "Beginner"),
    Listing("2", "Web Development Bootcamp",
      "Master HTML, CSS, and JavaScript to create modern and responsive websites.",
      149.99, "Web Development", "Intermediate"),
    Listing("3", "Data Science with R",
      "Analyze data, create visualizations, and build predictive models using R.",
      129.99, "Data Science", "Advanced"),
    Listing("4", "UI/UX Design Principles",
      "Learn the fundamentals of user interface and user experience design.",
      89.99, "Design", "Beginner"),
    Listing("5", "Digital Marketing Strategy",
      "Develop comprehensive digital marketing strategies for business growth.",
      119.99, "Marketing", "Intermediate"),
    Listing("6", "Machine Learning Fundamentals",
      "Introduction to machine learning algorithms and their applications.",
      149.99, "Data Science", "Advanced")
  ]

  /** The sidebar's state: search term, category, level and price range. */
  datatype Filters = Filters(search: string, category: string, level: string, minPrice: real, maxPrice: real)

  /** The initial state, which "Reset Filters" restores. */
  const Defaults := Filters("", "all", "all", 0.0, 200.0)

  predicate MatchesSearch(c: Listing, term: string) {
    Includes(Lower(c.title), Lower(term)) || Includes(Lower(c.description), Lower(term))
  }

  predicate MatchesCategory(c: Listing, category: string) {
    category == "all" || c.category == category
  }

  predicate MatchesLevel(c: Listing, level: string) {
    level == "all" || c.level == level
  }

  predicate MatchesPrice(c: Listing, lo: real, hi: real) {
    c.price >= lo && c.price <= hi
  }

  predicate Matches(c: Listing, f: Filters) {
    && MatchesSearch(c, f.search)
    && MatchesCategory(c, f.category)
    && MatchesLevel(c, f.level)
    && MatchesPrice(c, f.minPrice, f.maxPrice)
  }

  /** `sub` is `s` with some elements dropped and the rest kept in order. */
  predicate IsSubsequence(sub: seq<Listing>, s: seq<Listing>)
    decreases |s|
  {
    if |sub| == 0 then true
    else if |s| == 0 then false
    else if sub[0] == s[0] then IsSubsequence(sub[1..], s[1..])
    else IsSubsequence(sub, s[1..])
  }

  /** `allCourses.filter(...)`. */
  function Filter(courses: seq<Listing>, f: Filters): (r: seq<Listing>)
    ensures forall i :: 0 <= i < |r| ==> Matches(r[i], f)
    ensures forall i :: 0 <= i < |courses| && Matches(courses[i], f) ==> courses[i] in r
    ensures IsSubsequence(r, courses)
  {
    if |courses| == 0 then []
    else
      var rest := Filter(courses[1..], f);
      assert forall i :: 1 <= i < |courses| ==> courses[i] == courses[1..][i - 1];
      if Matches(courses[0], f) then
        assert ([courses[0]] + rest)[1..] == rest;
        [courses[0]] + rest
      else
        SubsequenceOfTail(rest, courses);
        rest
  }

  /** Putting one more element in front keeps a subsequence a subsequence. */
  lemma {:induction false} SubsequenceOfTail(sub: seq<Listing>, s: seq<Listing>)
    requires |s| > 0 && IsSubsequence(sub, s[1..])
    ensures IsSubsequence(sub, s)
    decreases |s|, 1
  {
    if |sub| > 0 && sub[0] == s[0] {
      DropHead(sub, s[1..]);
    }
  }

  /** Dropping the first element keeps a subsequence a subsequence. */
  lemma {:induction false} DropHead(sub: seq<Listing>, t: seq<Listing>)
    requires |sub| > 0 && IsSubsequence(sub, t)
    ensures IsSubsequence(sub[1..], t)
    decreases |t|, 2
  {
    if sub[0] == t[0] {
      SubsequenceOfTail(sub[1..], t);
    } else {
      DropHead(sub, t[1..]);
      SubsequenceOfTail(sub[1..], t);
    }
  }

  /** The filter distributes over concatenation, so it keeps the matching
      courses in their catalog order and drops only the others. */
  lemma {:induction false} FilterAppend(a: seq<Listing>, b: seq<Listing>, f: Filters)
    ensures Filter(a + b, f) == Filter(a, f) + Filter(b, f)
  {
    if |a| == 0 {
      assert a + b == b;
    } else {
      assert (a + b)[1..] == a[1..] + b;
      FilterAppend(a[1..], b, f);
    }
  }

  /** A single course survives the filter exactly when it matches. */
  lemma FilterSingle(c: Listing, f: Filters)
    ensures Filter([c], f) == if Matches(c, f) then [c] else []
  {
    assert [c][1..] == [];
  }

  /** An empty search term matches every course. */
  lemma EmptySearchMatchesAll(c: Listing)
    ensures MatchesSearch(c, "")
  {
    EmptyIncluded(Lower(c.title));
  }

  /** Search ignores ASCII letter case in the term. */
  lemma SearchIgnoresTermCase(c: Listing, term: string)
    ensures MatchesSearch(c, term) <==> MatchesSearch(c, Lower(term))
  {
    LowerIdempotent(term);
  }

  /** A course matches the search exactly when the lower-cased term occurs in
      its lower-cased title or description. */
  lemma SearchIffOccurs(c: Listing, term: string)
    ensures MatchesSearch(c, term) <==>
              (exists i :: OccursAt(Lower(c.title), Lower(term), i))
              || (exists i :: OccursAt(Lower(c.description), Lower(term), i))
  {
    IncludesIffOccurs(Lower(c.title), Lower(term));
    IncludesIffOccurs(Lower(c.description), Lower(term));
  }

  /** Under the default filters every listed course is shown, in order. */
  lemma DefaultsShowWholeCatalog()
    ensures Filter(AllCourses, Defaults) == AllCourses
  {
    forall i | 0 <= i < |AllCourses|
      ensures Matches(AllCourses[i], Defaults)
    {
      EmptySearchMatchesAll(AllCourses[i]);
    }
    AllMatchingKept(AllCourses, Defaults);
  }

  lemma {:induction false} AllMatchingKept(courses: seq<Listing>, f: Filters)
    requires forall i :: 0 <= i < |courses| ==> Matches(courses[i], f)
    ensures Filter(courses, f) == courses
  {
    if |courses| > 0 {
      AllMatchingKept(courses[1..], f);
      assert courses == [courses[0]] + courses[1..];
    }
  }
}
