/** `orderBy(asc(courses[orderBy]))`: the three ascending orders the list
    route offers, and a stable insertion sort proved to produce an ordered
    permutation of its input. Titles compare character by character (binary
    collation); a null price sorts after every price, as PostgreSQL places
    NULLs last in ascending order. */
module CourseOrder {
  import opened Common
  import opened Schema

  datatype OrderBy = ById | ByTitle | ByPrice

  /** Lexicographic order on strings by character code. */
  predicate StrLe(a: string, b: string)
    decreases |a|
  {
    |a| == 0 || (|b| > 0 && (a[0] < b[0] || (a[0] == b[0] && StrLe(a[1..], b[1..]))))
  }

  lemma {:induction false} StrLeTotal(a: string, b: string)
    ensures StrLe(a, b) || StrLe(b, a)
    decreases |a|
  {
    if |a| > 0 && |b| > 0 && a[0] == b[0] {
      StrLeTotal(a[1..], b[1..]);
    }
  }

  lemma {:induction false} StrLeTrans(a: string, b: string, c: string)
    requires StrLe(a, b) && StrLe(b, c)
    ensures StrLe(a, c)
    decreases |a|
  {
    if |a| > 0 && a[0] == b[0] && b[0] == c[0] {
      StrLeTrans(a[1..], b[1..], c[1..]);
    }
  }

  lemma {:induction false} StrLeAntisymmetric(a: string, b: string)
    requires StrLe(a, b) && StrLe(b, a)
    ensures a == b
    decreases |a|
  {
    if |a| > 0 {
      StrLeAntisymmetric(a[1..], b[1..]);
      assert a == [a[0]] + a[1..] && b == [b[0]] + b[1..];
    }
  }

  /** Ascending price with NULLs last. */
  predicate PriceLe(a: Option<int>, b: Option<int>)
  {
    b.None? || (a.Some? && a.value <= b.value)
  }

  /** `c` may come before `d` in the chosen order. */
  predicate KeyLe(order: OrderBy, c: Course, d: Course)
  {
    match order
    case ById => c.id <= d.id
    case ByTitle => StrLe(c.title, d.title)
    case ByPrice => PriceLe(c.price, d.price)
  }

  lemma KeyLeTotal(order: OrderBy, c: Course, d: Course)
    ensures KeyLe(order, c, d) || KeyLe(order, d, c)
  {
    if order == ByTitle { StrLeTotal(c.title, d.title); }
  }

  lemma KeyLeTrans(order: OrderBy, c: Course, d: Course, e: Course)
    requires KeyLe(order, c, d) && KeyLe(order, d, e)
    ensures KeyLe(order, c, e)
  {
    if order == ByTitle { StrLeTrans(c.title, d.title, e.title); }
  }

  ghost predicate Sorted(order: OrderBy, xs: seq<Course>)
  {
    forall i, j :: 0 <= i < j < |xs| ==> KeyLe(order, xs[i], xs[j])
  }

  /** Places `c` before the first element it may precede. */
  function Insert(order: OrderBy, c: Course, xs: seq<Course>): (r: seq<Course>)
    ensures |r| == |xs| + 1
    ensures multiset(r) == multiset(xs) + multiset{c}
  {
    if |xs| == 0 then [c]
    else if KeyLe(order, c, xs[0]) then [c] + xs
    else
      assert xs == [xs[0]] + xs[1..];
      [xs[0]] + Insert(order, c, xs[1..])
  }

  lemma {:induction false} InsertSorted(order: OrderBy, c: Course, xs: seq<Course>)
    requires Sorted(order, xs)
    ensures Sorted(order, Insert(order, c, xs))
    decreases |xs|
  {
    if |xs| > 0 {
      if KeyLe(order, c, xs[0]) {
        var r := [c] + xs;
        forall j | 0 < j < |r| ensures KeyLe(order, c, r[j]) {
          if j > 1 { KeyLeTrans(order, c, xs[0], r[j]); }
        }
      } else {
        KeyLeTotal(order, c, xs[0]);
        var rest := Insert(order, c, xs[1..]);
        InsertSorted(order, c, xs[1..]);
        var r := [xs[0]] + rest;
        forall j | 0 < j < |r| ensures KeyLe(order, xs[0], r[j]) {
          assert r[j] in multiset(rest);
          assert r[j] == c || r[j] in multiset(xs[1..]);
          if r[j] != c {
            var k :| 0 <= k < |xs[1..]| && xs[1..][k] == r[j];
            assert xs[k + 1] == r[j];
          }
        }
      }
    }
  }

  /** Insertion sort; stable, since an element goes before the first one it
      may precede and the input is consumed from the front. */
  function SortCourses(order: OrderBy, xs: seq<Course>): (r: seq<Course>)
    ensures |r| == |xs| && multiset(r) == multiset(xs)
  {
    if |xs| == 0 then []
    else
      assert xs == [xs[0]] + xs[1..];
      Insert(order, xs[0], SortCourses(order, xs[1..]))
  }

  /** The sort's output is ordered and a permutation of its input. */
  lemma {:induction false} SortCoursesCorrect(order: OrderBy, xs: seq<Course>)
    ensures Sorted(order, SortCourses(order, xs))
    ensures multiset(SortCourses(order, xs)) == multiset(xs)
    decreases |xs|
  {
    if |xs| > 0 {
      SortCoursesCorrect(order, xs[1..]);
      InsertSorted(order, xs[0], SortCourses(order, xs[1..]));
    }
  }

  /** Removing equal heads from equal multisets leaves equal multisets. */
  lemma MultisetTails<T>(xs: seq<T>, ys: seq<T>)
    requires |xs| > 0 && |ys| > 0 && xs[0] == ys[0] && multiset(xs) == multiset(ys)
    ensures multiset(xs[1..]) == multiset(ys[1..])
  {
    assert xs == [xs[0]] + xs[1..] && ys == [ys[0]] + ys[1..];
    forall z ensures multiset(xs[1..])[z] == multiset(ys[1..])[z] {
      assert multiset(xs)[z] == multiset{xs[0]}[z] + multiset(xs[1..])[z];
      assert multiset(ys)[z] == multiset{ys[0]}[z] + multiset(ys[1..])[z];
    }
  }

  /** Two sorted arrangements of the same rows, with unique ids and titles,
      start with the same row under the id or title order. */
  lemma SortedHeads(order: OrderBy, xs: seq<Course>, ys: seq<Course>)
    requires order != ByPrice && |xs| > 0
    requires forall i, j :: 0 <= i < j < |xs| ==> xs[i].id != xs[j].id && xs[i].title != xs[j].title
    requires Sorted(order, xs) && Sorted(order, ys) && multiset(xs) == multiset(ys)
    ensures |ys| > 0 && xs[0] == ys[0]
  {
    assert |ys| == |multiset(ys)| == |xs|;
    assert ys[0] in multiset(xs);
    assert xs[0] in multiset(ys);
    var a :| 0 <= a < |xs| && xs[a] == ys[0];
    var b :| 0 <= b < |ys| && ys[b] == xs[0];
    if a != 0 && b != 0 && order == ByTitle {
      StrLeAntisymmetric(xs[0].title, ys[0].title);
    }
  }

  lemma SortedTail(order: OrderBy, xs: seq<Course>)
    requires |xs| > 0 && Sorted(order, xs)
    ensures Sorted(order, xs[1..])
  {
    var xt := xs[1..];
    forall i, j | 0 <= i < j < |xt| ensures KeyLe(order, xt[i], xt[j]) {
      assert xt[i] == xs[i + 1] && xt[j] == xs[j + 1];
    }
  }

  lemma DistinctTail(xs: seq<Course>)
    requires |xs| > 0
    requires forall i, j :: 0 <= i < j < |xs| ==> xs[i].id != xs[j].id && xs[i].title != xs[j].title
    ensures forall i, j :: 0 <= i < j < |xs[1..]| ==> xs[1..][i].id != xs[1..][j].id && xs[1..][i].title != xs[1..][j].title
  {
    var xt := xs[1..];
    forall i, j | 0 <= i < j < |xt| ensures xt[i].id != xt[j].id && xt[i].title != xt[j].title {
      assert xt[i] == xs[i + 1] && xt[j] == xs[j + 1];
    }
  }

  /** Under the title or the id order (unique keys), the ordered permutation
      is unique: any two sorted arrangements of the same rows agree. */
  lemma {:induction false} SortedPermutationUnique(order: OrderBy, xs: seq<Course>, ys: seq<Course>)
    requires order != ByPrice
    requires forall i, j :: 0 <= i < j < |xs| ==> xs[i].id != xs[j].id && xs[i].title != xs[j].title
    requires Sorted(order, xs) && Sorted(order, ys) && multiset(xs) == multiset(ys)
    ensures xs == ys
    decreases |xs|
  {
    if |xs| == 0 {
      assert |ys| == |multiset(ys)| == 0;
    } else {
      SortedHeads(order, xs, ys);
      MultisetTails(xs, ys);
      var xt, yt := xs[1..], ys[1..];
      SortedTail(order, xs);
      SortedTail(order, ys);
      DistinctTail(xs);
      SortedPermutationUnique(order, xt, yt);
      assert xs == [xs[0]] + xt && ys == [ys[0]] + yt;
    }
  }
}
