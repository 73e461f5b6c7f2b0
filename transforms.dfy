/**
 * The data transformations of session1/example2.js: cutSchool (filter),
 * editName (map), the max and distinct reducers, and the hashColors reducer
 * that writes into its accumulator.
 */
module DataTransforms {

  // ------------------------------------------------------------------
  // cutSchool
  // ------------------------------------------------------------------

  /** cutSchool(cut, list) = list.filter(school => school !== cut). */
  function CutSchool(cut: string, list: seq<string>): (r: seq<string>)
    ensures cut !in r
    ensures forall x :: x != cut ==> multiset(r)[x] == multiset(list)[x]
    ensures |r| == |list| - multiset(list)[cut]
  {
    if list == [] then []
    else
      assert list == [list[0]] + list[1..];
      (if list[0] != cut then [list[0]] else []) + CutSchool(cut, list[1..])
  }

  /** filter keeps order: cutting from a + b is cutting from a, then from b. */
  lemma {:induction false} CutSchoolKeepsOrder(cut: string, a: seq<string>, b: seq<string>)
    ensures CutSchool(cut, a + b) == CutSchool(cut, a) + CutSchool(cut, b)
  {
    if a == [] {
      assert a + b == b;
    } else {
      assert (a + b)[0] == a[0] && (a + b)[1..] == a[1..] + b;
      CutSchoolKeepsOrder(cut, a[1..], b);
    }
  }

  /** cutSchool("Washington & Lee", schools) gives ["Yorktown", "Wakefield"]. */
  lemma CutSchoolExample()
    ensures CutSchool("Washington & Lee", ["Yorktown", "Washington & Lee", "Wakefield"])
      == ["Yorktown", "Wakefield"]
  {
    var schools := ["Yorktown", "Washington & Lee", "Wakefield"];
    assert schools[1..] == ["Washington & Lee", "Wakefield"];
    assert schools[2..] == ["Wakefield"];
    assert schools[3..] == [];
  }

  // ------------------------------------------------------------------
  // editName
  // ------------------------------------------------------------------

  /** A record with a name; `others` stands for the fields `{...item}` copies unchanged. */
  datatype Named<A> = Named(name: string, others: A)

  /**
   * editName(oldName, name, arr): a new list in which exactly the items named
   * oldName carry the new name; length, order and all other fields are kept.
   */
  function EditName<A>(oldName: string, name: string, arr: seq<Named<A>>): (r: seq<Named<A>>)
    ensures |r| == |arr|
    ensures forall i :: 0 <= i < |arr| ==> r[i].others == arr[i].others
    ensures forall i :: 0 <= i < |arr| ==> r[i].name == (if arr[i].name == oldName then name else arr[i].name)
  {
    if arr == [] then []
    else [if arr[0].name == oldName then arr[0].(name := name) else arr[0]] + EditName(oldName, name, arr[1..])
  }

  /** Renaming back undoes a rename, when no item had the new name before. */
  lemma EditNameUndo<A>(oldName: string, name: string, arr: seq<Named<A>>)
    requires forall i :: 0 <= i < |arr| ==> arr[i].name != name
    ensures EditName(name, oldName, EditName(oldName, name, arr)) == arr
  {
    var r := EditName(name, oldName, EditName(oldName, name, arr));
    assert forall i :: 0 <= i < |arr| ==> r[i] == arr[i];
  }

  /** Editing twice is editing once. */
  lemma EditNameIdempotent<A>(oldName: string, name: string, arr: seq<Named<A>>)
    ensures EditName(oldName, name, EditName(oldName, name, arr)) == EditName(oldName, name, arr)
  {
    var once := EditName(oldName, name, arr);
    var twice := EditName(oldName, name, once);
    assert forall i :: 0 <= i < |arr| ==> twice[i] == once[i];
  }

  /** editName("Stratford", "HB Woodlawn", schools): item 1 renamed, the input list untouched. */
  lemma EditNameExample()
    ensures var schools := [Named("Yorktown", ()), Named("Stratford", ()),
                            Named("Washington & Lee", ()), Named("Wakefield", ())];
      var updated := EditName("Stratford", "HB Woodlawn", schools);
      && updated[1] == Named("HB Woodlawn", ())
      && schools[1] == Named("Stratford", ())
      && updated[0] == schools[0] && updated[2] == schools[2] && updated[3] == schools[3]
  {
  }

  // ------------------------------------------------------------------
  // The max reducer
  // ------------------------------------------------------------------

  /** reduce((max, value) => (value > max) ? value : max, acc) over values. */
  function MaxFrom(acc: int, values: seq<int>): (r: int)
    ensures r >= acc
    ensures forall i :: 0 <= i < |values| ==> r >= values[i]
    ensures r == acc || r in values
    decreases |values|
  {
    if values == [] then acc
    else
      assert values == [values[0]] + values[1..];
      MaxFrom(if values[0] > acc then values[0] else acc, values[1..])
  }

  /**
   * ages.reduce(..., 0): the largest age, or 0 when the list is empty or holds
   * no positive age (the reducer starts from 0, not from the first element).
   */
  function MaxAge(ages: seq<int>): (r: int)
    ensures r >= 0 && forall i :: 0 <= i < |ages| ==> r >= ages[i]
    ensures r == 0 || r in ages
  {
    MaxFrom(0, ages)
  }

  /** The maximum is unique: any value with MaxAge's two properties is MaxAge. */
  lemma MaxAgeUnique(ages: seq<int>, m: int)
    requires m >= 0 && forall i :: 0 <= i < |ages| ==> m >= ages[i]
    requires m == 0 || m in ages
    ensures m == MaxAge(ages)
  {
    var r := MaxAge(ages);
    if m in ages {
      var k :| 0 <= k < |ages| && ages[k] == m;
      assert r >= m;
    }
    if r in ages {
      var k :| 0 <= k < |ages| && ages[k] == r;
      assert m >= r;
    }
  }

  /** maxAge of [21, 18, 42, 40, 64, 63, 34] is 64. */
  lemma MaxAgeExample()
    ensures MaxAge([21, 18, 42, 40, 64, 63, 34]) == 64
  {
    MaxAgeUnique([21, 18, 42, 40, 64, 63, 34], 64);
  }

  // ------------------------------------------------------------------
  // The distinct reducer
  // ------------------------------------------------------------------

  /** list.indexOf(x): the first position of x, or -1. */
  function IndexOf<T(==)>(list: seq<T>, x: T): (r: int)
    ensures r == -1 <==> x !in list
    ensures r != -1 ==> 0 <= r < |list| && list[r] == x && x !in list[..r]
  {
    if list == [] then -1
    else if list[0] == x then 0
    else
      var k := IndexOf(list[1..], x);
      if k == -1 then -1
      else
        assert list[..k + 1] == [list[0]] + list[1..][..k];
        k + 1
  }

  /**
   * One step of the reducer: keep `distinct` if it holds x, else append x.
   * A list without duplicates stays without them and gains exactly x.
   */
  function DistinctStep<T(==,!new)>(distinct: seq<T>, x: T): (r: seq<T>)
    ensures x in distinct ==> r == distinct
    ensures x !in distinct ==> r == distinct + [x]
    ensures forall y :: y in r <==> y in distinct || y == x
    ensures NoDuplicates(distinct) ==> NoDuplicates(r)
  {
    if IndexOf(distinct, x) != -1 then distinct else distinct + [x]
  }

  /** list.reduce(DistinctStep, distinct), a left fold from the front. */
  function DistinctFrom<T(==,!new)>(distinct: seq<T>, list: seq<T>): seq<T>
    decreases |list|
  {
    if list == [] then distinct else DistinctFrom(DistinctStep(distinct, list[0]), list[1..])
  }

  /**
   * distinctColors = colors.reduce(DistinctStep, []): each element of the
   * list exactly once, in the order of first occurrence.
   */
  function Distinct<T(==,!new)>(list: seq<T>): (r: seq<T>)
    ensures NoDuplicates(r)
    ensures forall x :: x in r <==> x in list
    ensures InFirstOccurrenceOrder(list, r)
  {
    DistinctFirstOccurrences(list);
    DistinctFrom([], list)
  }

  predicate NoDuplicates<T(==)>(s: seq<T>)
  {
    forall i, j :: 0 <= i < j < |s| ==> s[i] != s[j]
  }

  /** Folding one more element is one more reducer step. */
  lemma {:induction false} DistinctFromSnoc<T(!new)>(distinct: seq<T>, list: seq<T>, x: T)
    ensures DistinctFrom(distinct, list + [x]) == DistinctStep(DistinctFrom(distinct, list), x)
    decreases |list|
  {
    if list == [] {
      assert list + [x] == [x];
      assert [x][1..] == [];
    } else {
      assert (list + [x])[0] == list[0] && (list + [x])[1..] == list[1..] + [x];
      DistinctFromSnoc(DistinctStep(distinct, list[0]), list[1..], x);
    }
  }

  /** The elements of r appear in the order of their first occurrence in list. */
  predicate InFirstOccurrenceOrder<T(==)>(list: seq<T>, r: seq<T>)
  {
    forall i, j :: 0 <= i < j < |r| ==> IndexOf(list, r[i]) < IndexOf(list, r[j])
  }

  /** One reducer step over list + [x] keeps first-occurrence order. */
  lemma DistinctStepOrder<T(!new)>(init: seq<T>, x: T, d: seq<T>)
    requires forall y :: y in d <==> y in init
    requires InFirstOccurrenceOrder(init, d)
    ensures InFirstOccurrenceOrder(init + [x], DistinctStep(d, x))
  {
    var list := init + [x];
    var r := DistinctStep(d, x);
    forall i, j | 0 <= i < j < |r|
      ensures IndexOf(list, r[i]) < IndexOf(list, r[j])
    {
      assert r[i] == d[i] && d[i] in init;
      IndexOfPrefix(init, x, d[i]);
      if j < |d| {
        assert r[j] == d[j] && d[j] in init;
        IndexOfPrefix(init, x, d[j]);
      } else {
        assert r[j] == x && x !in init;
        IndexOfAppended(init, x);
      }
    }
  }

  /** An element appended to a list it is not in is found at the end. */
  lemma IndexOfAppended<T>(list: seq<T>, x: T)
    requires x !in list
    ensures IndexOf(list + [x], x) == |list|
  {
    var whole := list + [x];
    assert whole[..|list|] == list;
    assert whole[|list|] == x;
  }

  /**
   * Folding the reducer from [] yields each element of the list exactly
   * once, in the order of first occurrence.
   */
  lemma {:induction false} DistinctFirstOccurrences<T(!new)>(list: seq<T>)
    ensures NoDuplicates(DistinctFrom([], list))
    ensures forall x :: x in DistinctFrom([], list) <==> x in list
    ensures InFirstOccurrenceOrder(list, DistinctFrom([], list))
  {
    if list != [] {
      var init, x := list[..|list| - 1], list[|list| - 1];
      assert list == init + [x];
      DistinctFirstOccurrences(init);
      DistinctFromSnoc([], init, x);
      DistinctStepOrder(init, x, DistinctFrom([], init));
    }
  }

  /** A position found in a list is still the first one after appending. */
  lemma {:induction false} IndexOfPrefix<T>(list: seq<T>, x: T, y: T)
    requires y in list
    ensures IndexOf(list + [x], y) == IndexOf(list, y)
  {
    if list[0] != y {
      assert (list + [x])[1..] == list[1..] + [x];
      IndexOfPrefix(list[1..], x, y);
    }
  }

  /** ["red", "red", "green", "blue", "green"] reduces to ["red", "green", "blue"]. */
  lemma DistinctColorsExample()
    ensures Distinct(["red", "red", "green", "blue", "green"]) == ["red", "green", "blue"]
  {
    var colors := ["red", "red", "green", "blue", "green"];
    assert colors[1..] == ["red", "green", "blue", "green"];
    assert colors[2..] == ["green", "blue", "green"];
    assert colors[3..] == ["blue", "green"];
    assert colors[4..] == ["green"];
    assert Distinct(colors) == DistinctFrom(["red"], colors[1..]);
    assert DistinctFrom(["red"], colors[1..]) == DistinctFrom(["red"], colors[2..]);
    assert DistinctStep(["red"], "green") == ["red", "green"];
    assert DistinctFrom(["red"], colors[2..]) == DistinctFrom(["red", "green"], colors[3..]);
    assert DistinctStep(["red", "green"], "blue") == ["red", "green", "blue"];
    assert DistinctFrom(["red", "green"], colors[3..]) == DistinctFrom(["red", "green", "blue"], colors[4..]);
  }

  // ------------------------------------------------------------------
  // hashColors
  // ------------------------------------------------------------------

  /** A row of `colors`. */
  datatype ColorRow = ColorRow(id: string, title: string, rating: int)

  /** The value hashColors stores under an id: `{ title, rating }`. */
  datatype Entry = Entry(title: string, rating: int)

  /** The entry for id comes from row i, and no later row has that id. */
  predicate WrittenLastBy(rows: seq<ColorRow>, id: string, e: Entry, i: int)
  {
    0 <= i < |rows| && rows[i].id == id && e == Entry(rows[i].title, rows[i].rating)
    && forall j :: i < j < |rows| ==> rows[j].id != id
  }

  /**
   * hashColors: `hash[id] = { title, rating }` for each row in turn, into
   * one accumulator. Every id is a key, and a key holds its last row.
   */
  method HashColors(colors: seq<ColorRow>) returns (hash: map<string, Entry>)
    ensures forall i :: 0 <= i < |colors| ==> colors[i].id in hash
    ensures forall id :: id in hash ==> exists i :: WrittenLastBy(colors, id, hash[id], i)
  {
    hash := map[];
    var k := 0;
    while k < |colors|
      invariant 0 <= k <= |colors|
      invariant forall i :: 0 <= i < k ==> colors[i].id in hash
      invariant forall id :: id in hash ==> exists i :: WrittenLastBy(colors[..k], id, hash[id], i)
    {
      var row := colors[k];
      ghost var before := hash;
      hash := hash[row.id := Entry(row.title, row.rating)];
      var done := colors[..k + 1];
      forall id | id in hash
        ensures exists i :: WrittenLastBy(done, id, hash[id], i)
      {
        if id == row.id {
          assert WrittenLastBy(done, id, hash[id], k);
        } else {
          var i :| WrittenLastBy(colors[..k], id, before[id], i);
          assert WrittenLastBy(done, id, hash[id], i);
        }
      }
      k := k + 1;
    }
    assert colors[..k] == colors;
  }
}
