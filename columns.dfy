/**
 * The two column-name lists the dashboard offers: numeric columns for the
 * histogram and scatter axes, categorical ones for the colour selector.
 * The column dtypes are taken as given.
 */
module Columns {

  /** The dtypes a column of the loaded frame can have. */
  datatype Dtype = Int64 | Float64 | NullableInt64 | Bool | Object | DateTime

  datatype Column = Column(name: string, dtype: Dtype)

  /** `select_dtypes(include=['int64', 'float64', 'Int64'])` keeps these. */
  predicate IsNumeric(d: Dtype) {
    d == Int64 || d == Float64 || d == NullableInt64
  }

  predicate IsObject(d: Dtype) {
    d == Object
  }

  /** The names of the columns whose dtype passes `keep`, in frame order. */
  function NamesWhere(cols: seq<Column>, keep: Dtype -> bool): (r: seq<string>)
    ensures forall x :: x in r <==> exists i :: 0 <= i < |cols| && cols[i].name == x && keep(cols[i].dtype)
  {
    if cols == [] then
      []
    else
      var rest := NamesWhere(cols[1..], keep);
      assert forall x :: x in rest <==> exists i :: 1 <= i < |cols| && cols[i].name == x && keep(cols[i].dtype) by {
        forall x | x in rest ensures exists i :: 1 <= i < |cols| && cols[i].name == x && keep(cols[i].dtype) {
          var j :| 0 <= j < |cols[1..]| && cols[1..][j].name == x && keep(cols[1..][j].dtype);
          assert cols[j + 1].name == x;
        }
        forall i | 1 <= i < |cols| && keep(cols[i].dtype) ensures cols[i].name in rest {
          assert cols[1..][i - 1] == cols[i];
        }
      }
      (if keep(cols[0].dtype) then [cols[0].name] else []) + rest
  }

  function NumericNames(cols: seq<Column>): seq<string> {
    NamesWhere(cols, IsNumeric)
  }

  function ObjectNames(cols: seq<Column>): seq<string> {
    NamesWhere(cols, IsObject)
  }

  /** No two columns share a name (as `read_csv` guarantees). */
  predicate UniqueNames(cols: seq<Column>) {
    forall i, j :: 0 <= i < j < |cols| ==> cols[i].name != cols[j].name
  }

  lemma {:induction false} UniqueNamesOnce(cols: seq<Column>, keep: Dtype -> bool, x: string)
    requires UniqueNames(cols)
    ensures multiset(NamesWhere(cols, keep))[x] <= 1
  {
    if cols != [] {
      UniqueNamesOnce(cols[1..], keep, x);
      assert forall j :: 0 <= j < |cols[1..]| ==> cols[1..][j].name != cols[0].name by {
        forall j | 0 <= j < |cols[1..]| ensures cols[1..][j].name != cols[0].name {
          assert cols[1..][j] == cols[j + 1];
        }
      }
      assert cols[0].name !in NamesWhere(cols[1..], keep);
    }
  }

  /** `s` without any occurrence of the names in `drop`, order kept. */
  function Omit<T>(s: seq<T>, drop: set<T>): seq<T> {
    if s == [] then [] else (if s[0] in drop then [] else [s[0]]) + Omit(s[1..], drop)
  }

  /** The position of the first occurrence of `x` in `s`. */
  function FirstIndex<T(==)>(s: seq<T>, x: T): (k: nat)
    requires x in s
    ensures k < |s| && s[k] == x && x !in s[..k]
  {
    if s[0] == x then 0 else 1 + FirstIndex(s[1..], x)
  }

  lemma MultisetWithout<T>(s: seq<T>, k: nat)
    requires k < |s|
    ensures multiset(s[..k] + s[k + 1..]) == multiset(s) - multiset{s[k]}
  {
    assert s == s[..k] + [s[k]] + s[k + 1..];
  }

  lemma SlicesAfterHead<T>(s: seq<T>, j: nat)
    requires j + 1 < |s|
    ensures [s[0]] + (s[1..][..j] + s[1..][j + 1..]) == s[..j + 1] + s[j + 2..]
  {
    assert s[..j + 1] == [s[0]] + s[1..][..j];
    assert s[j + 2..] == s[1..][j + 1..];
  }

  /** Python's `list.remove`: drops the first occurrence of `x`. */
  function RemoveFirst<T(==)>(s: seq<T>, x: T): (r: seq<T>)
    requires x in s
    ensures r == s[..FirstIndex(s, x)] + s[FirstIndex(s, x) + 1..]
    ensures multiset(r) == multiset(s) - multiset{x}
  {
    MultisetWithout(s, FirstIndex(s, x));
    if s[0] == x then
      assert s[..0] + s[1..] == s[1..];
      s[1..]
    else
      SlicesAfterHead(s, FirstIndex(s[1..], x));
      [s[0]] + RemoveFirst(s[1..], x)
  }

  /** Once the names in `drop` are ignored, removing one of them changes nothing: the order of the rest is kept. */
  lemma {:induction false} RemoveFirstKeepsOrder<T>(s: seq<T>, x: T, drop: set<T>)
    requires x in s && x in drop
    ensures Omit(RemoveFirst(s, x), drop) == Omit(s, drop)
  {
    if s[0] != x {
      RemoveFirstKeepsOrder(s[1..], x, drop);
      assert ([s[0]] + RemoveFirst(s[1..], x))[1..] == RemoveFirst(s[1..], x);
    }
  }

  /** The first occurrence is the only position holding `x` with no `x` before it. */
  lemma FirstIndexUnique<T>(s: seq<T>, x: T, k: nat)
    requires k < |s| && s[k] == x && x !in s[..k]
    ensures FirstIndex(s, x) == k
  {
    var f := FirstIndex(s, x);
    forall j | 0 <= j < k ensures s[j] != x {
      assert s[..k][j] == s[j];
    }
    forall j | 0 <= j < f ensures s[j] != x {
      assert s[..f][j] == s[j];
    }
  }

  lemma RemoveFirstAppend<T>(a: seq<T>, b: seq<T>, x: T)
    requires x in a
    ensures RemoveFirst(a + b, x) == RemoveFirst(a, x) + b
  {
    var k := FirstIndex(a, x);
    assert (a + b)[..k] == a[..k];
    FirstIndexUnique(a + b, x, k);
    assert (a + b)[k + 1..] == a[k + 1..] + b;
  }

  /** Moving `x` to the front changes nothing once the names in `drop` are ignored. */
  lemma PutFirstKeepsOrder<T>(s: seq<T>, x: T, drop: set<T>)
    requires x in s && x in drop
    ensures Omit([x] + RemoveFirst(s, x), drop) == Omit(s, drop)
  {
    RemoveFirstKeepsOrder(s, x, drop);
    assert ([x] + RemoveFirst(s, x))[1..] == RemoveFirst(s, x);
  }

  /**
   * `if x in names: names.remove(x)`: one occurrence of `x` leaves the
   * list, every other name stays, in its order.
   */
  method DropName(names: seq<string>, x: string) returns (r: seq<string>)
    ensures multiset(r) == multiset(names) - multiset{x}
    ensures forall y :: y != x ==> (y in r <==> y in names)
    ensures multiset(names)[x] <= 1 ==> x !in r
    ensures forall drop: set<string> :: x in drop ==> Omit(r, drop) == Omit(names, drop)
  {
    r := names;
    if x in r {
      forall drop: set<string> | x in drop ensures Omit(RemoveFirst(r, x), drop) == Omit(r, drop) {
        RemoveFirstKeepsOrder(r, x, drop);
      }
      RemoveFirstMembers(r, x);
      r := RemoveFirst(r, x);
    }
  }

  /**
   * `names.remove(x)` then `names.insert(0, x)` when `x` is present: the
   * same names, `x` first, the others in their order.
   */
  method MoveToFront(names: seq<string>, x: string) returns (r: seq<string>)
    ensures multiset(r) == multiset(names)
    ensures x in names <==> (r != [] && r[0] == x)
    ensures forall drop: set<string> :: x in drop ==> Omit(r, drop) == Omit(names, drop)
  {
    r := names;
    if x in r {
      forall drop: set<string> | x in drop ensures Omit([x] + RemoveFirst(r, x), drop) == Omit(r, drop) {
        PutFirstKeepsOrder(r, x, drop);
      }
      assert x in multiset(r);
      r := [x] + RemoveFirst(r, x);
    } else if r != [] {
      assert r[0] in multiset(r);
    }
  }

  /**
   * The numeric list (lines 56-62): `days_listed` is removed and `price`
   * moved to the front; the other numeric columns keep their frame order.
   */
  method NumericColumns(cols: seq<Column>) returns (numCols: seq<string>)
    ensures multiset(numCols) == multiset(NumericNames(cols)) - multiset{"days_listed"}
    ensures "price" in NumericNames(cols) <==> (numCols != [] && numCols[0] == "price")
    ensures Omit(numCols, {"price", "days_listed"}) == Omit(NumericNames(cols), {"price", "days_listed"})
    ensures UniqueNames(cols) ==> "days_listed" !in numCols
  {
    ghost var drop := {"price", "days_listed"};
    ghost var numeric := NumericNames(cols);
    numCols := NumericNames(cols);
    if UniqueNames(cols) {
      UniqueNamesOnce(cols, IsNumeric, "days_listed");
    }
    numCols := DropName(numCols, "days_listed");
    ghost var listed := numCols;
    assert "price" != "days_listed";
    assert "price" in listed <==> "price" in numeric;
    assert Omit(listed, drop) == Omit(numeric, drop);
    numCols := MoveToFront(numCols, "price");
    assert Omit(numCols, drop) == Omit(listed, drop);
  }

  /** A name listed once is gone after `remove`. */
  /** `list.remove` keeps every other name, and a name listed once is gone. */
  lemma RemoveFirstMembers<T>(s: seq<T>, x: T)
    requires x in s
    ensures forall y :: y != x ==> (y in RemoveFirst(s, x) <==> y in s)
    ensures multiset(s)[x] <= 1 ==> x !in RemoveFirst(s, x)
  {
    var r := RemoveFirst(s, x);
    forall y ensures y in r <==> y in multiset(r) {}
    forall y ensures y in s <==> y in multiset(s) {}
  }

  /**
   * `extend` then `if x in names: names.remove(x)`, when `x` is not among
   * the appended names: they stay at the end, and only one `x` goes.
   */
  lemma ExtendThenDrop<T>(names: seq<T>, added: seq<T>, x: T, r: seq<T>)
    requires x !in added
    requires r == if x in names + added then RemoveFirst(names + added, x) else names + added
    ensures
      && multiset(r) == multiset(names) + multiset(added) - multiset{x}
      && |r| >= |added| && r[|r| - |added|..] == added
      && Omit(r[..|r| - |added|], {x}) == Omit(names, {x})
      && (multiset(names)[x] <= 1 ==> x !in r)
  {
    if x in names + added {
      assert x in names;
      RemoveFirstAppend(names, added, x);
      RemoveFirstKeepsOrder(names, x, {x});
      RemoveFirstMembers(names, x);
      assert r[..|r| - |added|] == RemoveFirst(names, x);
    } else {
      assert x !in names;
      assert (names + added)[..|names|] == names;
    }
  }

  /**
   * The categorical list (lines 64-68): the object columns, then `is_4wd`
   * and `cylinders`, with `model_year` removed.
   */
  method CategoricalColumns(cols: seq<Column>) returns (catCols: seq<string>)
    ensures multiset(catCols) ==
      multiset(ObjectNames(cols)) + multiset{"is_4wd", "cylinders"} - multiset{"model_year"}
    ensures |catCols| >= 2 && catCols[|catCols| - 2..] == ["is_4wd", "cylinders"]
    ensures Omit(catCols[..|catCols| - 2], {"model_year"}) == Omit(ObjectNames(cols), {"model_year"})
    ensures UniqueNames(cols) ==> "model_year" !in catCols
  {
    catCols := ObjectNames(cols);
    catCols := catCols + ["is_4wd", "cylinders"];
    if "model_year" in catCols {
      catCols := RemoveFirst(catCols, "model_year");
    }
    ExtendThenDrop(ObjectNames(cols), ["is_4wd", "cylinders"], "model_year", catCols);
    if UniqueNames(cols) {
      UniqueNamesOnce(cols, IsObject, "model_year");
    }
  }
}
