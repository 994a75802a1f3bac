/**
 * pandas' `df.groupby(key)[col].transform(lambda x: x.fillna(stat(x)))`:
 * rows are partitioned by the key column, the statistic is computed over the
 * present values of each partition, and only the missing cells of the
 * partition receive it. A row whose key is itself missing belongs to no
 * partition and keeps its value.
 */
module GroupBy {
  import opened Wrappers
  import opened Statistics

  /** The statistic a fill lambda computes over one partition. */
  datatype Statistic = MedianOf | FirstModeElseMedian | MeanOf

  function Apply(stat: Statistic, xs: seq<real>): (r: Option<real>)
    ensures r.Some? <==> xs != []
  {
    match stat
    case MedianOf => Median(xs)
    case FirstModeElseMedian => ModeElseMedian(xs)
    case MeanOf => Mean(xs)
  }

  /** The indices of the rows whose key is `k` and whose value is `v`. */
  ghost function RowsHolding<K>(keys: seq<Option<K>>, vals: seq<Option<real>>, k: K, v: real): set<int>
    requires |keys| == |vals|
  {
    set i | 0 <= i < |keys| && keys[i] == Some(k) && vals[i] == Some(v)
  }

  /** `RowsHolding` of a table whose first row is numbered `off`. */
  ghost function RowsFrom<K>(keys: seq<Option<K>>, vals: seq<Option<real>>, k: K, v: real, off: int): set<int>
    requires |keys| == |vals|
  {
    set i | 0 <= i < |keys| && keys[i] == Some(k) && vals[i] == Some(v) :: off + i
  }

  lemma RowsFromSplit<K>(keys: seq<Option<K>>, vals: seq<Option<real>>, k: K, v: real, off: int)
    requires |keys| == |vals| && keys != []
    ensures RowsFrom(keys, vals, k, v, off) ==
      (if keys[0] == Some(k) && vals[0] == Some(v) then {off} else {}) + RowsFrom(keys[1..], vals[1..], k, v, off + 1)
    ensures off !in RowsFrom(keys[1..], vals[1..], k, v, off + 1)
  {
    var tail := RowsFrom(keys[1..], vals[1..], k, v, off + 1);
    forall j | j in tail ensures j in RowsFrom(keys, vals, k, v, off) && j != off {
      var i :| 0 <= i < |keys[1..]| && keys[1..][i] == Some(k) && vals[1..][i] == Some(v) && j == off + 1 + i;
      assert keys[i + 1] == Some(k) && vals[i + 1] == Some(v) && j == off + (i + 1);
    }
    forall j | j in RowsFrom(keys, vals, k, v, off) && j != off ensures j in tail {
      var i :| 0 <= i < |keys| && keys[i] == Some(k) && vals[i] == Some(v) && j == off + i;
      assert keys[1..][i - 1] == Some(k) && vals[1..][i - 1] == Some(v) && j == off + 1 + (i - 1);
    }
    if keys[0] == Some(k) && vals[0] == Some(v) {
      assert off + 0 in RowsFrom(keys, vals, k, v, off);
    }
  }

  /** Renumbering the rows does not change how many of them hold `v`. */
  lemma {:induction false} RowsFromCard<K>(keys: seq<Option<K>>, vals: seq<Option<real>>, k: K, v: real, a: int, b: int)
    requires |keys| == |vals|
    ensures |RowsFrom(keys, vals, k, v, a)| == |RowsFrom(keys, vals, k, v, b)|
  {
    if keys != [] {
      RowsFromSplit(keys, vals, k, v, a);
      RowsFromSplit(keys, vals, k, v, b);
      RowsFromCard(keys[1..], vals[1..], k, v, a + 1, b + 1);
    }
  }

  /** The rows of a non-empty table holding `v` under key `k`: the first row, if it does, and those of the tail. */
  lemma RowsHoldingSplit<K>(keys: seq<Option<K>>, vals: seq<Option<real>>, k: K)
    requires |keys| == |vals| && keys != []
    ensures forall v :: (|RowsHolding(keys, vals, k, v)| ==
      (if keys[0] == Some(k) && vals[0] == Some(v) then 1 else 0) + |RowsHolding(keys[1..], vals[1..], k, v)|)
  {
    forall v
      ensures |RowsHolding(keys, vals, k, v)| ==
        (if keys[0] == Some(k) && vals[0] == Some(v) then 1 else 0) + |RowsHolding(keys[1..], vals[1..], k, v)|
    {
      assert RowsHolding(keys, vals, k, v) == RowsFrom(keys, vals, k, v, 0);
      assert RowsHolding(keys[1..], vals[1..], k, v) == RowsFrom(keys[1..], vals[1..], k, v, 0);
      RowsFromSplit(keys, vals, k, v, 0);
      RowsFromCard(keys[1..], vals[1..], k, v, 1, 0);
    }
  }

  /**
   * The present values of column `vals` in the rows whose key is `k`, in row
   * order: each value as often as rows of the partition hold it.
   */
  function GroupPresent<K(==)>(keys: seq<Option<K>>, vals: seq<Option<real>>, k: K): (r: seq<real>)
    requires |keys| == |vals|
    ensures forall v :: v in r <==> exists i :: 0 <= i < |keys| && keys[i] == Some(k) && vals[i] == Some(v)
    ensures forall v {:trigger RowsHolding(keys, vals, k, v)} :: multiset(r)[v] == |RowsHolding(keys, vals, k, v)|
  {
    if keys == [] then
      []
    else
      var rest := GroupPresent(keys[1..], vals[1..], k);
      assert forall i :: 1 <= i < |keys| ==> keys[i] == keys[1..][i - 1] && vals[i] == vals[1..][i - 1];
      RowsHoldingSplit(keys, vals, k);
      (if keys[0] == Some(k) && vals[0].Some? then [vals[0].value] else []) + rest
  }

  /** A partition has a present value exactly when some row of it has one. */
  lemma GroupPresentEmpty<K>(keys: seq<Option<K>>, vals: seq<Option<real>>, k: K)
    requires |keys| == |vals|
    ensures GroupPresent(keys, vals, k) == [] <==>
      forall i :: 0 <= i < |keys| && keys[i] == Some(k) ==> vals[i].None?
  {
    var g := GroupPresent(keys, vals, k);
    if g != [] {
      assert g[0] in g;
    }
  }

  /** The transformed column: each missing cell of a keyed row gets its partition's statistic. */
  function FillByGroup<K(==)>(keys: seq<Option<K>>, vals: seq<Option<real>>, stat: Statistic): (r: seq<Option<real>>)
    requires |keys| == |vals|
    ensures |r| == |vals|
    ensures forall i :: 0 <= i < |vals| && (vals[i].Some? || keys[i].None?) ==> r[i] == vals[i]
    ensures forall i :: 0 <= i < |vals| && vals[i].None? && keys[i].Some? ==>
      r[i] == Apply(stat, GroupPresent(keys, vals, keys[i].value))
  {
    seq(|vals|, i requires 0 <= i < |vals| =>
      if vals[i].None? && keys[i].Some? then Apply(stat, GroupPresent(keys, vals, keys[i].value)) else vals[i])
  }

  /**
   * Completeness: a keyed row is present after the fill exactly when some
   * row of its partition was present before it.
   */
  lemma FillCompletes<K>(keys: seq<Option<K>>, vals: seq<Option<real>>, stat: Statistic, i: nat)
    requires |keys| == |vals| && i < |vals| && keys[i].Some?
    ensures FillByGroup(keys, vals, stat)[i].Some? <==>
      exists j :: 0 <= j < |vals| && keys[j] == keys[i] && vals[j].Some?
  {
    GroupPresentEmpty(keys, vals, keys[i].value);
  }

  /** A column with no missing cell is left as it is. */
  lemma FillNoMissing<K>(keys: seq<Option<K>>, vals: seq<Option<real>>, stat: Statistic)
    requires |keys| == |vals|
    requires forall i :: 0 <= i < |vals| ==> vals[i].Some?
    ensures FillByGroup(keys, vals, stat) == vals
  {
  }

  /**
   * Filling twice is filling once: a cell still missing after the fill lies in
   * a partition with no present value, and every cell of that partition is
   * still missing too.
   */
  lemma FillIdempotent<K>(keys: seq<Option<K>>, vals: seq<Option<real>>, stat: Statistic)
    requires |keys| == |vals|
    ensures FillByGroup(keys, FillByGroup(keys, vals, stat), stat) == FillByGroup(keys, vals, stat)
  {
    var once := FillByGroup(keys, vals, stat);
    var twice := FillByGroup(keys, once, stat);
    forall i | 0 <= i < |vals| && once[i].None? && keys[i].Some?
      ensures twice[i] == once[i]
    {
      var k := keys[i].value;
      GroupPresentEmpty(keys, vals, k);
      GroupPresentEmpty(keys, once, k);
      assert GroupPresent(keys, vals, k) == [];
      forall j | 0 <= j < |vals| && keys[j] == Some(k)
        ensures once[j].None?
      {
        assert vals[j].None?;
      }
      assert GroupPresent(keys, once, k) == [];
    }
  }
}
