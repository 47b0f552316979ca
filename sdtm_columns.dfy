/** What `get_data_sdtm` does to the extracted table: rename columns with the
    first-wins rename map, compute the column order from the metadata's
    `order_dct`, pad the missing columns with nulls, project onto that order,
    normalise the sort keys and sort the rows.

    The extractor only returns `rdfs:label` values, so every cell is a label or
    null: `Option<string>`. A table is positional (a list of column labels and
    rows of cells), as a pandas DataFrame is; the subset type `Table` says every
    row has one cell per column. */
module SdtmColumns {
  import opened Common
  import opened Sorting

  type Cell = Option<string>
  type Row = seq<Cell>

  datatype Frame = Frame(columns: seq<string>, rows: seq<Row>)

  predicate Rectangular(f: Frame)
  {
    forall i :: 0 <= i < |f.rows| ==> |f.rows[i]| == |f.columns|
  }

  type Table = f: Frame | Rectangular(f) witness Frame([], [])

  /** A Python dict, as its items in insertion order. */
  predicate DistinctKeys<V>(d: seq<(string, V)>)
  {
    forall i, j :: 0 <= i < j < |d| ==> d[i].0 != d[j].0
  }

  /** The first index of `c` in `cols` (pandas looks a label up by position). */
  function IndexOf(cols: seq<string>, c: string): (k: nat)
    requires c in cols
    ensures k < |cols| && cols[k] == c
    ensures forall j :: 0 <= j < k ==> cols[j] != c
  {
    if cols[0] == c then 0 else 1 + IndexOf(cols[1..], c)
  }

  // ---------------------------------------------------------------------------
  // The first-wins rename map
  // ---------------------------------------------------------------------------

  /** The rename map the loop builds from the metadata's `rename_dct` items:
      an item is kept when it is not an identity and its target is not already
      a value of the map. */
  function FirstWins(entries: seq<(string, string)>): (r: map<string, string>)
    ensures forall k :: k in r ==> r[k] != k
    ensures forall k :: k in r ==> (k, r[k]) in entries
    ensures forall k1, k2 :: k1 in r && k2 in r && k1 != k2 ==> r[k1] != r[k2]
  {
    if entries == [] then map[]
    else
      var acc := FirstWins(entries[..|entries| - 1]);
      var (key, item) := entries[|entries| - 1];
      if item in acc.Values || key == item then acc else acc[key := item]
  }

  /** The loop over `meta[0]['rename_dct'].items()`. */
  method BuildRenameDict(entries: seq<(string, string)>) returns (renameDct: map<string, string>)
    ensures renameDct == FirstWins(entries)
  {
    renameDct := map[];
    var i := 0;
    while i < |entries|
      invariant 0 <= i <= |entries|
      invariant renameDct == FirstWins(entries[..i])
    {
      assert entries[..i + 1][..i] == entries[..i];
      var (key, item) := entries[i];
      if item !in renameDct.Values {
        if key != item {
          renameDct := renameDct[key := item];
        }
      }
      i := i + 1;
    }
    assert entries[..i] == entries;
  }

  /** Some item before position `i` is in `r` with target `target`. */
  ghost predicate TakenBefore(entries: seq<(string, string)>, r: map<string, string>, i: int, target: string)
    requires 0 <= i <= |entries|
  {
    exists j :: 0 <= j < i && entries[j].0 in r && r[entries[j].0] == target
  }

  /** The item at position `i` survives exactly when it is not an identity and
      no earlier surviving item took its target. */
  ghost predicate FirstWinsAt(entries: seq<(string, string)>, r: map<string, string>, i: int)
    requires 0 <= i < |entries|
  {
    entries[i].0 in r <==> entries[i].0 != entries[i].1 && !TakenBefore(entries, r, i, entries[i].1)
  }

  /** Over a dict's items, a surviving item keeps its own target. */
  lemma FirstWinsValues(entries: seq<(string, string)>)
    requires DistinctKeys(entries)
    ensures forall i :: 0 <= i < |entries| && entries[i].0 in FirstWins(entries) ==>
              FirstWins(entries)[entries[i].0] == entries[i].1
  {
    var r := FirstWins(entries);
    forall i | 0 <= i < |entries| && entries[i].0 in r
      ensures r[entries[i].0] == entries[i].1
    {
      var k := entries[i].0;
      var m :| 0 <= m < |entries| && entries[m] == (k, r[k]);
      assert m == i;
    }
  }

  /** First wins: over a dict's items, every item survives exactly when it is
      not an identity and no EARLIER surviving item has the same target. */
  lemma {:induction false} FirstWinsKeeps(entries: seq<(string, string)>)
    requires DistinctKeys(entries)
    ensures forall i :: 0 <= i < |entries| ==> FirstWinsAt(entries, FirstWins(entries), i)
  {
    if entries != [] {
      var n := |entries| - 1;
      var p := entries[..n];
      assert DistinctKeys(p);
      FirstWinsKeeps(p);
      FirstWinsStep(entries);
    }
  }

  /** The inductive step of `FirstWinsKeeps`: adding the last item. */
  lemma FirstWinsStep(entries: seq<(string, string)>)
    requires DistinctKeys(entries) && entries != []
    requires var p := entries[..|entries| - 1];
             forall i :: 0 <= i < |p| ==> FirstWinsAt(p, FirstWins(p), i)
    ensures forall i :: 0 <= i < |entries| ==> FirstWinsAt(entries, FirstWins(entries), i)
  {
    var n := |entries| - 1;
    var p := entries[..n];
    var (key, item) := entries[n];
    var r, rp := FirstWins(entries), FirstWins(p);
    assert key !in rp;
    assert forall j :: 0 <= j < n ==>
             && entries[j] == p[j]
             && (p[j].0 in r <==> p[j].0 in rp)
             && (p[j].0 in rp ==> r[p[j].0] == rp[p[j].0]);
    forall i | 0 <= i < n
      ensures FirstWinsAt(entries, r, i)
    {
      assert FirstWinsAt(p, rp, i);
      assert TakenBefore(entries, r, i, entries[i].1) <==> TakenBefore(p, rp, i, p[i].1);
    }
    assert TakenBefore(entries, r, n, item) <==> item in rp.Values by {
      if item in rp.Values {
        var k :| k in rp && rp[k] == item;
        var m :| 0 <= m < |p| && p[m] == (k, rp[k]);
        assert entries[m].0 in r && r[entries[m].0] == item;
      }
    }
  }

  /** `df.rename(rename_dct, axis=1)`: every column is renamed at once, by its
      original label; labels without an entry stay as they are. */
  function RenameColumns(t: Table, renames: map<string, string>): (r: Table)
    ensures r.rows == t.rows && |r.columns| == |t.columns|
    ensures forall i :: 0 <= i < |t.columns| && t.columns[i] in renames ==> r.columns[i] == renames[t.columns[i]]
    ensures forall i :: 0 <= i < |t.columns| && t.columns[i] !in renames ==> r.columns[i] == t.columns[i]
  {
    Frame(seq(|t.columns|, i requires 0 <= i < |t.columns| =>
                if t.columns[i] in renames then renames[t.columns[i]] else t.columns[i]),
          t.rows)
  }

  /** Renaming is not chained: with `A -> B` and `B -> C`, column A becomes B and
      column B becomes C. */
  lemma RenameColumnsSimultaneous(t: Table, renames: map<string, string>)
    ensures t.columns == ["A", "B"] && renames == map["A" := "B", "B" := "C"] ==>
              RenameColumns(t, renames).columns == ["B", "C"]
  {
  }

  /** Renaming keeps the labels distinct when the map is injective, as the
      first-wins map is, and no label left unrenamed is the target of an entry.
      Otherwise a rename can create a duplicate label. */
  lemma RenameKeepsDistinct(t: Table, renames: map<string, string>)
    requires forall i, j :: 0 <= i < j < |t.columns| ==> t.columns[i] != t.columns[j]
    requires forall k1, k2 :: k1 in renames && k2 in renames && k1 != k2 ==> renames[k1] != renames[k2]
    requires forall c :: c in t.columns && c !in renames ==> c !in renames.Values
    ensures var r := RenameColumns(t, renames);
            forall i, j :: 0 <= i < j < |r.columns| ==> r.columns[i] != r.columns[j]
  {
    var r := RenameColumns(t, renames);
    forall i, j | 0 <= i < j < |r.columns|
      ensures r.columns[i] != r.columns[j]
    {
      var a, b := t.columns[i], t.columns[j];
      if a in renames && b !in renames {
        assert renames[a] in renames.Values;
      } else if a !in renames && b in renames {
        assert renames[b] in renames.Values;
      }
    }
  }

  // ---------------------------------------------------------------------------
  // Column order
  // ---------------------------------------------------------------------------

  /** The metadata's `order_dct`: column name to declared order, or null. */
  type OrderDict = seq<(string, Option<int>)>

  const NONE_ORDER: int := 1000

  /** `_sorter`: a falsy order (null or 0) counts as 1000. Its `none_count`
      counter is reset on every call, so every falsy order is exactly 1000; a
      declared non-zero order is used as it is. */
  function Effective(order: Option<int>): (rank: int)
    ensures rank != 0
    ensures order.Some? && order.value != 0 ==> rank == order.value
    ensures order.None? || order.value == 0 ==> rank == NONE_ORDER
  {
    if order.None? || order.value == 0 then NONE_ORDER else order.value
  }

  /** The rank of an item: its effective order, then its name. */
  function RankOf(e: (string, Option<int>)): (int, string)
  {
    (Effective(e.1), e.0)
  }

  predicate RankLeq(a: (int, string), b: (int, string))
  {
    a.0 < b.0 || (a.0 == b.0 && StrLeq(a.1, b.1))
  }

  function NameOf(e: (string, Option<int>)): string
  {
    e.0
  }

  function RankName(k: (int, string)): string
  {
    k.1
  }

  /** The ranks of the items in ascending order. The source sorts the items by
      name and then, stably, by effective order, which orders them by
      (effective order, name). */
  function SortedRanks(d: OrderDict): seq<(int, string)>
  {
    InsertionSort(MapSeq(d, RankOf), RankLeq)
  }

  /** `col_order`: the dict's keys, each as often as it is listed. */
  function ColOrder(d: OrderDict): (names: seq<string>)
    ensures multiset(names) == multiset(MapSeq(d, NameOf))
  {
    MapPermutation(SortedRanks(d), MapSeq(d, RankOf), RankName);
    assert MapSeq(MapSeq(d, RankOf), RankName) == MapSeq(d, NameOf);
    MapSeq(SortedRanks(d), RankName)
  }

  lemma RankLeqTotalOrder()
    ensures TotalPreorder(RankLeq)
    ensures forall a, b :: RankLeq(a, b) && RankLeq(b, a) ==> a == b
  {
    forall a, b ensures RankLeq(a, b) || RankLeq(b, a) {
      StrLeqTotal(a.1, b.1);
    }
    forall a, b, c | RankLeq(a, b) && RankLeq(b, c) ensures RankLeq(a, c) {
      if a.0 == b.0 == c.0 {
        StrLeqTrans(a.1, b.1, c.1);
      }
    }
    forall a, b | RankLeq(a, b) && RankLeq(b, a) ensures a == b {
      StrLeqAntisym(a.1, b.1);
    }
  }

  /** `col_order` lists the dict's keys ranked ascending by
      (effective order, name). */
  lemma ColOrderSpec(d: OrderDict)
    ensures |SortedRanks(d)| == |d|
    ensures forall i :: 0 <= i < |d| ==> ColOrder(d)[i] == SortedRanks(d)[i].1
    ensures forall i, j :: 0 <= i < j < |d| ==> RankLeq(SortedRanks(d)[i], SortedRanks(d)[j])
    ensures multiset(SortedRanks(d)) == multiset(MapSeq(d, RankOf))
  {
    RankLeqTotalOrder();
    InsertionSortSorted(MapSeq(d, RankOf), RankLeq);
  }

  /** The order in which the dict enumerates its items does not matter: ties
      are broken by name, never by encounter order. */
  lemma ColOrderDeterministic(d1: OrderDict, d2: OrderDict)
    requires multiset(d1) == multiset(d2)
    ensures ColOrder(d1) == ColOrder(d2)
  {
    RankLeqTotalOrder();
    InsertionSortSorted(MapSeq(d1, RankOf), RankLeq);
    InsertionSortSorted(MapSeq(d2, RankOf), RankLeq);
    MapPermutation(d1, d2, RankOf);
    SortedUnique(SortedRanks(d1), SortedRanks(d2), RankLeq);
  }

  /** The DM fixture's order dict: TC3 has no order, TC4 order 2, TC5 order 3. */
  const EXAMPLE_ORDER: OrderDict := [("TC3", None), ("TC4", Some(2)), ("TC5", Some(3))]

  lemma ExampleSort()
    ensures InsertionSort([(1000, "TC3"), (2, "TC4"), (3, "TC5")], RankLeq) == [(2, "TC4"), (3, "TC5"), (1000, "TC3")]
  {
    var a, b, c := (1000, "TC3"), (2, "TC4"), (3, "TC5");
    assert [a, b, c][0] == a && [a, b, c][1..] == [b, c];
    ExampleSortTail();
    ExampleInsertLast();
  }

  /** The two ranked columns are already in order. */
  lemma ExampleSortTail()
    ensures InsertionSort([(2, "TC4"), (3, "TC5")], RankLeq) == [(2, "TC4"), (3, "TC5")]
  {
    var b, c := (2, "TC4"), (3, "TC5");
    assert [b, c][0] == b && [b, c][1..] == [c];
    assert InsertionSort([c], RankLeq) == [c];
    assert RankLeq(b, c);
  }

  /** The unranked column goes after both ranked ones. */
  lemma ExampleInsertLast()
    ensures Insert((1000, "TC3"), [(2, "TC4"), (3, "TC5")], RankLeq) == [(2, "TC4"), (3, "TC5"), (1000, "TC3")]
  {
    var a, b, c := (1000, "TC3"), (2, "TC4"), (3, "TC5");
    assert [b, c][0] == b && [b, c][1..] == [c];
    assert !RankLeq(a, c) && !RankLeq(a, b);
    assert [c][0] == c;
    assert Insert(a, [c], RankLeq) == [c, a];
  }


  lemma ExampleRanks()
    ensures SortedRanks(EXAMPLE_ORDER) == [(2, "TC4"), (3, "TC5"), (1000, "TC3")]
  {
    var ranks := MapSeq(EXAMPLE_ORDER, RankOf);
    assert ranks == [(1000, "TC3"), (2, "TC4"), (3, "TC5")];
    ExampleSort();
  }

  /** The columns with an order come first, ascending; the unordered one last. */
  lemma ColOrderExample()
    ensures ColOrder(EXAMPLE_ORDER) == ["TC4", "TC5", "TC3"]
  {
    ExampleRanks();
    var names := ColOrder(EXAMPLE_ORDER);
    assert names[0] == "TC4" && names[1] == "TC5" && names[2] == "TC3";
  }

  // ---------------------------------------------------------------------------
  // Padding and projection
  // ---------------------------------------------------------------------------

  /** The column labels after `for col in col_order: if col not in df.columns:
      df[col] = None`. */
  function AddMissing(columns: seq<string>, order: seq<string>): (r: seq<string>)
    ensures |r| >= |columns| && r[..|columns|] == columns
    ensures forall c :: c in order ==> c in r
    ensures forall c :: c in r ==> c in columns || c in order
    ensures forall i, j :: 0 <= i < j < |r| && |columns| <= j ==> r[i] != r[j]
  {
    if order == [] then columns
    else
      var acc := AddMissing(columns, order[..|order| - 1]);
      var col := order[|order| - 1];
      assert order == order[..|order| - 1] + [col];
      if col in acc then acc
      else
        assert (acc + [col])[..|columns|] == acc[..|columns|];
        acc + [col]
  }

  function Nulls(n: nat): (r: seq<Cell>)
    ensures |r| == n && forall i :: 0 <= i < n ==> r[i] == None
  {
    seq(n, i => None)
  }

  /** The table after the padding loop: the new columns are appended, null in
      every row. */
  function Padded(t: Table, order: seq<string>): (r: Table)
    ensures r.columns == AddMissing(t.columns, order) && |r.rows| == |t.rows|
  {
    var cols := AddMissing(t.columns, order);
    var pad := Nulls(|cols| - |t.columns|);
    var rows := seq(|t.rows|, i requires 0 <= i < |t.rows| => t.rows[i] + pad);
    assert forall i :: 0 <= i < |rows| ==> |rows[i]| == |t.rows[i]| + |pad|;
    Frame(cols, rows)
  }

  /** The padding loop, one `df[col] = None` at a time. */
  method PadColumns(t: Table, order: seq<string>) returns (r: Table)
    ensures r == Padded(t, order)
  {
    r := t;
    var i := 0;
    assert AddMissing(t.columns, order[..0]) == t.columns;
    assert forall k :: 0 <= k < |t.rows| ==> t.rows[k] + Nulls(0) == t.rows[k];
    while i < |order|
      invariant 0 <= i <= |order|
      invariant r == Padded(t, order[..i])
    {
      var col := order[i];
      PaddedStep(t, order, i);
      if col !in r.columns {
        var rows := seq(|r.rows|, k requires 0 <= k < |r.rows| => r.rows[k] + [None]);
        r := Frame(r.columns + [col], rows);
      }
      i := i + 1;
    }
    assert order[..i] == order;
  }

  /** One turn of the padding loop: a column already present changes nothing,
      a missing one is appended with a null in every row. */
  lemma PaddedStep(t: Table, order: seq<string>, i: nat)
    requires i < |order|
    ensures var r := Padded(t, order[..i]);
            Padded(t, order[..i + 1]) ==
            if order[i] in r.columns then r
            else Frame(r.columns + [order[i]], seq(|r.rows|, k requires 0 <= k < |r.rows| => r.rows[k] + [None]))
  {
    assert order[..i + 1][..i] == order[..i];
    var r := Padded(t, order[..i]);
    var r' := Padded(t, order[..i + 1]);
    if order[i] !in r.columns {
      var added := |r.columns| - |t.columns|;
      forall k | 0 <= k < |r.rows|
        ensures r'.rows[k] == r.rows[k] + [None]
      {
        assert Nulls(added) + [None] == Nulls(added + 1);
      }
    }
  }


  /** `df[col_order]` (each label taken at its first position). */
  function Project(t: Table, order: seq<string>): (r: Table)
    requires forall c :: c in order ==> c in t.columns
    ensures r.columns == order && |r.rows| == |t.rows|
  {
    Frame(order, seq(|t.rows|, i requires 0 <= i < |t.rows| =>
                       seq(|order|, j requires 0 <= j < |order| => t.rows[i][IndexOf(t.columns, order[j])])))
  }

  /** After padding and projection the columns are exactly `order`; a column
      the extraction produced keeps its cells, any other column is null in
      every row; extracted columns outside `order` are gone; no row is added
      or lost. */
  lemma ProjectPadded(t: Table, order: seq<string>)
    ensures forall c :: c in order ==> c in Padded(t, order).columns
    ensures var p := Project(Padded(t, order), order);
            && p.columns == order
            && |p.rows| == |t.rows|
            && (forall i, j :: 0 <= i < |t.rows| && 0 <= j < |order| && order[j] in t.columns ==>
                  p.rows[i][j] == t.rows[i][IndexOf(t.columns, order[j])])
            && (forall i, j :: 0 <= i < |t.rows| && 0 <= j < |order| && order[j] !in t.columns ==>
                  p.rows[i][j] == None)
  {
    var padded := Padded(t, order);
    var p := Project(padded, order);
    var n := |t.columns|;
    forall i, j | 0 <= i < |t.rows| && 0 <= j < |order|
      ensures order[j] in t.columns ==> p.rows[i][j] == t.rows[i][IndexOf(t.columns, order[j])]
      ensures order[j] !in t.columns ==> p.rows[i][j] == None
    {
      var k := IndexOf(padded.columns, order[j]);
      assert p.rows[i][j] == padded.rows[i][k];
      assert padded.rows[i] == t.rows[i] + Nulls(|padded.columns| - n);
      if order[j] in t.columns {
        var m := IndexOf(t.columns, order[j]);
        assert padded.columns[m] == order[j];
        assert k == m;
      } else {
        assert k >= n;
      }
    }
  }

  // ---------------------------------------------------------------------------
  // Sort keys
  // ---------------------------------------------------------------------------

  /** The metadata's `sorting` value: a list, a string, or anything else. */
  datatype SortSpec = SortList(keys: seq<string>) | SortText(text: string) | SortOther

  /** The normalisation of `meta[0]['sorting']` into `l_sorting`. A falsy value
      (an empty list or string) gives no keys. */
  function SortKeys(spec: SortSpec): (keys: seq<string>)
    ensures spec.SortList? ==> keys == spec.keys
    ensures spec.SortText? && spec.text != "" ==>
              Join(keys, ',') == spec.text && forall i :: 0 <= i < |keys| ==> ',' !in keys[i]
    ensures spec.SortText? && spec.text != "" && ',' !in spec.text ==> keys == [spec.text]
    ensures spec.SortOther? || spec == SortText("") ==> keys == []
  {
    match spec
    case SortList(l) => l
    case SortText(s) =>
      if s == "" then []
      else if ',' in s then
        JoinSplit(s, ',');
        Split(s, ',')
      else [s]
    case SortOther => []
  }

  /** The loop that keeps the sort keys present among the output columns and
      sets the others aside (they are only reported). */
  method SelectSortKeys(keys: seq<string>, columns: seq<string>) returns (sorting: seq<string>, excluded: seq<string>)
    ensures sorting == KeepIn(keys, columns)
    ensures excluded == Without(keys, columns)
    ensures Subsequence(sorting, keys)
    ensures forall k :: k in keys ==> (k in sorting <==> k in columns) && (k in excluded <==> k !in columns)
  {
    sorting, excluded := [], [];
    var i := 0;
    while i < |keys|
      invariant 0 <= i <= |keys|
      invariant sorting == KeepIn(keys[..i], columns)
      invariant excluded == Without(keys[..i], columns)
    {
      var col := keys[i];
      FilterSnoc(keys, i, x => x in columns);
      FilterSnoc(keys, i, x => x !in columns);
      if col in columns {
        sorting := sorting + [col];
      } else {
        excluded := excluded + [col];
      }
      i := i + 1;
    }
    assert keys[..i] == keys;
    FilterSubsequence(keys, x => x in columns);
  }

  // ---------------------------------------------------------------------------
  // Row sort
  // ---------------------------------------------------------------------------

  /** Ascending order of one cell: labels by Python string order, null last. */
  predicate CellLeq(a: Cell, b: Cell)
  {
    match a
    case None => b.None?
    case Some(x) => b.None? || StrLeq(x, b.value)
  }

  function KeyCell(row: Row, k: nat): Cell
  {
    if k < |row| then row[k] else None
  }

  /** Lexicographic order of two rows on the key columns `idx`. */
  predicate RowLeq(idx: seq<nat>, a: Row, b: Row)
  {
    if idx == [] then true
    else
      var x, y := KeyCell(a, idx[0]), KeyCell(b, idx[0]);
      if x == y then RowLeq(idx[1..], a, b) else CellLeq(x, y)
  }

  function RowOrder(idx: seq<nat>): (Row, Row) -> bool
  {
    (a, b) => RowLeq(idx, a, b)
  }

  lemma CellLeqTotalOrder(a: Cell, b: Cell, c: Cell)
    ensures CellLeq(a, b) || CellLeq(b, a)
    ensures CellLeq(a, b) && CellLeq(b, c) ==> CellLeq(a, c)
    ensures CellLeq(a, b) && CellLeq(b, a) ==> a == b
  {
    if a.Some? && b.Some? {
      StrLeqTotal(a.value, b.value);
      if CellLeq(a, b) && CellLeq(b, a) {
        StrLeqAntisym(a.value, b.value);
      }
      if c.Some? && CellLeq(a, b) && CellLeq(b, c) {
        StrLeqTrans(a.value, b.value, c.value);
      }
    }
  }

  lemma {:induction false} RowLeqTotal(idx: seq<nat>, a: Row, b: Row)
    ensures RowLeq(idx, a, b) || RowLeq(idx, b, a)
  {
    if idx != [] {
      var x, y := KeyCell(a, idx[0]), KeyCell(b, idx[0]);
      CellLeqTotalOrder(x, y, y);
      RowLeqTotal(idx[1..], a, b);
    }
  }

  lemma {:induction false} RowLeqTrans(idx: seq<nat>, a: Row, b: Row, c: Row)
    requires RowLeq(idx, a, b) && RowLeq(idx, b, c)
    ensures RowLeq(idx, a, c)
  {
    if idx != [] {
      var x, y, z := KeyCell(a, idx[0]), KeyCell(b, idx[0]), KeyCell(c, idx[0]);
      CellLeqTotalOrder(x, y, z);
      CellLeqTotalOrder(y, x, z);
      if x == y == z {
        RowLeqTrans(idx[1..], a, b, c);
      }
    }
  }

  lemma RowOrderTotalPreorder(idx: seq<nat>)
    ensures TotalPreorder(RowOrder(idx))
  {
    var leq := RowOrder(idx);
    forall a, b ensures leq(a, b) || leq(b, a) {
      RowLeqTotal(idx, a, b);
    }
    forall a, b, c | leq(a, b) && leq(b, c) ensures leq(a, c) {
      RowLeqTrans(idx, a, b, c);
    }
  }

  /** The positions of the sort keys among the columns. */
  function KeyIndices(columns: seq<string>, keys: seq<string>): (idx: seq<nat>)
    requires forall k :: k in keys ==> k in columns
    ensures |idx| == |keys|
    ensures forall i :: 0 <= i < |keys| ==> idx[i] < |columns| && columns[idx[i]] == keys[i]
  {
    seq(|keys|, i requires 0 <= i < |keys| => IndexOf(columns, keys[i]))
  }

  /** `df.sort_values(by=keys, ignore_index=True)`: the rows, permuted into
      ascending lexicographic order of the key columns. */
  function SortRows(t: Table, keys: seq<string>): (r: Table)
    requires forall k :: k in keys ==> k in t.columns
    ensures r.columns == t.columns
    ensures multiset(r.rows) == multiset(t.rows)
    ensures forall i, j :: 0 <= i < j < |r.rows| ==> RowLeq(KeyIndices(t.columns, keys), r.rows[i], r.rows[j])
  {
    var idx := KeyIndices(t.columns, keys);
    RowOrderTotalPreorder(idx);
    InsertionSortSorted(t.rows, RowOrder(idx));
    var sorted := InsertionSort(t.rows, RowOrder(idx));
    assert forall i :: 0 <= i < |sorted| ==> sorted[i] in multiset(t.rows);
    Frame(t.columns, sorted)
  }
}
