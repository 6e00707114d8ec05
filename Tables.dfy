/** A CSV table as the data transforms see it once pandas has read it: a header
    of column names and rows of text cells. The operations are the pandas
    DataFrame operations the transforms use, with pandas' error behaviour:
    `drop(names, axis=1)`, `df[name]`, `insert(loc, name, values)` and
    `iloc[::-1]`. */
module Tables {
  import opened Wrappers

  datatype Table = Table(header: seq<string>, rows: seq<seq<string>>)

  /** The exceptions the modelled pandas and datetime calls raise. */
  datatype Error =
    | KeyNotFound(name: string)        // drop / [] of a name the header lacks (KeyError)
    | AlreadyExists(name: string)      // insert of a name the header has (ValueError)
    | Unparseable(row: nat, cell: string)  // a date or timestamp the parser refuses (ValueError)

  predicate DistinctLabels(h: seq<string>) {
    forall i, j :: 0 <= i < j < |h| ==> h[i] != h[j]
  }

  predicate Rectangular(t: Table) {
    forall i :: 0 <= i < |t.rows| ==> |t.rows[i]| == |t.header|
  }

  /** What every DataFrame read from a CSV satisfies: unique names (read_csv
      renames duplicates) and one cell per name in every row. */
  predicate WellFormed(t: Table) {
    DistinctLabels(t.header) && Rectangular(t)
  }

  /** Same number of rows, and every column of `dst` that is also a column of
      `src` holds, row by row, the cells it held in `src`. */
  predicate CarriesColumns(src: Table, dst: Table) {
    && Rectangular(src) && Rectangular(dst) && |dst.rows| == |src.rows|
    && forall p, q, i {:trigger dst.rows[i][p], src.rows[i][q]} ::
         (0 <= p < |dst.header| && 0 <= q < |src.header| && 0 <= i < |src.rows| && dst.header[p] == src.header[q])
         ==> dst.rows[i][p] == src.rows[i][q]
  }

  /** Like CarriesColumns, with the rows of `dst` in the opposite order:
      row i of `dst` holds the cells of row n-1-i of `src`. */
  predicate MirrorsColumns(src: Table, dst: Table) {
    && Rectangular(src) && Rectangular(dst) && |dst.rows| == |src.rows|
    && forall p, q, i, j {:trigger dst.rows[i][p], src.rows[j][q]} ::
         (0 <= p < |dst.header| && 0 <= q < |src.header| && 0 <= i < |src.rows| && i + j + 1 == |src.rows|
          && dst.header[p] == src.header[q])
         ==> dst.rows[i][p] == src.rows[j][q]
  }

  /** One cell of MirrorsColumns. */
  lemma MirroredCell(src: Table, dst: Table, p: nat, q: nat, i: nat)
    requires MirrorsColumns(src, dst)
    requires p < |dst.header| && q < |src.header| && i < |src.rows| && dst.header[p] == src.header[q]
    ensures dst.rows[i][p] == src.rows[|src.rows| - 1 - i][q]
  {
    var j := |src.rows| - 1 - i;
    assert dst.rows[i][p] == src.rows[j][q];
  }

  /** A stretch of output columns named like input columns `shift` places
      further on holds, in row i, those cells of row n-1-i. */
  lemma MirroredRun(src: Table, dst: Table, i: nat, lo: nat, hi: nat, shift: nat)
    requires MirrorsColumns(src, dst) && i < |src.rows|
    requires hi <= |dst.header| && hi + shift <= |src.header|
    requires forall k :: lo <= k < hi ==> dst.header[k] == src.header[k + shift]
    ensures forall k :: lo <= k < hi ==> dst.rows[i][k] == src.rows[|src.rows| - 1 - i][k + shift]
  {
    forall k | lo <= k < hi ensures dst.rows[i][k] == src.rows[|src.rows| - 1 - i][k + shift] {
      MirroredCell(src, dst, k, k + shift, i);
    }
  }

  /** Carrying columns composes, as long as every column the two ends share
      passes through the middle table. */
  lemma CarriesTransitive(a: Table, b: Table, c: Table)
    requires CarriesColumns(a, b) && CarriesColumns(b, c)
    requires forall x :: x in c.header && x in a.header ==> x in b.header
    ensures CarriesColumns(a, c)
  {
    forall p, q, i | 0 <= p < |c.header| && 0 <= q < |a.header| && 0 <= i < |a.rows| && c.header[p] == a.header[q]
      ensures c.rows[i][p] == a.rows[i][q]
    {
      assert c.header[p] in b.header;
      var r :| 0 <= r < |b.header| && b.header[r] == c.header[p];
      assert c.rows[i][p] == b.rows[i][r];
    }
  }

  /** Reversing the rows of a table that carries the columns of `a` mirrors
      them. */
  lemma ReverseMirrors(a: Table, b: Table)
    requires CarriesColumns(a, b)
    ensures MirrorsColumns(a, ReverseRows(b))
  {
    var r := ReverseRows(b);
    forall p, q, i, j | 0 <= p < |r.header| && 0 <= q < |a.header| && 0 <= i < |a.rows| && i + j + 1 == |a.rows|
      && r.header[p] == a.header[q]
      ensures r.rows[i][p] == a.rows[j][q]
    {
      assert r.rows[i] == b.rows[j];
      assert b.rows[j][p] == a.rows[j][q];
    }
  }

  /** Carrying and then mirroring is mirroring. */
  lemma CarriesThenMirrors(a: Table, b: Table, c: Table)
    requires CarriesColumns(a, b) && MirrorsColumns(b, c)
    requires forall x :: x in c.header && x in a.header ==> x in b.header
    ensures MirrorsColumns(a, c)
  {
    forall p, q, i, j | 0 <= p < |c.header| && 0 <= q < |a.header| && 0 <= i < |a.rows| && i + j + 1 == |a.rows|
      && c.header[p] == a.header[q]
      ensures c.rows[i][p] == a.rows[j][q]
    {
      assert c.header[p] in b.header;
      var r :| 0 <= r < |b.header| && b.header[r] == c.header[p];
      assert c.rows[i][p] == b.rows[j][r];
      assert b.rows[j][r] == a.rows[j][q];
    }
  }

  function IndexOf(h: seq<string>, name: string): (r: Option<nat>)
    ensures r.None? <==> name !in h
    ensures r.Some? ==> r.value < |h| && h[r.value] == name
  {
    if |h| == 0 then None
    else if h[|h| - 1] == name then Some(|h| - 1)
    else
      var r := IndexOf(h[..|h| - 1], name);
      assert h == h[..|h| - 1] + [h[|h| - 1]];
      r
  }

  /** The positions from `j` on whose column name is not one of `names`, in
      increasing order: the columns that survive a drop of `names`. */
  function KeptPositions(h: seq<string>, names: seq<string>, j: nat): (ps: seq<nat>)
    requires j <= |h|
    ensures forall k :: 0 <= k < |ps| ==> j <= ps[k] < |h| && h[ps[k]] !in names
    ensures forall q :: j <= q < |h| && h[q] !in names ==> q in ps
    ensures forall a, b :: 0 <= a < b < |ps| ==> ps[a] < ps[b]
    decreases |h| - j
  {
    if j == |h| then []
    else if h[j] in names then KeptPositions(h, names, j + 1)
    else [j] + KeptPositions(h, names, j + 1)
  }

  /** The cells of `r` at positions `ps`, in that order. */
  function Pick(r: seq<string>, ps: seq<nat>): (c: seq<string>)
    requires forall k :: 0 <= k < |ps| ==> ps[k] < |r|
    ensures |c| == |ps| && forall k :: 0 <= k < |ps| ==> c[k] == r[ps[k]]
  {
    seq(|ps|, k requires 0 <= k < |ps| => r[ps[k]])
  }

  /** The names of `h` that are not among `names`, in their order. */
  function Without(h: seq<string>, names: seq<string>): seq<string> {
    if |h| == 0 then []
    else if h[0] in names then Without(h[1..], names)
    else [h[0]] + Without(h[1..], names)
  }

  /** A name survives the filter exactly when it is in `h` and not among
      `names`. */
  lemma {:induction false} WithoutMembers(h: seq<string>, names: seq<string>)
    ensures forall x :: x in Without(h, names) <==> x in h && x !in names
  {
    if |h| > 0 {
      WithoutMembers(h[1..], names);
      assert h == [h[0]] + h[1..];
    }
  }

  /** Filtering distributes over concatenation. */
  lemma {:induction false} WithoutConcat(a: seq<string>, b: seq<string>, names: seq<string>)
    ensures Without(a + b, names) == Without(a, names) + Without(b, names)
  {
    if |a| > 0 {
      WithoutConcat(a[1..], b, names);
      assert (a + b)[0] == a[0] && (a + b)[1..] == a[1..] + b;
      if a[0] !in names {
        assert Without(a + b, names) == [a[0]] + (Without(a[1..], names) + Without(b, names));
      }
    } else {
      assert a + b == b;
    }
  }

  /** Picking the kept positions from j on is filtering the names from j on. */
  lemma {:induction false} PickKept(h: seq<string>, names: seq<string>, j: nat)
    requires j <= |h|
    ensures Pick(h, KeptPositions(h, names, j)) == Without(h[j..], names)
    decreases |h| - j
  {
    if j < |h| {
      PickKept(h, names, j + 1);
      WithoutFrom(h, names, j);
      if h[j] !in names {
        PickCons(h, j, KeptPositions(h, names, j + 1));
      }
    }
  }

  /** One step of Without, from position j of `h`. */
  lemma WithoutFrom(h: seq<string>, names: seq<string>, j: nat)
    requires j < |h|
    ensures h[j] in names ==> Without(h[j..], names) == Without(h[j + 1..], names)
    ensures h[j] !in names ==> Without(h[j..], names) == [h[j]] + Without(h[j + 1..], names)
  {
    assert h[j..][0] == h[j] && h[j..][1..] == h[j + 1..];
  }

  /** Picking position j first puts h[j] first. */
  lemma PickCons(h: seq<string>, j: nat, ps: seq<nat>)
    requires j < |h| && forall k :: 0 <= k < |ps| ==> ps[k] < |h|
    ensures Pick(h, [j] + ps) == [h[j]] + Pick(h, ps)
  {
    var c, d := Pick(h, [j] + ps), [h[j]] + Pick(h, ps);
    forall k | 0 <= k < |c| ensures c[k] == d[k] {
      if k > 0 {
        assert ([j] + ps)[k] == ps[k - 1];
      }
    }
  }

  /** The first of `names` missing from `h`, if any. */
  function FirstMissing(h: seq<string>, names: seq<string>): (m: Option<string>)
    ensures m.None? <==> forall x :: x in names ==> x in h
    ensures m.Some? ==> m.value in names && m.value !in h
  {
    if |names| == 0 then None
    else if names[0] !in h then Some(names[0])
    else
      var m := FirstMissing(h, names[1..]);
      assert names == [names[0]] + names[1..];
      m
  }

  /** `df.drop(names, axis=1)`: KeyError unless every name is a column;
      otherwise the table without those columns. (What survives, and with
      which cells, is stated by DropColumnsMembers and DropColumnsKeeps.) */
  function DropColumns(t: Table, names: seq<string>): (r: Result<Table, Error>)
    requires WellFormed(t)
    ensures r.Failure? <==> exists x :: x in names && x !in t.header
    ensures r.Failure? ==> r.error.KeyNotFound? && r.error.name in names && r.error.name !in t.header
    ensures r.Success? ==> WellFormed(r.value) && |r.value.rows| == |t.rows|
  {
    match FirstMissing(t.header, names)
    case Some(missing) => Failure(KeyNotFound(missing))
    case None =>
      var h := t.header;
      var ps := KeptPositions(h, names, 0);
      var h' := Pick(h, ps);
      var rows := seq(|t.rows|, i requires 0 <= i < |t.rows| => Pick(t.rows[i], ps));
      assert DistinctLabels(h') by {
        forall a, b | 0 <= a < b < |h'| ensures h'[a] != h'[b] {
          assert ps[a] < ps[b];
        }
      }
      Success(Table(h', rows))
  }

  /** After a drop, the header is the old one with the dropped names
      filtered out, in the old order. */
  lemma DropColumnsHeader(t: Table, names: seq<string>)
    requires WellFormed(t) && DropColumns(t, names).Success?
    ensures DropColumns(t, names).value.header == Without(t.header, names)
  {
    PickKept(t.header, names, 0);
    assert t.header[0..] == t.header;
  }

  /** After a drop, a column is there exactly when it was there before and was
      not dropped. */
  lemma DropColumnsMembers(t: Table, names: seq<string>)
    requires WellFormed(t) && DropColumns(t, names).Success?
    ensures forall x :: x in DropColumns(t, names).value.header <==> x in t.header && x !in names
  {
    var h := t.header;
    var ps := KeptPositions(h, names, 0);
    var t' := DropColumns(t, names).value;
    assert t'.header == Pick(h, ps);
    forall x ensures x in t'.header <==> x in h && x !in names {
      if x in h && x !in names {
        var q :| 0 <= q < |h| && h[q] == x;
        assert q in ps;
        var k :| 0 <= k < |ps| && ps[k] == q;
        assert t'.header[k] == x;
      }
    }
  }

  /** After a drop, every surviving column keeps its cells. */
  lemma DropColumnsKeeps(t: Table, names: seq<string>)
    requires WellFormed(t) && DropColumns(t, names).Success?
    ensures CarriesColumns(t, DropColumns(t, names).value)
  {
    var h := t.header;
    var ps := KeptPositions(h, names, 0);
    var t' := DropColumns(t, names).value;
    assert t'.header == Pick(h, ps);
    forall p, q, i | 0 <= p < |t'.header| && 0 <= q < |h| && 0 <= i < |t.rows| && t'.header[p] == h[q]
      ensures t'.rows[i][p] == t.rows[i][q]
    {
      assert h[ps[p]] == h[q];
      assert ps[p] == q;
      assert t'.rows[i] == Pick(t.rows[i], ps);
    }
  }

  /** `ps` starts with the `n` consecutive positions `j`, `j + 1`, ... */
  predicate IsRun(ps: seq<nat>, j: nat, n: nat) {
    |ps| >= n && forall k :: 0 <= k < n ==> ps[k] == j + k
  }

  /** A stretch of kept names from `j` up to `m` gives a run of kept positions. */
  lemma KeptRun(h: seq<string>, names: seq<string>, j: nat, m: nat)
    requires j <= m <= |h|
    requires forall q :: j <= q < m ==> h[q] !in names
    ensures IsRun(KeptPositions(h, names, j), j, m - j)
  {
    var ps := KeptPositions(h, names, j);
    forall k | 0 <= k < m - j ensures k < |ps| && ps[k] == j + k {
      RunPosition(ps, j, m, k);
    }
    if j < m {
      RunPosition(ps, j, m, m - j - 1);
    }
  }

  /** In an increasing sequence of positions at or after `j` that holds every
      position from `j` up to `m`, the k-th element is `j + k`. */
  lemma {:induction false} RunPosition(ps: seq<nat>, j: nat, m: nat, k: nat)
    requires forall i :: 0 <= i < |ps| ==> j <= ps[i]
    requires forall a, b :: 0 <= a < b < |ps| ==> ps[a] < ps[b]
    requires forall q :: j <= q < m ==> q in ps
    requires k < m - j
    ensures k < |ps| && ps[k] == j + k
    decreases k
  {
    assert j + k in ps;
    var i :| 0 <= i < |ps| && ps[i] == j + k;
    if k > 0 {
      RunPosition(ps, j, m, k - 1);
      assert k <= i;
    }
  }

  /** Dropping columns leaves the leading columns before the first dropped
      one where they were. */
  lemma DropKeepsLeading(t: Table, names: seq<string>, m: nat)
    requires WellFormed(t) && DropColumns(t, names).Success?
    requires m <= |t.header| && forall q :: 0 <= q < m ==> t.header[q] !in names
    ensures |DropColumns(t, names).value.header| >= m
    ensures DropColumns(t, names).value.header[..m] == t.header[..m]
  {
    KeptRun(t.header, names, 0, m);
    assert DropColumns(t, names).value.header == Pick(t.header, KeptPositions(t.header, names, 0));
  }

  /** In a header of distinct names that starts with `a` and `b`, the names
      after those two are all the others. */
  lemma AfterFirstTwo(h: seq<string>, a: string, b: string)
    requires DistinctLabels(h) && |h| >= 2 && h[0] == a && h[1] == b
    ensures forall x :: x in h[2..] <==> x in h && x != a && x != b
  {
    forall x ensures x in h[2..] <==> x in h && x != a && x != b {
      if x in h[2..] {
        var p :| 2 <= p < |h| && h[p] == x;
        assert h[p] != h[0] && h[p] != h[1];
      }
      if x in h && x != a && x != b {
        var p :| 0 <= p < |h| && h[p] == x;
        assert h[p] == h[2..][p - 2];
      }
    }
  }

  /** `df[name]`: KeyError unless `name` is a column; otherwise that column's
      cells, top to bottom. */
  function Column(t: Table, name: string): (r: Result<seq<string>, Error>)
    requires WellFormed(t)
    ensures r.Failure? <==> name !in t.header
    ensures r.Failure? ==> r.error == KeyNotFound(name)
    ensures r.Success? ==> |r.value| == |t.rows|
    ensures r.Success? ==>
      (exists k :: 0 <= k < |t.header| && t.header[k] == name && (forall i :: 0 <= i < |t.rows| ==> r.value[i] == t.rows[i][k]))
  {
    match IndexOf(t.header, name)
    case None => Failure(KeyNotFound(name))
    case Some(k) => Success(seq(|t.rows|, i requires 0 <= i < |t.rows| => t.rows[i][k]))
  }
  /** A table whose rows are those of `t`, each with two new cells in front
      under two new names, carries every column of `t`. */
  lemma PrependCarries(t: Table, w: Table, a: string, b: string)
    requires WellFormed(t) && w.header == [a, b] + t.header && a !in t.header && b !in t.header
    requires |w.rows| == |t.rows|
    requires forall i :: 0 <= i < |t.rows| ==> |w.rows[i]| == |w.header| && w.rows[i][2..] == t.rows[i]
    ensures CarriesColumns(t, w)
  {
    forall p, q, i | 0 <= p < |w.header| && 0 <= q < |t.header| && 0 <= i < |t.rows| && w.header[p] == t.header[q]
      ensures w.rows[i][p] == t.rows[i][q]
    {
      assert p >= 2 && w.header[p] == t.header[p - 2];
      assert w.rows[i][p] == w.rows[i][2..][p - 2];
    }
  }

  /** The column `name` of a table that carries it from `src` holds the
      cells of that column in `src`. */
  lemma ColumnCarried(src: Table, dst: Table, name: string)
    requires WellFormed(src) && WellFormed(dst) && CarriesColumns(src, dst)
    requires name in src.header && name in dst.header
    ensures Column(dst, name).Success?
    ensures forall i :: 0 <= i < |src.rows| ==>
      Column(dst, name).value[i] == src.rows[i][IndexOf(src.header, name).value]
  {
    var q := IndexOf(src.header, name).value;
    var cells := Column(dst, name).value;
    var p :| 0 <= p < |dst.header| && dst.header[p] == name
      && (forall i :: 0 <= i < |dst.rows| ==> cells[i] == dst.rows[i][p]);
    forall i | 0 <= i < |src.rows| ensures cells[i] == src.rows[i][q] {
      assert dst.rows[i][p] == src.rows[i][q];
    }
  }


  /** `df.insert(loc, name, values)`: ValueError if `name` is already a
      column; otherwise `values` becomes the column at position `loc`. */
  function InsertColumn(t: Table, loc: nat, name: string, values: seq<string>): (r: Result<Table, Error>)
    requires WellFormed(t) && loc <= |t.header| && |values| == |t.rows|
    ensures r.Failure? <==> name in t.header
    ensures r.Failure? ==> r.error == AlreadyExists(name)
    ensures r.Success? ==> WellFormed(r.value) && |r.value.rows| == |t.rows|
    ensures r.Success? ==> |r.value.header| == |t.header| + 1 && r.value.header[loc] == name
    ensures r.Success? ==> r.value.header[..loc] == t.header[..loc] && r.value.header[loc + 1..] == t.header[loc..]
    ensures r.Success? ==> forall i :: 0 <= i < |t.rows| ==>
      (r.value.rows[i][loc] == values[i] &&
       r.value.rows[i][..loc] == t.rows[i][..loc] && r.value.rows[i][loc + 1..] == t.rows[i][loc..])
  {
    if name in t.header then Failure(AlreadyExists(name))
    else
      var h := t.header[..loc] + [name] + t.header[loc..];
      assert h[..loc] == t.header[..loc] && h[loc + 1..] == t.header[loc..];
      assert DistinctLabels(h) by {
        forall i, j | 0 <= i < j < |h| ensures h[i] != h[j] {
          if i < loc {
            assert h[i] == t.header[i];
          } else if i > loc {
            assert h[i] == t.header[i - 1];
          }
          if j < loc {
            assert h[j] == t.header[j];
          } else if j > loc {
            assert h[j] == t.header[j - 1];
          }
        }
      }
      var rows := seq(|t.rows|, i requires 0 <= i < |t.rows| => t.rows[i][..loc] + [values[i]] + t.rows[i][loc..]);
      assert forall i :: 0 <= i < |t.rows| ==>
        rows[i][..loc] == t.rows[i][..loc] && rows[i][loc + 1..] == t.rows[i][loc..];
      Success(Table(h, rows))
  }

  /** The rows in the opposite order: `df.iloc[::-1]`. */
  function Reversed<T>(s: seq<T>): (r: seq<T>)
    ensures |r| == |s|
    ensures forall i :: 0 <= i < |s| ==> r[i] == s[|s| - 1 - i]
  {
    if |s| == 0 then [] else Reversed(s[1..]) + [s[0]]
  }

  /** Reversing twice gives the rows back in their original order. */
  lemma ReversedTwice<T>(s: seq<T>)
    ensures Reversed(Reversed(s)) == s
  {
    assert forall i :: 0 <= i < |s| ==> Reversed(Reversed(s))[i] == s[i];
  }

  function ReverseRows(t: Table): (r: Table)
    ensures r.header == t.header && r.rows == Reversed(t.rows)
    ensures WellFormed(t) ==> WellFormed(r)
  {
    Table(t.header, Reversed(t.rows))
  }
}
