/**
  `mktable(symbols, nrow, justification)`: lays a list of LaTeX symbols out
  column-major in a grid of `nrow` rows and returns a `center`/`tabular`
  block whose cells show each symbol's escaped name and its rendering.

  The source fills a dictionary keyed by `(row, col)` in a loop and then
  builds one padded string per row in a second loop; `BuildGrid` and
  `BuildRows` are those loops, `MkTable` runs them, and `Table` is the
  declarative description of the result that the lemmas are about.
 */
module Table {
  import opened Strings
  import opened Escape

  /** A grid position `(row, col)`, the dictionary key of the source. */
  type Key = (nat, nat)

  /** `(n % nrow > 0) * 1 + n // nrow`: the ceiling of `n / nrow`. */
  function NCol(n: nat, nrow: nat): (ncol: nat)
    requires nrow > 0
    ensures ncol * nrow >= n
    ensures (ncol - 1) * nrow < n
  {
    assert n == (n / nrow) * nrow + n % nrow;
    (if n % nrow > 0 then 1 else 0) + n / nrow
  }

  /** `'|'.join([justification] * ncol)`. */
  function ColumnSpec(justification: string, ncol: nat): string {
    Join("|", seq(ncol, _ => justification))
  }

  /** `col, row = divmod(i, nrow)`: where symbol `i` goes. */
  function Place(i: nat, nrow: nat): Key
    requires nrow > 0
  {
    (i % nrow, i / nrow)
  }

  /** `"\\texttt{%s} & $%s$" % (J(H(G(F(symbol)))), symbol)`. */
  function Cell(symbol: string): string {
    "\\texttt{" + Escaped(symbol) + "} & $" + symbol + "$"
  }

  /** The first `n` symbols have been stored: key `i` of the insertion order
      is where symbol `i` went, and its value is that symbol's cell. */
  ghost predicate Stored(symbols: seq<string>, nrow: nat, x: map<Key, string>, order: seq<Key>, n: nat)
    requires nrow > 0
  {
    n <= |symbols| && |order| == n &&
    forall i :: 0 <= i < n ==>
      order[i] == Place(i, nrow) && order[i] in x && x[order[i]] == Cell(symbols[i])
  }

  /** The keys of `x` are those of `order`, one entry per key. */
  ghost predicate SameKeys(x: map<Key, string>, order: seq<Key>) {
    (forall key :: key in x <==> key in order) && |x| == |order|
  }

  /** The dictionary `x` and its key insertion order once every symbol has
      been stored: nothing but those keys, and one entry per symbol. */
  ghost predicate IsGrid(symbols: seq<string>, nrow: nat, x: map<Key, string>, order: seq<Key>)
    requires nrow > 0
  {
    Stored(symbols, nrow, x, order, |symbols|) && SameKeys(x, order)
  }

  /** Every key in `order` is a key of `x`. */
  predicate KeysIn(x: map<Key, string>, order: seq<Key>) {
    forall i :: 0 <= i < |order| ==> order[i] in x
  }

  /** The cells `slice_keys(x, k)` joins: the values of the keys in row `k`,
      in the order the keys were inserted. */
  function RowCells(x: map<Key, string>, order: seq<Key>, k: nat): seq<string>
    requires KeysIn(x, order)
  {
    if |order| == 0 then []
    else
      var key := order[|order| - 1];
      var before := RowCells(x, order[..|order| - 1], k);
      if key.0 == k then before + [x[(k, key.1)]] else before
  }

  /** `slice_keys(x, k)`. */
  function SliceKeys(x: map<Key, string>, order: seq<Key>, k: nat): string
    requires KeysIn(x, order)
  {
    Join(" & ", RowCells(x, order, k))
  }

  /** `s + ' & ' * (ncol * 2 - s.count('$'))`. */
  function Pad(s: string, ncol: nat): string {
    s + Repeat(" & ", ncol * 2 - Count('$', s))
  }

  /** The final `'\n'.join([...])` around the column spec and the rows. */
  function Render(cc: string, rows: seq<string>): string {
    Join("\n", ["\\begin{center}",
                "\\begin{tabular}{" + cc + "}",
                Join("\\\\ \n", rows),
                "\\end{tabular}",
                "\\end{center}"])
  }

  // ---------------------------------------------------------------------
  // The declarative description of the table

  /** The cells of row `k` among the first `n` symbols, in symbol order. */
  function RowUpTo(symbols: seq<string>, nrow: nat, k: nat, n: nat): seq<string>
    requires nrow > 0 && n <= |symbols|
  {
    if n == 0 then []
    else RowUpTo(symbols, nrow, k, n - 1) + (if (n - 1) % nrow == k then [Cell(symbols[n - 1])] else [])
  }

  function RowOf(symbols: seq<string>, nrow: nat, k: nat): seq<string>
    requires nrow > 0
  {
    RowUpTo(symbols, nrow, k, |symbols|)
  }

  /** How many of `n` symbols fall in row `k`. */
  function RowLen(n: nat, nrow: nat, k: nat): nat
    requires nrow > 0
  {
    n / nrow + (if n % nrow > k then 1 else 0)
  }

  function RowText(symbols: seq<string>, nrow: nat, k: nat): string
    requires nrow > 0
  {
    Pad(Join(" & ", RowOf(symbols, nrow, k)), NCol(|symbols|, nrow))
  }

  function Rows(symbols: seq<string>, nrow: nat): seq<string>
    requires nrow > 0
  {
    seq(nrow, k requires 0 <= k < nrow => RowText(symbols, nrow, k))
  }

  /** What `mktable(symbols, nrow, justification)` returns. */
  function Table(symbols: seq<string>, nrow: nat, justification: string): string
    requires nrow > 0
  {
    Render(ColumnSpec(justification, NCol(|symbols|, nrow)), Rows(symbols, nrow))
  }

  // ---------------------------------------------------------------------
  // The two loops and the whole routine

  /** The first loop: `x[row, col] = cell` for every symbol, keeping the
      dictionary's key insertion order beside it. No key is stored twice. */
  method BuildGrid(symbols: seq<string>, nrow: nat) returns (x: map<Key, string>, order: seq<Key>)
    requires nrow > 0
    ensures IsGrid(symbols, nrow, x, order)
  {
    x, order := map[], [];
    var i := 0;
    while i < |symbols|
      invariant 0 <= i <= |symbols|
      invariant Stored(symbols, nrow, x, order, i) && SameKeys(x, order)
    {
      var key := Place(i, nrow);
      StoreStep(symbols, nrow, x, order, i);
      if key !in x {
        order := order + [key];
      }
      x := x[key := Cell(symbols[i])];
      i := i + 1;
    }
  }

  /** The second loop: one padded `slice_keys` string per row. */
  method BuildRows(x: map<Key, string>, order: seq<Key>, nrow: nat, ncol: nat) returns (rows: seq<string>)
    requires KeysIn(x, order)
    ensures |rows| == nrow
    ensures forall k :: 0 <= k < nrow ==> rows[k] == Pad(SliceKeys(x, order, k), ncol)
  {
    rows := [];
    var i := 0;
    while i < nrow
      invariant 0 <= i <= nrow && |rows| == i
      invariant forall k :: 0 <= k < i ==> rows[k] == Pad(SliceKeys(x, order, k), ncol)
    {
      var s := SliceKeys(x, order, i);
      s := s + Repeat(" & ", ncol * 2 - Count('$', s));
      rows := rows + [s];
      i := i + 1;
    }
  }

  /** `mktable` itself. */
  method MkTable(symbols: seq<string>, nrow: nat := 3, justification: string := "cc") returns (table: string)
    requires nrow > 0
    ensures table == Table(symbols, nrow, justification)
  {
    var ncol := NCol(|symbols|, nrow);
    var cc := ColumnSpec(justification, ncol);
    var x, order := BuildGrid(symbols, nrow);
    var rows := BuildRows(x, order, nrow, ncol);
    forall k | 0 <= k < nrow
      ensures rows[k] == RowText(symbols, nrow, k)
    {
      GridRowCells(symbols, nrow, x, order, k);
    }
    assert rows == Rows(symbols, nrow);
    table := Render(cc, rows);
  }

  // ---------------------------------------------------------------------
  // Placement

  lemma PlaceInjective(i: nat, j: nat, nrow: nat)
    requires nrow > 0 && i != j
    ensures Place(i, nrow) != Place(j, nrow)
  {
    assert i == (i / nrow) * nrow + i % nrow;
    assert j == (j / nrow) * nrow + j % nrow;
  }

  /** Storing symbol `i` adds a new key: no cell is overwritten. */
  lemma StoreStep(symbols: seq<string>, nrow: nat, x: map<Key, string>, order: seq<Key>, i: nat)
    requires nrow > 0 && i < |symbols|
    requires Stored(symbols, nrow, x, order, i) && SameKeys(x, order)
    ensures Place(i, nrow) !in x
    ensures Stored(symbols, nrow, x[Place(i, nrow) := Cell(symbols[i])], order + [Place(i, nrow)], i + 1)
    ensures SameKeys(x[Place(i, nrow) := Cell(symbols[i])], order + [Place(i, nrow)])
  {
    var key := Place(i, nrow);
    FreshPlace(order, i, nrow);
    AddFreshKey(x, order, key, Cell(symbols[i]));
    var x', order' := x[key := Cell(symbols[i])], order + [key];
    forall j | 0 <= j < i
      ensures order'[j] == Place(j, nrow) && order'[j] in x' && x'[order'[j]] == Cell(symbols[j])
    {
      StoredAt(symbols, nrow, x, order, i, j);
      assert order'[j] == order[j];
      assert order[j] != key;
      assert x'[order[j]] == x[order[j]];
    }
    assert order'[i] == key && x'[key] == Cell(symbols[i]);
  }

  /** One entry of `Stored`, spelled out. */
  lemma StoredAt(symbols: seq<string>, nrow: nat, x: map<Key, string>, order: seq<Key>, n: nat, j: nat)
    requires nrow > 0 && Stored(symbols, nrow, x, order, n) && j < n
    ensures j < |symbols| && j < |order|
    ensures order[j] == Place(j, nrow) && order[j] in x && x[order[j]] == Cell(symbols[j])
  {
  }

  lemma AddFreshKey(x: map<Key, string>, order: seq<Key>, key: Key, v: string)
    requires SameKeys(x, order) && key !in order
    ensures key !in x
    ensures SameKeys(x[key := v], order + [key])
  {
    forall k
      ensures k in x[key := v] <==> k in order + [key]
    {
    }
  }

  /** The place of symbol `i` is none of the places before it. */
  lemma FreshPlace(order: seq<Key>, i: nat, nrow: nat)
    requires nrow > 0 && |order| == i
    requires forall j :: 0 <= j < i ==> order[j] == Place(j, nrow)
    ensures Place(i, nrow) !in order
  {
    forall j | 0 <= j < i
      ensures order[j] != Place(i, nrow)
    {
      PlaceInjective(j, i, nrow);
    }
  }

  /** Symbol `i` goes to row `i mod nrow`, column `i div nrow`, the row is
      below `nrow` and the column below the column count. */
  lemma PlaceInGrid(i: nat, n: nat, nrow: nat)
    requires nrow > 0 && i < n
    ensures Place(i, nrow).0 < nrow
    ensures Place(i, nrow).1 < NCol(n, nrow)
    ensures Place(i, nrow).1 * nrow + Place(i, nrow).0 == i
  {
    var r, c := i % nrow, i / nrow;
    assert i == c * nrow + r;
    var ncol := NCol(n, nrow);
    if c >= ncol {
      MulMonotone(c, ncol, nrow);
    }
  }

  lemma MulMonotone(a: nat, b: nat, m: nat)
    requires a >= b
    ensures a * m >= b * m
  {
    var d: nat := a - b;
    assert a * m == d * m + b * m;
  }

  // ---------------------------------------------------------------------
  // The dictionary walk gives the declarative rows

  /** Walking the dictionary's keys in insertion order and keeping those of
      row `k` gives the cells of row `k` in symbol order. */
  lemma {:induction false} GridRowCellsUpTo(symbols: seq<string>, nrow: nat, x: map<Key, string>, order: seq<Key>, k: nat, j: nat)
    requires nrow > 0 && Stored(symbols, nrow, x, order, |symbols|)
    requires j <= |order|
    ensures KeysIn(x, order[..j])
    ensures RowCells(x, order[..j], k) == RowUpTo(symbols, nrow, k, j)
  {
    if j > 0 {
      GridRowCellsUpTo(symbols, nrow, x, order, k, j - 1);
      StoredAt(symbols, nrow, x, order, |symbols|, j - 1);
      var pre := order[..j];
      assert pre[..j - 1] == order[..j - 1];
      assert pre[j - 1] == order[j - 1] == Place(j - 1, nrow);
      if (j - 1) % nrow == k {
        assert x[order[j - 1]] == Cell(symbols[j - 1]);
      }
    }
  }

  lemma GridRowCells(symbols: seq<string>, nrow: nat, x: map<Key, string>, order: seq<Key>, k: nat)
    requires nrow > 0 && IsGrid(symbols, nrow, x, order)
    ensures KeysIn(x, order)
    ensures RowCells(x, order, k) == RowOf(symbols, nrow, k)
  {
    GridRowCellsUpTo(symbols, nrow, x, order, k, |order|);
    assert order[..|order|] == order;
  }

  // ---------------------------------------------------------------------
  // Column count and column spec

  /** The column spec holds `justification` exactly `ncol` times, split
      by `|`. */
  lemma ColumnSpecSplits(justification: string, ncol: nat)
    requires ncol >= 1 && '|' !in justification
    ensures Split('|', ColumnSpec(justification, ncol)) == seq(ncol, _ => justification)
  {
    var parts := seq(ncol, _ => justification);
    SplitJoin('|', parts);
  }

  /** For any justification, one more column appends a vertical bar and one
      more copy of `justification`, and one column is `justification` alone. */
  lemma ColumnSpecStep(justification: string, n: nat)
    requires n >= 1
    ensures ColumnSpec(justification, 1) == justification
    ensures ColumnSpec(justification, n + 1) == ColumnSpec(justification, n) + "|" + justification
  {
    var one := seq(1, _ => justification);
    assert one == [justification];
    var parts := seq(n + 1, _ => justification);
    assert parts[..n] == seq(n, _ => justification);
    assert parts[n] == justification;
    JoinLast("|", parts);
  }

  // ---------------------------------------------------------------------
  // Rows

  lemma DivModUnique(x: nat, d: nat, q: nat, r: nat)
    requires 0 <= r < d && x == q * d + r
    ensures x / d == q && x % d == r
  {
    var q', r' := x / d, x % d;
    assert x == q' * d + r';
    if q' < q {
      MulMonotone(q, q' + 1, d);
    } else if q' > q {
      MulMonotone(q', q + 1, d);
    }
  }

  /** The quotient and remainder of `m + 1` from those of `m`. */
  lemma DivModNext(m: nat, d: nat)
    requires d > 0
    ensures m % d == d - 1 ==> (m + 1) / d == m / d + 1 && (m + 1) % d == 0
    ensures m % d < d - 1 ==> (m + 1) / d == m / d && (m + 1) % d == m % d + 1
  {
    var q, r := m / d, m % d;
    assert m == q * d + r;
    if r == d - 1 {
      DivModUnique(m + 1, d, q + 1, 0);
    } else {
      DivModUnique(m + 1, d, q, r + 1);
    }
  }

  /** One more symbol adds a cell to row `k` exactly when it lands there,
      and then that cell is in column `RowLen(m, nrow, k)`. */
  lemma RowLenNext(m: nat, nrow: nat, k: nat)
    requires nrow > 0 && k < nrow
    ensures RowLen(m + 1, nrow, k) == RowLen(m, nrow, k) + (if m % nrow == k then 1 else 0)
    ensures m % nrow == k ==> RowLen(m, nrow, k) * nrow + k == m
  {
    DivModNext(m, nrow);
    assert m == (m / nrow) * nrow + m % nrow;
  }

  /** The cells of row `k` sit in columns `0, 1, ...`: column `c` holds
      symbol `c * nrow + k`, among the first `n`. */
  ghost predicate InColumns(row: seq<string>, symbols: seq<string>, nrow: nat, k: nat, n: nat) {
    forall c :: 0 <= c < |row| ==>
      c * nrow + k < n <= |symbols| && row[c] == Cell(symbols[c * nrow + k])
  }

  lemma ColumnsExtend(row: seq<string>, symbols: seq<string>, nrow: nat, k: nat, m: nat)
    requires m < |symbols| && InColumns(row, symbols, nrow, k, m)
    requires |row| * nrow + k == m
    ensures InColumns(row + [Cell(symbols[m])], symbols, nrow, k, m + 1)
  {
    var row' := row + [Cell(symbols[m])];
    forall c | 0 <= c < |row'|
      ensures c * nrow + k < m + 1 <= |symbols| && row'[c] == Cell(symbols[c * nrow + k])
    {
      if c < |row| {
        assert row'[c] == row[c];
      }
    }
  }

  lemma ColumnsWiden(row: seq<string>, symbols: seq<string>, nrow: nat, k: nat, m: nat)
    requires m < |symbols| && InColumns(row, symbols, nrow, k, m)
    ensures InColumns(row, symbols, nrow, k, m + 1)
  {
  }

  /** Row `k` holds `RowLen` cells in increasing column order. */
  lemma {:induction false} RowColumnsUpTo(symbols: seq<string>, nrow: nat, k: nat, n: nat)
    requires nrow > 0 && k < nrow && n <= |symbols|
    ensures |RowUpTo(symbols, nrow, k, n)| == RowLen(n, nrow, k)
    ensures InColumns(RowUpTo(symbols, nrow, k, n), symbols, nrow, k, n)
  {
    if n > 0 {
      var m := n - 1;
      RowColumnsUpTo(symbols, nrow, k, m);
      RowLenNext(m, nrow, k);
      var before := RowUpTo(symbols, nrow, k, m);
      if m % nrow == k {
        ColumnsExtend(before, symbols, nrow, k, m);
      } else {
        ColumnsWiden(before, symbols, nrow, k, m);
      }
    }
  }

  /** Row `k` holds `RowLen` cells, and its cell in column `c` is the cell of
      symbol `c * nrow + k`: the cells come in increasing column order. */
  lemma RowColumns(symbols: seq<string>, nrow: nat, k: nat)
    requires nrow > 0 && k < nrow
    ensures |RowOf(symbols, nrow, k)| == RowLen(|symbols|, nrow, k)
    ensures forall c :: 0 <= c < |RowOf(symbols, nrow, k)| ==>
              c * nrow + k < |symbols| && RowOf(symbols, nrow, k)[c] == Cell(symbols[c * nrow + k])
  {
    RowColumnsUpTo(symbols, nrow, k, |symbols|);
  }

  /** Every row has `ncol` or `ncol - 1` cells; it has `ncol` exactly when the
      last column is full or reaches down to it, so row 0 always does. A row
      below the number of symbols is never empty. */
  lemma RowLenBounds(n: nat, nrow: nat, k: nat)
    requires nrow > 0 && k < nrow
    ensures NCol(n, nrow) - 1 <= RowLen(n, nrow, k) <= NCol(n, nrow)
    ensures RowLen(n, nrow, k) == NCol(n, nrow) <==> (n % nrow == 0 || k < n % nrow)
    ensures k < n ==> RowLen(n, nrow, k) >= 1
  {
    if k < n && n / nrow == 0 {
      assert n == (n / nrow) * nrow + n % nrow;
    }
  }

  // ---------------------------------------------------------------------
  // Cells and padding

  /** The cell shows the per-character escape of the symbol, which decodes
      back to it, and the raw symbol between the dollar signs. */
  lemma CellShape(symbol: string)
    requires NoSentinel(symbol)
    ensures Cell(symbol) == "\\texttt{" + EscapeChars(symbol) + "} & $" + symbol + "$"
    ensures Unescape(EscapeChars(symbol)) == symbol
  {
    EscapedIsPerCharacter(symbol);
    UnescapeEscapeChars(symbol);
  }

  lemma CountFive(c: char, a: string, b: string, d: string, e: string, f: string)
    ensures Count(c, a + b + d + e + f) == Count(c, a) + Count(c, b) + Count(c, d) + Count(c, e) + Count(c, f)
  {
    CountAppend(c, a, b);
    CountAppend(c, a + b, d);
    CountAppend(c, a + b + d, e);
    CountAppend(c, a + b + d + e, f);
  }

  /** A cell of a symbol without `$` holds exactly the two `$` it adds. */
  lemma CellDollars(symbol: string)
    requires '$' !in symbol
    ensures Count('$', Cell(symbol)) == 2
  {
    EscapedKeepsAbsent(symbol, '$');
    CountAbsent('$', Escaped(symbol));
    CountAbsent('$', symbol);
    CountFive('$', "\\texttt{", Escaped(symbol), "} & $", symbol, "$");
    assert Count('$', "\\texttt{") == 0;
    assert Count('$', "} & $") == 1;
    assert Count('$', "$") == 1;
  }

  predicate NoDollar(symbols: seq<string>) {
    forall i :: 0 <= i < |symbols| ==> '$' !in symbols[i]
  }

  /** For symbols without `$`, the joined cells of a row hold two `$` per
      cell, which is what the padding counts. */
  lemma RowDollars(symbols: seq<string>, nrow: nat, k: nat)
    requires nrow > 0 && k < nrow && NoDollar(symbols)
    ensures Count('$', Join(" & ", RowOf(symbols, nrow, k))) == 2 * |RowOf(symbols, nrow, k)|
  {
    var cells := RowOf(symbols, nrow, k);
    RowColumns(symbols, nrow, k);
    forall c | 0 <= c < |cells|
      ensures Count('$', cells[c]) == 2
    {
      CellDollars(symbols[c * nrow + k]);
    }
    CountJoin('$', " & ", cells);
  }

  /** For symbols without `$`, a row of `m` cells is padded with exactly
      `2 * (ncol - m)` extra separators, and a row that holds a symbol has
      `ncol` or `ncol - 1` cells. */
  lemma RowPadding(symbols: seq<string>, nrow: nat, k: nat)
    requires nrow > 0 && k < nrow && NoDollar(symbols)
    ensures RowText(symbols, nrow, k) ==
            Join(" & ", RowOf(symbols, nrow, k)) + Repeat(" & ", 2 * (NCol(|symbols|, nrow) - |RowOf(symbols, nrow, k)|))
    ensures k < |symbols| ==> 1 <= |RowOf(symbols, nrow, k)| && NCol(|symbols|, nrow) - 1 <= |RowOf(symbols, nrow, k)| <= NCol(|symbols|, nrow)
  {
    RowDollars(symbols, nrow, k);
    RowColumns(symbols, nrow, k);
    RowLenBounds(|symbols|, nrow, k);
  }

  /** A full row gets no padding at all. */
  lemma FullRow(symbols: seq<string>, nrow: nat, k: nat)
    requires nrow > 0 && k < nrow && NoDollar(symbols)
    requires |symbols| % nrow == 0 || k < |symbols| % nrow
    ensures |RowOf(symbols, nrow, k)| == NCol(|symbols|, nrow)
    ensures RowText(symbols, nrow, k) == Join(" & ", RowOf(symbols, nrow, k))
  {
    RowPadding(symbols, nrow, k);
    RowColumns(symbols, nrow, k);
    RowLenBounds(|symbols|, nrow, k);
  }

  /** A row past the last symbol (only when `nrow > n`) is nothing but
      `2 * ncol` separators. */
  lemma EmptyRow(symbols: seq<string>, nrow: nat, k: nat)
    requires nrow > 0 && |symbols| <= k < nrow
    ensures RowOf(symbols, nrow, k) == []
    ensures RowText(symbols, nrow, k) == Repeat(" & ", 2 * NCol(|symbols|, nrow))
  {
    RowColumns(symbols, nrow, k);
    assert |symbols| / nrow == 0 by {
      DivModUnique(|symbols|, nrow, 0, |symbols|);
    }
  }

  /** A cell of a symbol without `&` holds exactly the one `&` it adds. */
  lemma CellAmpersand(symbol: string)
    requires '&' !in symbol
    ensures Count('&', Cell(symbol)) == 1
  {
    EscapedKeepsAbsent(symbol, '&');
    CountAbsent('&', Escaped(symbol));
    CountAbsent('&', symbol);
    CountFive('&', "\\texttt{", Escaped(symbol), "} & $", symbol, "$");
    assert Count('&', "\\texttt{") == 0;
    assert Count('&', "} & $") == 1;
    assert Count('&', "$") == 0;
  }

  predicate NoAmpersand(symbols: seq<string>) {
    forall i :: 0 <= i < |symbols| ==> '&' !in symbols[i]
  }

  /** The joined cells of a row hold one `&` per cell and one per join. */
  lemma JoinedAmpersands(symbols: seq<string>, nrow: nat, k: nat)
    requires nrow > 0 && k < nrow && NoAmpersand(symbols)
    requires |RowOf(symbols, nrow, k)| >= 1
    ensures Count('&', Join(" & ", RowOf(symbols, nrow, k))) == 2 * |RowOf(symbols, nrow, k)| - 1
  {
    var cells := RowOf(symbols, nrow, k);
    RowColumns(symbols, nrow, k);
    forall c | 0 <= c < |cells|
      ensures Count('&', cells[c]) == 1
    {
      CellAmpersand(symbols[c * nrow + k]);
    }
    assert Count('&', " & ") == 1;
    CountJoinOnes('&', " & ", cells);
  }

  /** For symbols without `$` or `&`, every row that holds a symbol has
      exactly `2 * ncol - 1` column separators `&`, the number a tabular of
      `2 * ncol` columns needs, however many cells it holds. */
  lemma RowAmpersands(symbols: seq<string>, nrow: nat, k: nat)
    requires nrow > 0 && k < nrow && k < |symbols|
    requires NoDollar(symbols) && NoAmpersand(symbols)
    ensures Count('&', RowText(symbols, nrow, k)) == 2 * NCol(|symbols|, nrow) - 1
  {
    var cells := RowOf(symbols, nrow, k);
    var pad := 2 * (NCol(|symbols|, nrow) - |cells|);
    RowPadding(symbols, nrow, k);
    JoinedAmpersands(symbols, nrow, k);
    assert Count('&', " & ") == 1;
    CountRepeatOne('&', " & ", pad);
    CountAppend('&', Join(" & ", cells), Repeat(" & ", pad));
  }

  /** A row past the last symbol has `2 * ncol` separators: one more than the
      others. */
  lemma EmptyRowAmpersands(symbols: seq<string>, nrow: nat, k: nat)
    requires nrow > 0 && |symbols| <= k < nrow
    ensures Count('&', RowText(symbols, nrow, k)) == 2 * NCol(|symbols|, nrow)
  {
    EmptyRow(symbols, nrow, k);
    assert Count('&', " & ") == 1;
    CountRepeatOne('&', " & ", 2 * NCol(|symbols|, nrow));
  }

  // ---------------------------------------------------------------------
  // The whole table

  /** The output is the `center` and `tabular` lines around exactly `nrow`
      rows joined by a LaTeX line break, with nothing after the last row. */
  lemma TableLayout(symbols: seq<string>, nrow: nat, justification: string)
    requires nrow > 0
    ensures Table(symbols, nrow, justification) ==
            "\\begin{center}" + "\n" +
            ("\\begin{tabular}{" + ColumnSpec(justification, NCol(|symbols|, nrow)) + "}") + "\n" +
            Join("\\\\ \n", Rows(symbols, nrow)) + "\n" +
            "\\end{tabular}" + "\n" +
            "\\end{center}"
    ensures |Rows(symbols, nrow)| == nrow
    ensures forall k :: 0 <= k < nrow ==> Rows(symbols, nrow)[k] == RowText(symbols, nrow, k)
    ensures nrow >= 2 ==>
              Join("\\\\ \n", Rows(symbols, nrow)) ==
              Join("\\\\ \n", Rows(symbols, nrow)[..nrow - 1]) + "\\\\ \n" + RowText(symbols, nrow, nrow - 1)
  {
    var cc := ColumnSpec(justification, NCol(|symbols|, nrow));
    var rows := Rows(symbols, nrow);
    JoinFive("\n", "\\begin{center}", "\\begin{tabular}{" + cc + "}", Join("\\\\ \n", rows), "\\end{tabular}", "\\end{center}");
    if nrow >= 2 {
      JoinLast("\\\\ \n", rows);
    }
  }

  // ---------------------------------------------------------------------
  // Two small tables

  lemma ColumnSpecTwo(justification: string)
    ensures ColumnSpec(justification, 2) == justification + "|" + justification
  {
    var parts := seq(2, _ => justification);
    assert parts[0] == justification;
    assert parts[1..] == [justification];
    assert Join("|", parts[1..]) == justification;
  }

  /** A short symbol cannot hold a sentinel word. */
  lemma ShortNoSentinel(s: string)
    requires |s| < |LeftSentinel|
    ensures NoSentinel(s)
  {
  }

  /** `x_2` escapes to `x\_2`. */
  lemma SubscriptEscape(s: string)
    requires |s| == 3 && !Special(s[0]) && s[1] == '_' && !Special(s[2])
    ensures Escaped(s) == [s[0]] + "\\_" + [s[2]]
  {
    ShortNoSentinel(s);
    EscapedIsPerCharacter(s);
    assert s[1..][1..] == [s[2]];
    assert EscapeChars(s[1..][1..]) == [s[2]];
    assert EscapeChars(s[1..]) == "\\_" + [s[2]];
    assert EscapeChars(s) == [s[0]] + ("\\_" + [s[2]]);
  }

  /** `["x_1", "x_2", "x_3"]` in two rows has two columns, with `x_1` at
      row 0 column 0, `x_2` at row 1 column 0 and `x_3` at row 0 column 1. */
  lemma SubscriptGrid(symbols: seq<string>)
    requires symbols == ["x_1", "x_2", "x_3"]
    ensures NCol(|symbols|, 2) == 2
    ensures Place(0, 2) == (0, 0) && Place(1, 2) == (1, 0) && Place(2, 2) == (0, 1)
  {
  }

  /** Row 0 of that table holds `x_1` then `x_3`, row 1 only `x_2`. */
  lemma SubscriptRowZero(symbols: seq<string>)
    requires symbols == ["x_1", "x_2", "x_3"]
    ensures RowOf(symbols, 2, 0) == [Cell(symbols[0]), Cell(symbols[2])]
  {
    assert RowUpTo(symbols, 2, 0, 1) == [Cell(symbols[0])];
    assert RowUpTo(symbols, 2, 0, 2) == [Cell(symbols[0])];
  }

  lemma SubscriptRowOne(symbols: seq<string>)
    requires symbols == ["x_1", "x_2", "x_3"]
    ensures RowOf(symbols, 2, 1) == [Cell(symbols[1])]
  {
    assert RowUpTo(symbols, 2, 1, 1) == [];
    assert RowUpTo(symbols, 2, 1, 2) == [Cell(symbols[1])];
  }

  /** Row 1 of that table is padded by two separators for its empty slot. */
  lemma SubscriptPadding(symbols: seq<string>)
    requires symbols == ["x_1", "x_2", "x_3"]
    ensures RowText(symbols, 2, 1) == Cell(symbols[1]) + Repeat(" & ", 2)
  {
    SubscriptRowOne(symbols);
    RowPadding(symbols, 2, 1);
  }

  /** Its cell shows `x\_2`. */
  lemma SubscriptCell(symbol: string)
    requires symbol == "x_2"
    ensures Escaped(symbol) == "x" + "\\_" + "2"
  {
    SubscriptEscape(symbol);
  }

  /** `\alpha` escapes to `\textbackslash{}alpha`. */
  lemma GreekEscape(s: string)
    requires 0 < |s| && s[0] == '\\'
    requires forall i :: 1 <= i < |s| ==> 'a' <= s[i] <= 'z'
    ensures Escaped(s) == TextBackslash + s[1..]
  {
    NoUpperNoSentinel(s);
    EscapedIsPerCharacter(s);
    EscapeCharsPlain(s[1..]);
  }

  /** `["\alpha", "\beta"]` in one row has the spec `cc|cc`, and both cells
      sit on that row. */
  lemma GreekRow(symbols: seq<string>)
    requires symbols == ["\\alpha", "\\beta"]
    ensures ColumnSpec("cc", NCol(|symbols|, 1)) == "cc" + "|" + "cc"
    ensures RowText(symbols, 1, 0) == Cell(symbols[0]) + " & " + Cell(symbols[1])
  {
    ColumnSpecTwo("cc");
    RowColumns(symbols, 1, 0);
    FullRow(symbols, 1, 0);
  }

  /** The first of those cells spells its backslash out. */
  lemma AlphaCell(symbol: string)
    requires symbol == "\\alpha"
    ensures Escaped(symbol) == TextBackslash + "alpha"
  {
    GreekEscape(symbol);
  }
}
