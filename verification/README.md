# mktable in Dafny

A model of `mktable(symbols, nrow=3, justification='cc')` from
`contents/chapter_07_reproducible/utils.py`. The routine turns a list of
LaTeX symbol strings into a `center`/`tabular` block. Each cell shows a
symbol's escaped name in `\texttt{...}` next to the symbol itself in math
mode, and the cells are laid out column-major in `nrow` rows.

The project has three modules, one per concern of the routine:

- `Strings` (`strings.dfy`): the Python string operations the routine uses,
  over `string = seq<char>`. These are `str.replace` (`ReplaceAll`, a left-to-right
  replacement of non-overlapping occurrences), `str.join`, `str.count` of one
  character and `str * k`, plus `str.split` with a one-character separator,
  which the routine does not call: it is the inverse used by the column-spec
  round trip (`ColumnSpecSplits`). It also holds their algebra: distribution
  over concatenation, split undoing join, and counts through joins and
  repeats.
- `Escape` (`escape.dfy`): the four lambdas `F`, `G`, `H` and `J` and their
  composition `J(H(G(F(symbol))))`. It also holds a per-character reference
  escaper `EscapeChars` and its inverse `Unescape`. The chain is proved equal
  to the reference escaper one replacement at a time. `Image(k, c)` is what
  character `c` has become after the first `k` of the seven replacements.
  The two sentinel replacements of `H` need an argument about where an
  occurrence of a sentinel word can start in the intermediate text.
- `Table` (`table.dfy`): the column count, the column spec and the cell text.
  It also holds the two loops of the routine as methods:
  - `BuildGrid` fills the `(row, col)` dictionary. It is modelled as a `map`
    together with the dictionary's key insertion order.
  - `BuildRows` builds the padded rows.

  `MkTable` is the whole routine, proved equal to the declarative
  description `Table`. The lemmas about `Table` cover placement, row contents,
  padding, separator counts, the output layout and two small tables.

## Model

| member | source | states |
|---|---|---|
| Table.NCol | contents/chapter_07_reproducible/utils.py:11-13 | the column count is the ceiling of `n / nrow`: `ncol * nrow >= n` and `(ncol - 1) * nrow < n` |
| Table.ColumnSpecSplits | contents/chapter_07_reproducible/utils.py:15 | the column spec splits at the vertical bar into exactly `ncol` copies of `justification` (for `ncol >= 1` and a justification without a vertical bar) |
| Table.ColumnSpecStep | contents/chapter_07_reproducible/utils.py:15 | for any justification, including one holding a vertical bar, one column is `justification` itself and each further column appends a vertical bar and one more copy |
| Table.ColumnSpecTwo | contents/chapter_07_reproducible/utils.py:15 | with two columns the spec is two copies of `justification` around one vertical bar |
| Escape.FStages | contents/chapter_07_reproducible/utils.py:21 | `F` replaces every `{` and `}` by its sentinel word and leaves every other character as it is |
| Escape.GStages | contents/chapter_07_reproducible/utils.py:19 | after `F`, `G` turns each backslash of the symbol into `\textbackslash{}` and changes nothing else |
| Escape.SentinelStep | contents/chapter_07_reproducible/utils.py:23 | when the symbol does not hold the sentinel word, each replacement of `H` turns exactly the sentinels that `F` produced back into `\{` or `\}` |
| Escape.JStages | contents/chapter_07_reproducible/utils.py:25 | on the text `H` produces, `J` turns each `^` of the symbol into `\^{}` and each `_` into `\_`, and changes nothing else |
| Escape.JPerCharacter | contents/chapter_07_reproducible/utils.py:25 | for any text, `J` rewrites each `^` to `\^{}` and each `_` to `\_` and keeps every other character |
| Escape.EscapedIsPerCharacter | contents/chapter_07_reproducible/utils.py:33 | for a symbol holding neither sentinel word, `J(H(G(F(symbol))))` escapes character by character: `\` to `\textbackslash{}`, `{` to `\{`, `}` to `\}`, `^` to `\^{}`, `_` to `\_`, anything else to itself |
| Escape.UnescapeEscapeChars | contents/chapter_07_reproducible/utils.py:33 | reading the per-character escape back recovers the symbol, so for a symbol holding neither sentinel word the verbatim name loses nothing |
| Escape.SentinelCollision | contents/chapter_07_reproducible/utils.py:21-23 | the sentinel precondition is needed: the symbol `LEFTCURLYBRACE` comes out of the chain as `\{`, while the per-character escaper leaves it unchanged |
| Escape.EscapedKeepsAbsent | contents/chapter_07_reproducible/utils.py:19-25 | the chain introduces no character that is absent from the symbol, the replacement texts and the sentinel words |
| Escape.EscapeCharsPlain | contents/chapter_07_reproducible/utils.py:19-25 | the per-character escaper leaves a symbol without `\`, `{`, `}`, `^` or `_` unchanged |
| Escape.EscapedPlain | contents/chapter_07_reproducible/utils.py:19-25 | a symbol without `\`, `{`, `}`, `^` or `_` and holding neither sentinel word comes out of `J(H(G(F(symbol))))` unchanged |
| Escape.NoUpperNoSentinel | contents/chapter_07_reproducible/utils.py:21-23 | text without upper-case letters holds neither sentinel word, so the chain escapes it character by character |
| Table.PlaceInjective | contents/chapter_07_reproducible/utils.py:31-33 | distinct symbol indices get distinct `(row, col)` keys |
| Table.PlaceInGrid | contents/chapter_07_reproducible/utils.py:32 | symbol `i` goes to row `i mod nrow` below `nrow` and column `i div nrow` below `ncol`, with `col * nrow + row == i` |
| Table.StoreStep | contents/chapter_07_reproducible/utils.py:33 | storing symbol `i` adds a key the dictionary did not hold, so no cell is overwritten |
| Table.BuildGrid | contents/chapter_07_reproducible/utils.py:30-33 | the first loop leaves one entry per symbol. Key `i` in insertion order is symbol `i`'s place, its value is that symbol's cell, and the dictionary has no other key |
| Table.GridRowCells | contents/chapter_07_reproducible/utils.py:27-28 | `slice_keys` walks the keys in insertion order and yields the cells of row `k` in symbol order |
| Table.RowColumns | contents/chapter_07_reproducible/utils.py:27-33 | row `k` holds `n div nrow + (1 if n mod nrow > k else 0)` cells, and the one in column `c` is the cell of symbol `c * nrow + k`: cells come in increasing column order |
| Table.RowLenBounds | contents/chapter_07_reproducible/utils.py:31-32 | every row has `ncol` or `ncol - 1` cells. It has `ncol` exactly when `n mod nrow == 0` or `k < n mod nrow`, and a row `k < n` is never empty |
| Table.CellShape | contents/chapter_07_reproducible/utils.py:33 | a cell is `\texttt{` + the per-character escape + `} & $` + the raw symbol + `$`, and its escaped part decodes back to the symbol |
| Table.CellDollars | contents/chapter_07_reproducible/utils.py:33 | a cell of a symbol without `$` holds exactly two `$` |
| Table.CellAmpersand | contents/chapter_07_reproducible/utils.py:33 | a cell of a symbol without `&` holds exactly one `&` |
| Table.RowDollars | contents/chapter_07_reproducible/utils.py:37-38 | the joined cells of a row hold two `$` per cell, which is what the padding counts |
| Table.RowPadding | contents/chapter_07_reproducible/utils.py:38 | for symbols without `$`, a row of `m` cells is padded with exactly `2 * (ncol - m)` extra ` & `, and a row holding a symbol has `ncol` or `ncol - 1` cells |
| Table.FullRow | contents/chapter_07_reproducible/utils.py:38 | a full row gets no padding |
| Table.EmptyRow | contents/chapter_07_reproducible/utils.py:36-38 | a row past the last symbol (`nrow > n`) is `2 * ncol` copies of ` & ` and nothing else |
| Table.JoinedAmpersands | contents/chapter_07_reproducible/utils.py:28 | the joined cells of a non-empty row hold one `&` per cell plus one per join |
| Table.RowAmpersands | contents/chapter_07_reproducible/utils.py:35-39 | for symbols without `$` or `&`, every row holding a symbol has exactly `2 * ncol - 1` column separators, whatever its cell count |
| Table.EmptyRowAmpersands | contents/chapter_07_reproducible/utils.py:38 | a row past the last symbol has `2 * ncol` separators, one more than the other rows |
| Table.BuildRows | contents/chapter_07_reproducible/utils.py:35-39 | the second loop yields exactly `nrow` rows, and row `k` is `slice_keys(x, k)` followed by `ncol * 2 - count('$')` copies of ` & ` |
| Table.MkTable | contents/chapter_07_reproducible/utils.py:1-48 | the routine returns `Table(symbols, nrow, justification)`, for `nrow > 0` and any symbol list including the empty one |
| Table.TableLayout | contents/chapter_07_reproducible/utils.py:42-48 | the output is `\begin{center}`, `\begin{tabular}{cc...}`, exactly `nrow` rows joined by `\\` plus newline with nothing after the last, `\end{tabular}` and `\end{center}`, joined by newlines |
| Table.SubscriptGrid | contents/chapter_07_reproducible/utils.py:31-33 | `["x_1", "x_2", "x_3"]` in two rows has two columns, with `x_1` at (0, 0), `x_2` at (1, 0) and `x_3` at (0, 1) |
| Table.SubscriptRowZero | contents/chapter_07_reproducible/utils.py:27-28 | row 0 of that table holds the cells of `x_1` and `x_3`, in that order |
| Table.SubscriptRowOne | contents/chapter_07_reproducible/utils.py:27-28 | row 1 of that table holds only the cell of `x_2` |
| Table.SubscriptPadding | contents/chapter_07_reproducible/utils.py:38 | row 1 of that table gets two ` & ` for its empty slot |
| Table.SubscriptEscape | contents/chapter_07_reproducible/utils.py:25 | a three-character symbol with `_` in the middle and no other special character escapes to its first character, `\_` and its last character |
| Table.SubscriptCell | contents/chapter_07_reproducible/utils.py:25 | `x_2` is shown as `x\_2` |
| Table.GreekEscape | contents/chapter_07_reproducible/utils.py:19 | a backslash followed by lower-case letters is shown as `\textbackslash{}` followed by those letters |
| Table.AlphaCell | contents/chapter_07_reproducible/utils.py:19 | `\alpha` is shown as `\textbackslash{}alpha` |
| Table.GreekRow | contents/chapter_07_reproducible/utils.py:35-39 | `["\alpha", "\beta"]` in one row has the spec of two `cc` around a vertical bar, and its single row is the two cells joined by ` & ` with no padding |
| Strings.SplitJoin | contents/chapter_07_reproducible/utils.py:15 | splitting at a one-character separator undoes joining with it when no part holds the separator |
| Strings.ReplaceCharAppend | contents/chapter_07_reproducible/utils.py:19 | a one-character `str.replace` distributes over concatenation |
| Strings.ReplaceSkip | contents/chapter_07_reproducible/utils.py:23 | `str.replace` copies a prefix unchanged when no occurrence starts in it |

## Left out

- `nrow <= 0`: `nrow == 0` raises `ZeroDivisionError` at utils.py:13; `nrow < 0` returns a degenerate table (`ncol <= 0`, no rows). Neither is modelled, so every member takes `nrow > 0`. Python integers are unbounded, so `nat` needs no wrap-around.
- Escape.EscapedIsPerCharacter: requires the symbol to hold neither `LEFTCURLYBRACE` nor `RIGHTCURLYBRACE`. The chain itself is modelled for every symbol, and `Escape.SentinelCollision` shows what goes wrong without the precondition.
- Table.CellShape: requires the same sentinel condition, for the same reason.
- Table.RowPadding, Table.FullRow, Table.RowDollars: require symbols without `$`, because the padding counts `$` characters. `Table.Table` and `Table.MkTable` still cover such symbols.
- Table.RowAmpersands, Table.JoinedAmpersands: also require symbols without `&`.
- Empty rows (`nrow > n`): well-formedness is not claimed for them. `Table.EmptyRowAmpersands` states the separator count they actually get.
- Whether the LaTeX compiles or renders: the model covers only the string produced.
- The dictionary: modelled as a `map` from `(row, col)` to its cell plus a sequence of keys in insertion order, which is the order Python dictionaries iterate in. Hashing and other dictionary mechanics are not modelled.
- `'\_'` in `J` is Python's unrecognised escape, which keeps the backslash. It is modelled as the two characters `\_`.
- `Escape.Unescape` has no counterpart in the routine. It is the reference inverse that the round-trip lemma uses.
- contents/chapter_15_hpc/code.cpp (`rolling_mean`) is not part of this model: it is floating-point code over an R/C++ vector type.
- Points of the code worth noting, all modelled as written:
  - `F` (braces to sentinels) runs before `G` (backslashes), so the braces of `\textbackslash{}` stay unescaped.
  - An empty symbol list is accepted. It yields `ncol = 0`, an empty column spec and `nrow` empty rows.
  - Rows past the last symbol get `2 * ncol` separators, one more than the other rows.
