# PyAxols columnar tables, modelled in Dafny

PyAxols is a small in-memory table library. Its pieces are:

- a column, `Seq`: a name, a dtype (a Python type) and a list of values, where `None` is always allowed;
- a table, `Table`: an insertion-ordered dict from column names to `Seq`s, padded to a common length by `_smooth`;
- `argsort` and `sorted_by_pattern` in `pyaxols/utils.py`, the ranking helpers `Table.sorted` relies on.

The repository holds three editions of the column:

- the packaged one in `pyaxols/atypes/seq.py`;
- a legacy copy in `atypes/seq.py`, whose constructor converts every element, `None` included;
- the oldest `seq.py`, which only checks elements and converts them on read.

It holds two editions of the table: the packaged `pyaxols/atypes/table.py` and the legacy `atypes/table.py`. The model covers all of them.

## How the model is organised

| module | file | what it holds |
|---|---|---|
| `Values` | values.dfy | values, dtypes, exceptions, run-time typed arguments, Python list indexing and slicing |
| `Dicts` | dicts.dfy | Python's insertion-ordered `dict` with string keys |
| `Ranking` | ranking.dfy | `argsort` and `sorted_by_pattern` |
| `Column` | column.dfy | the three `Seq` editions: functions over a `Col` value, and the class `Seq` for the methods that change a column in place |
| `Frames` | frames.dfy | construction, smoothing, accessors and column-wise operations of a table |
| `RowOps` | rows.dfy | the row view of a table and the row mutations |
| `Queries` | queries.dfy | row loops that collect into a fresh table: `get_nones`, `intersect`, `where`, `union` |
| `Ordering` | ordering.dfy | `sorted`, `sorted_by_pattern`, `group_by` |
| `Joins` | joins.dfy | `left_join`, `right_join`, `inner_join` |
| `Tables` | table.dfy | the packaged `Table` class: a dict object `Store` shared by copies, and methods with loops proved against the functions above |
| `LegacyTables` | legacy.dfy | what the legacy table does differently, and its `Table` class |

A table's contents are a `Frame`, which is a `Dict<Col>`. Each mutating method of the classes `Tables.Table`, `Tables.Store`, `LegacyTables.LegacyTable` and `Column.Seq` is proved to leave its object holding what the matching function computes from the old contents. The properties are then proved about those functions.

Parameters stand for the code the model cannot see:

- `conv: Converter` is Python's `dtype(x)` call for a non-object dtype: a partial function from a dtype and a value to a value or an exception. `object(x)` is fixed: it always raises TypeError. Lemmas that need conversions to behave assume `Lawful(conv)`: a result is an instance of the dtype, and converting it again gives it back.
- `lt` is Python's `<`. Sortedness and stability are proved for any strict weak order.
- A `func` given to `where`, `filter` or `map` is a total Dafny function (see "## Left out").

Rows are read by index, as `t.i(k)`. The packaged table iterates with `for row in self`, and that iteration stops after `len(self)` rows, which is the number of COLUMNS. The model keeps this, so each row loop runs over positions `0` to `ncols - 1`.

## Model

| member | source | states |
|---|---|---|
| Values.Call | seq.py:96-98 | `dtype(x)` is `conv` for a typed dtype; `object(x)` raises TypeError |
| Values.Plus | pyaxols/atypes/seq.py:388-389 | `a + b` raises TypeError when either side is None; a result is a string exactly when the left operand is a string, and an int otherwise |
| Values.Bound | pyaxols/atypes/seq.py:111-139 | the cut point of a Python slice bound: within `0..len`, a negative bound counts from the end, and an overlong bound clips to the length |
| Values.Normalize | pyaxols/atypes/seq.py:381-382 | an index in range, with a negative index counting from the end |
| Values.At | pyaxols/atypes/seq.py:381-382 | `s[i]` succeeds exactly for an index in range, negative ones included, and gives that element; otherwise IndexError |
| Values.DeleteAt | pyaxols/atypes/seq.py:396-397 | `del s[i]` succeeds exactly for an index in range; the list is one shorter, the elements before the index stay and those after it move down one; otherwise IndexError |
| Values.Nones | pyaxols/atypes/seq.py:189 | `[None] * n` is n Nones |
| Values.Reversed | pyaxols/atypes/seq.py:199 | `data[::-1]` has the same length, and element j is element length-1-j of the input |
| Values.Filter | pyaxols/atypes/seq.py:229 | the filtered list holds exactly the elements that pass, each taken from the input, no more often than there |
| Values.FilterAppend | pyaxols/atypes/seq.py:229 | filtering keeps order: filtering `a + b` is filtering `a`, then `b` |
| Values.MapResult | pyaxols/atypes/seq.py:362-369 | the raising map behind the data setter's conversion, `[i + other for i in data]` (pyaxols/atypes/seq.py:388-389) and `map` (pyaxols/atypes/seq.py:231-244): mapping a raising function succeeds exactly when every call succeeds, gives the results in order, and otherwise raises what the first failing call raises |
| Values.MapResultOk | pyaxols/atypes/seq.py:362-369 | for the same maps (also pyaxols/atypes/seq.py:388-389 and :231-244): a list whose every element is the result of its call is the map's result |
| Values.IndexOf | pyaxols/atypes/seq.py:170 | `list.index(v)` gives the least index holding `v`, and ValueError exactly when no element equals it |
| Values.CardDistinct | pyaxols/atypes/table.py:607-608 | `len(set(names)) == len(names)` holds exactly when the names are all different |
| Values.Digits | pyaxols/atypes/table.py:565 | the decimal digits of `i`: at least one, and two or more exactly from 10 on |
| Values.DigitsInjective | pyaxols/atypes/table.py:565 | different numbers have different digit strings, so the names `unnamed_i` are all different |
| Dicts.Dict.Put | pyaxols/atypes/table.py:707-713 | `d[k] = v`: the key maps to the value, a new key goes last and an existing key keeps its place |
| Dicts.Dict.Remove | pyaxols/atypes/table.py:434-448 | `del d[k]` succeeds exactly for a present key and removes just that key, keeping the others' order; otherwise KeyError |
| Dicts.Dict.Merge | pyaxols/atypes/table.py:92 | `{**a, **b}` holds the keys of both; a shared key takes b's value at a's position, and b's new keys follow a's keys |
| Dicts.Dict.PutAll | pyaxols/atypes/table.py:121-126 | storing several keys: each takes its value, other keys keep theirs |
| Dicts.PutAllKeys | pyaxols/atypes/table.py:121-126 | storing several keys appends the new ones in order |
| Dicts.Dict.Values | pyaxols/atypes/table.py:502-504 | `d.values()` gives the values in key order |
| Dicts.Empty | pyaxols/atypes/table.py:591 | `{}` is a well-formed dict without keys |
| Dicts.FromPairs | pyaxols/atypes/table.py:609 | a dict comprehension holds exactly the keys of its pairs |
| Dicts.FromDistinctPairs | pyaxols/atypes/table.py:609 | with distinct keys, a dict comprehension keeps the pairs' order and values |
| Dicts.Without | pyaxols/atypes/table.py:447 | the key order after a deletion: the other keys, in order |
| Dicts.WithoutDistinct | pyaxols/atypes/table.py:447 | deleting a key keeps the keys distinct |
| Ranking.OrderIsStrictWeak | pyaxols/utils.py:1-3 | the descending order (`reverse=True`) is a strict weak order when `<` is one |
| Ranking.Range | pyaxols/utils.py:3 | `range(n)` is 0 to n-1 in order |
| Ranking.Gather | pyaxols/atypes/table.py:275-277 | reading a list at a list of indices succeeds exactly when every index is in range; otherwise IndexError |
| Ranking.SortIndices | pyaxols/utils.py:3 | the stable insertion ranking of the first n positions holds n indices, all below n |
| Ranking.SortIndicesPermutation | pyaxols/utils.py:3 | that ranking is a permutation of `range(n)` |
| Ranking.SortIndicesSortedStable | pyaxols/utils.py:3 | that ranking orders the values and keeps equal values in index order |
| Ranking.Argsort | pyaxols/utils.py:1-3 | `argsort(seq, desc)` has one index per element, all in range |
| Ranking.ArgsortPermutation | pyaxols/utils.py:3 | `argsort` is a permutation of `range(len(seq))`: every index once |
| Ranking.ArgsortSortedStable | pyaxols/utils.py:3 | the values taken in `argsort` order never decrease, or never increase with `desc`; and equal values keep their index order in both directions |
| Ranking.SortedInputIdentity | pyaxols/utils.py:3 | on a prefix whose values never decrease the ranking is the identity |
| Ranking.ArgsortOfAscending | pyaxols/utils.py:3 | `argsort` of an ascending list is `range(len)` |
| Ranking.SortedByPattern | pyaxols/utils.py:6-8 | `sorted_by_pattern` has `min(len(seq), len(pattern))` elements, because `zip` stops at the shorter list |
| Ranking.ArgsortStablySorts | pyaxols/utils.py:3 | the ascending `argsort` is a permutation that sorts stably |
| Ranking.SortedByPatternOrdered | pyaxols/utils.py:6-8 | element j of `sorted_by_pattern` is the element a stable sort of the zipped pattern puts at j |
| Ranking.SortedByPatternPermutes | pyaxols/utils.py:6-8 | `sorted_by_pattern` is a permutation of the first `min` elements |
| Ranking.ApplyPermutation | pyaxols/atypes/table.py:275-277 | reading a list at a permutation of its indices gives a permutation of the list |
| Column.Build | pyaxols/atypes/seq.py:362-369 | the data setter succeeds exactly when every element converts, stores the converted elements in order, and otherwise raises a conversion's error |
| Column.Rebuild | pyaxols/atypes/seq.py:61-88 | `Seq(data, name, dtype)` with a checked name and dtype is that name and dtype with the built data, or the data setter's error |
| Column.Make | pyaxols/atypes/seq.py:61-88 | construction raises TypeError for a non-type dtype, then for non-sequence data; then it raises whatever storing the data raises; then TypeError for a non-str name. Left-out arguments take `[]`, `"unnamed"` and `object`. It succeeds exactly when none of these raises, with that name and dtype and the data as stored |
| Column.PackagedConstruction | pyaxols/atypes/seq.py:366-369 | packaged: an object column stores the data unchanged; a typed one converts each non-None element and keeps each None in place |
| Column.LegacyConstruction | atypes/seq.py:102-103 | legacy: a typed column passes every element through `dtype`, None included |
| Column.OldestConstruction | seq.py:92-99 | oldest: construction stores the data exactly as given, fails exactly when `dtype(x)` raises for a non-None element, and so with dtype object fails for any non-None element |
| Column.BuildFixed | pyaxols/atypes/seq.py:362-369 | data already stored as the setter would store it is stored unchanged |
| Column.BuildSettles | pyaxols/atypes/seq.py:362-369 | with lawful conversions, building a column's stored data again changes nothing |
| Column.RebuildSettled | pyaxols/atypes/seq.py:61-88 | rebuilding with elements already stored keeps them |
| Column.HeadTail | pyaxols/atypes/seq.py:111-139 | for n >= 0, `head(n)` is the first `min(n, len)` elements, and `tail(n)` the last `min(n, len)` except that `tail(0)` is everything, as in all three editions |
| Column.Find | pyaxols/atypes/seq.py:157-170 | `find(v)` is the least index holding v, and ValueError exactly when none does |
| Column.GetItem | pyaxols/atypes/seq.py:381-382 | `s[i]` is the stored element for an index in range, otherwise IndexError |
| Column.Item | seq.py:111-113 | `s[i]` per edition: packaged and legacy return the stored element, the oldest converts it on read |
| Column.OldestReadConverts | seq.py:111-116 | in the oldest edition `s[i]` and `list(s)[i]` differ: "1" is stored in an int column as the string and read as the number 1 |
| Column.OldestObjectUnreadable | seq.py:111-113 | in the oldest edition nothing can be read from an object column: every in-range read raises TypeError |
| Column.Elementwise | pyaxols/atypes/seq.py:388-389 | `[i + other for i in data]`: a value is added to each element; any other operand raises TypeError on a non-empty column |
| Column.AddDispatch | pyaxols/atypes/seq.py:387-394 | `s + other` on a typed column: a Seq or a list concatenates, an instance of the dtype adds to each element, anything else raises TypeError; on an object column the elementwise branch always wins |
| Column.Grow | pyaxols/atypes/seq.py:172-189 | `grow(n)`: ValueError for n < 0, the column itself for n == 0, and `self + [None] * n` otherwise |
| Column.GrowPads | pyaxols/atypes/seq.py:185-189 | a typed column grows by exactly n Nones in the packaged and oldest editions; an object column with data cannot grow, and an empty one stays empty |
| Column.LegacyGrowConvertsPadding | atypes/seq.py:35-40 | in the legacy edition the padding goes through the constructor: each new element is `dtype(None)`, or the grow raises what that raises |
| Column.ReverseKeepsSchema | pyaxols/atypes/seq.py:191-199 | `reverse` keeps the name and dtype and holds the reversed data |
| Column.FilterKeepsSchema | pyaxols/atypes/seq.py:216-229 | `filter(f)` keeps the name and dtype and holds the elements passing f, in order |
| Column.SortedColOrders | pyaxols/atypes/seq.py:201-214 | `sorted(desc)` keeps the name and dtype and holds an ordered permutation of the data |
| Column.MapCol | pyaxols/atypes/seq.py:231-244 | `map(f)` goes through the constructor: element i is what the constructor stores for `f(data[i])`, and it raises when a conversion does |
| Column.AsType | pyaxols/atypes/seq.py:246-259 | `as_type(d)` raises TypeError when `d` is left out (it has no default) or is not a type; otherwise it succeeds exactly when the data can be stored under `d`, and then keeps the name, takes `d`, and holds each element as converted to it |
| Column.EmptyCol | pyaxols/atypes/seq.py:310-325 | `Seq.empty(name, dtype)` succeeds exactly when neither argument is mistyped, and any error is TypeError; the result is an empty column with the given or default name and dtype |
| Column.Seq.constructor | pyaxols/atypes/seq.py:61-88 | a Seq object holding a column |
| Column.Seq.New | pyaxols/atypes/seq.py:61-88 | `Seq(...)` returns a fresh object holding what `Make` computes, or raises its error |
| Column.Seq.Append | pyaxols/atypes/seq.py:90-109 | `append(v)` adds v at the end without a type check, one element more, name and dtype unchanged, and returns self, as in all three editions |
| Column.Seq.Rename | pyaxols/atypes/seq.py:141-155 | a left-out name is a TypeError in every version, the parameter having no default; packaged: renames and returns self, TypeError for a non-str name; legacy and oldest (atypes/seq.py:28-30, seq.py:25-27) raise AttributeError for any given argument because `name` has no setter; nothing else changes |
| Column.Seq.DelItem | pyaxols/atypes/seq.py:396-397 | `del s[i]` removes element i exactly in the packaged edition for an index in range; otherwise IndexError, or TypeError in the editions without `__delitem__` |
| Column.Seq.GrowSeq | pyaxols/atypes/seq.py:172-189 | `grow(0)` returns the same object; otherwise a fresh Seq holding Grow's result, or its error |
| Frames.Tabulate | pyaxols/atypes/table.py:609 | the dict of names to columns, in the names' order |
| Frames.Cols | pyaxols/atypes/table.py:682-689 | `_data.values()`: the columns in key order |
| Frames.ColsTabulate | pyaxols/atypes/table.py:682-689 | a table is determined by its names and its columns in order |
| Frames.Dtypes | pyaxols/atypes/table.py:687-689 | `t.dtypes` is each column's dtype in key order |
| Frames.Shape | pyaxols/atypes/table.py:692-697 | `t.shape` is the number of columns and the first column's length, (0, 0) without columns |
| Frames.Row | pyaxols/atypes/table.py:502-504 | `t.i(index)` succeeds exactly when every column has an element there, and gives each column's element in key order; otherwise IndexError |
| Frames.UpdateEach | pyaxols/atypes/table.py:554-557 | replacing each column in key order keeps the table's names |
| Frames.UpdateEachColumns | pyaxols/atypes/table.py:554-557 | after that loop every column is as it was or replaced; all are replaced exactly when no step raised, and otherwise the loop raised what some step raised |
| Frames.UpdateEachStopsAtFirst | pyaxols/atypes/table.py:554-557 | when a step raises, the loop stopped at the first column whose step raised: every column before it is replaced and it and every later column are unchanged |
| Frames.MaxLen | pyaxols/atypes/table.py:555 | `max(len(s) for s in ...)` is at least every column's length and is the length of some column |
| Frames.Smooth | pyaxols/atypes/table.py:554-557 | `_smooth` keeps the names, and raises ValueError without columns |
| Frames.SmoothPads | pyaxols/atypes/table.py:554-557 | on settled columns smoothing pads every typed column with Nones to the longest length and never truncates; it succeeds exactly when every non-empty object column is already that long, and otherwise raises TypeError with each column as it was or padded |
| Frames.Init | pyaxols/atypes/table.py:67-70 | `Table(data)` smooths and swallows any exception, keeping the names |
| Frames.LegacyPadStep | atypes/table.py:122-125 | the legacy smoothing step of a column is the padding converted through `dtype(None)` |
| Frames.SmoothPadsLegacy | atypes/table.py:122-125 | legacy smoothing succeeds exactly when every column's converted padding succeeds; each column is then that padding, and after an error each column is as it was or padded |
| Frames.LegacyShortColumnStaysShort | atypes/table.py:122-125 | a legacy int column shorter than another stays short: `int(None)` raises, `Table(data)` swallows it, and the column keeps its length |
| Frames.SmoothEven | pyaxols/atypes/table.py:554-557 | smoothing a table whose columns have one length changes nothing, in every edition |
| Frames.SmoothKeepsSchema | pyaxols/atypes/table.py:554-557 | smoothing keeps every column's name and dtype |
| Frames.Concat | pyaxols/atypes/table.py:72-92 | `concat` holds this table's names, then the other's new names |
| Frames.ConcatColumns | pyaxols/atypes/table.py:92 | `concat` holds the names of both tables; a shared name takes the other's column; each column is the original or its padding |
| Frames.SmoothedEntries | pyaxols/atypes/table.py:67-70 | after construction each column, by name, is the given column or its padding |
| Frames.MergeSettled | pyaxols/atypes/table.py:92 | merging tables of settled columns gives settled columns |
| Frames.Blank | pyaxols/atypes/table.py:575-591 | the table of the given names and dtypes with no rows |
| Frames.Empty | pyaxols/atypes/table.py:575-591 | `Table.empty(cols, dtypes)` is a well-formed table |
| Frames.EmptyIsBlank | pyaxols/atypes/table.py:591 | with different names, `Table.empty` is the blank table, and the dtypes past the last name are ignored because `zip` stops at the shorter list |
| Frames.FromSeqs | pyaxols/atypes/table.py:593-609 | `from_seqs` raises ValueError exactly when two Seqs share a name; otherwise its names are the Seqs' names in order, each column keeping its Seq's name and dtype |
| Frames.Unnamed | pyaxols/atypes/table.py:565 | the generated names `unnamed_0`, `unnamed_1`, ... are all different |
| Frames.CreateCols | pyaxols/atypes/table.py:559-573 | `_create_cols`: without names, `unnamed_i`, or IndexError when there is no data; given names must be one per list and all different (ValueError), and only then all strings (TypeError); an argument without a length is a TypeError; the result has one distinct name per list |
| Frames.DtypesArg | pyaxols/atypes/table.py:650-679 | the `dtypes` argument: left out, all `object`; given, one per column or ValueError, and only then all types (TypeError); an argument without a length is a TypeError |
| Frames.BuildList | pyaxols/atypes/table.py:671-679 | each list goes through the Seq constructor with its name and dtype, the first error propagating |
| Frames.BuildColumns | pyaxols/atypes/table.py:671-679 | the table of those columns has the given names in order, with their dtypes |
| Frames.BuildColumnsEven | pyaxols/atypes/table.py:671-679 | with lists of one length no padding happens: each column is what the constructor stores |
| Frames.FromIterable | pyaxols/atypes/table.py:650-679 | `from_iterable` raises what the names check raises, then what the dtypes check raises; its result has those names and dtypes |
| Frames.FromDictOfIterable | pyaxols/atypes/table.py:611-648 | `from_dict_of_iterable` keeps the dict's key order and takes the dtypes argument's dtypes |
| Frames.Select | pyaxols/atypes/table.py:699-705 | `t[names]` succeeds exactly when every name is present, and holds exactly those names; otherwise KeyError |
| Frames.SelectEven | pyaxols/atypes/table.py:699-705 | on an even table `t[names]` is exactly those columns in the order asked for |
| Frames.Subscript | pyaxols/atypes/table.py:699-705 | `t[key]`: a name gives its column or KeyError, a list of names a new table, anything else TypeError |
| Frames.SetItem | pyaxols/atypes/table.py:707-713 | `t[key] = value`: TypeError for a non-str key; otherwise the column is stored, a new name going last, and the table smoothed with its error propagating |
| Frames.SetItemEven | pyaxols/atypes/table.py:707-713 | storing a column as long as the others into an even table only stores it |
| Frames.Head | pyaxols/atypes/table.py:506-508 | `t.head(n)` keeps the names; its rows are stated by `RowOps.HeadRows` |
| Frames.Tail | pyaxols/atypes/table.py:510-512 | `t.tail(n)` keeps the names; its rows are stated by `RowOps.TailRows` |
| Frames.HeadOfCols | pyaxols/atypes/table.py:506-508 | the head table is built from the columns' heads |
| Frames.TailOfCols | pyaxols/atypes/table.py:510-512 | the tail table is built from the columns' tails |
| Frames.UnionAll | pyaxols/atypes/table.py:129-153 | `union_all` raises ValueError for different name sets; its result keeps this table's names, and every column's `+` succeeded |
| Frames.UnionAllOfCols | pyaxols/atypes/table.py:149-153 | the union is built from each column plus the other's column of the same name |
| RowOps.Rows | pyaxols/atypes/table.py:502-504 | a rectangular table has one row per position, each as wide as the table |
| RowOps.WithRowsRows | pyaxols/atypes/table.py:502-504 | filling a table with rows and reading them back gives the same rows |
| RowOps.RowsWithRows | pyaxols/atypes/table.py:502-504 | a rectangular table is the table of its own rows |
| RowOps.RowOfRect | pyaxols/atypes/table.py:502-504 | on a rectangular table `t.i(index)` succeeds exactly for a row index in range, negative included, and is that row |
| RowOps.AppendRow | pyaxols/atypes/table.py:396-432 | `append_row`: TypeError for a non-sequence, ValueError for a wrong length, TypeError for an element that is neither None nor of its column's dtype, and only then one element appended to each column |
| RowOps.AppendRowRows | pyaxols/atypes/table.py:418-432 | appending a row that passes the checks adds it as the last row |
| RowOps.DelCol | pyaxols/atypes/table.py:473 | `del s[index]` on one column succeeds exactly for an index in range; otherwise IndexError |
| RowOps.DropRow | pyaxols/atypes/table.py:454-474 | `drop_row` keeps the names |
| RowOps.DropRowColumns | pyaxols/atypes/table.py:454-474 | `drop_row` succeeds exactly when every column has the index, and otherwise raises IndexError; on success each column loses that element; after an IndexError there is a first column without the index, every column before it has lost the element, and it and every later column are unchanged |
| RowOps.DropRowRows | pyaxols/atypes/table.py:454-474 | on a rectangular table `drop_row` removes exactly that row, or raises IndexError and changes nothing |
| RowOps.DropNonesFrom | pyaxols/atypes/table.py:480-488 | the `drop_nones` loop keeps the names |
| RowOps.DropNones | pyaxols/atypes/table.py:480-488 | `drop_nones` keeps the names |
| RowOps.DropNonesRows | pyaxols/atypes/table.py:480-488 | on a rectangular table `drop_nones` keeps exactly the rows without None, in order |
| RowOps.DropNonesLoop | pyaxols/atypes/table.py:482-487 | from row i on, the loop keeps the rows before i and the later rows without None |
| RowOps.FindRow | pyaxols/atypes/table.py:239-242 | the `contains_row` loop finds the row only at a position holding it, and raises IndexError only |
| RowOps.ContainsRow | pyaxols/atypes/table.py:219-242 | `contains_row` raises ValueError for a wrong-length row and answers true only for a row among the first `len(t)` positions |
| RowOps.ContainsRowRows | pyaxols/atypes/table.py:239-242 | `contains_row` searches the first `len(t)` rows and raises IndexError past the last row |
| RowOps.ContainsRowAll | pyaxols/atypes/table.py:219-238 | the search the documentation describes raises ValueError for a wrong-length row |
| RowOps.ContainsRowAllFinds | pyaxols/atypes/table.py:219-238 | that search answers whether the row is one of the table's rows |
| RowOps.CountFrom | pyaxols/atypes/table.py:213-217 | the count loop counts at most one per position and raises IndexError only |
| RowOps.RowCount | pyaxols/atypes/table.py:192-217 | `row_count` raises ValueError for a wrong-length row and counts at most `len(t)`; the legacy atypes/table.py:33-41 is the same loop |
| RowOps.RowCountAll | pyaxols/atypes/table.py:192-212 | the count the documentation describes raises ValueError for a wrong-length row and counts at most the height |
| RowOps.CountFromRows | pyaxols/atypes/table.py:213-217 | the loop from k to n counts the occurrences among rows k to n, or raises IndexError when n passes the last row |
| RowOps.RowCountAllCounts | pyaxols/atypes/table.py:192-212 | the described count is the number of occurrences of the row |
| RowOps.RowCountFirstRows | pyaxols/atypes/table.py:213-217 | as written, `row_count` counts among the first `len(t)` rows, and raises IndexError when there are fewer rows than columns |
| RowOps.RowCountMissesRows | pyaxols/atypes/table.py:213-217 | on a one-column table holding 1 twice, `row_count((1,))` answers 1 where the described count answers 2 |
| RowOps.HeadRows | pyaxols/atypes/table.py:506-508 | `t.head(n)` of a rectangular table holds the rows `[:n]`, for every n |
| RowOps.TailRows | pyaxols/atypes/table.py:510-512 | `t.tail(n)` holds the rows `[-n:]`, for every n, so `tail(0)` is the whole table |
| RowOps.HeadTailCounts | pyaxols/atypes/table.py:506-512 | for n >= 0 the head is the first `min(n, H)` rows and the tail the last `min(n, H)`, except that `tail(0)` is every row |
| RowOps.SliceRows | pyaxols/atypes/table.py:506-512 | cutting every column to one range of positions gives the rows in that range |
| RowOps.UnionAllRows | pyaxols/atypes/table.py:129-153 | `union_all` of tables with typed, settled columns stacks the other's rows, read in this table's column order, below this table's rows; the row count is the sum |
| RowOps.SumSettled | pyaxols/atypes/seq.py:390-391 | a typed settled column plus a settled column of its dtype stores both lists as they are |
| RowOps.UnionAllObject | pyaxols/atypes/table.py:149-153 | an object column never concatenates, so a union succeeds only when each object column of this table is empty |
| RowOps.Twice | pyaxols/atypes/table.py:213-217 | a one-column table holding 1 twice, to show the row loops' bound |
| Queries.Template | pyaxols/atypes/table.py:498 | `Table.empty(t.cols, t.dtypes)` has t's names and dtypes and no row |
| Queries.Keeps | pyaxols/atypes/table.py:498-499 | the test of one row: `get_nones` keeps a row exactly when it holds None, `where` exactly when func passes its value in the column |
| Queries.EmptyTemplate | pyaxols/atypes/table.py:498 | `Table.empty` of a table's own names and dtypes is its template |
| Queries.SettledTyped | pyaxols/atypes/seq.py:366-369 | with lawful conversions, a rectangular packaged or legacy table of settled columns holds only None and instances of the dtypes, so `append_row` accepts its rows |
| Queries.Collect | pyaxols/atypes/table.py:495-500 | the row loop that appends the rows a test keeps keeps the result's names |
| Queries.CollectFilter | pyaxols/atypes/table.py:495-500 | the row loop from k to n appends, in order, exactly the rows the test keeps, or raises IndexError past the last row |
| Queries.CollectTemplate | pyaxols/atypes/table.py:495-500 | a row loop over a typed table into its template keeps exactly the kept rows among the first n, or raises IndexError |
| Queries.GetNones | pyaxols/atypes/table.py:495-500 | `get_nones` keeps the names |
| Queries.GetNonesAll | pyaxols/atypes/table.py:495-500 | the `get_nones` the documentation describes keeps the names |
| Queries.GetNonesFirstRows | pyaxols/atypes/table.py:495-500 | as written, `get_nones` keeps the rows holding None among the first `len(t)` rows, and raises IndexError when there are fewer rows than columns |
| Queries.GetNonesAllRows | pyaxols/atypes/table.py:495-500 | the described `get_nones` holds exactly the rows holding None, in order |
| Queries.Intersect | pyaxols/atypes/table.py:155-181 | `intersect` raises ValueError unless both tables have the same names in the same order, and keeps the names |
| Queries.IntersectAll | pyaxols/atypes/table.py:155-174 | the described `intersect` has the same checks |
| Queries.IntersectFirstRows | pyaxols/atypes/table.py:177-181 | as written, `intersect` keeps, among this table's first `len(t)` rows, those among the other's first `len(other)` rows, or raises IndexError |
| Queries.IntersectAllRows | pyaxols/atypes/table.py:155-174 | the described `intersect` keeps exactly this table's rows that are rows of the other, in order |
| Queries.WhereFrom | pyaxols/atypes/table.py:188-190 | the `where` loop keeps the names |
| Queries.Where | pyaxols/atypes/table.py:183-190 | `where` raises TypeError for a non-callable func and KeyError for a missing column; the result keeps the names |
| Queries.WhereIsCollect | pyaxols/atypes/table.py:188-190 | the loop over a column's values is the row loop testing that column |
| Queries.WhereRows | pyaxols/atypes/table.py:183-190 | on a typed table `where` holds exactly the rows whose value in the column passes func, in order |
| Queries.AddNew | pyaxols/atypes/table.py:121-126 | the `union` loop keeps the result's names |
| Queries.Union | pyaxols/atypes/table.py:94-127 | `union` raises ValueError for different name sets, in any order, and keeps this table's names |
| Queries.UnionRaises | pyaxols/atypes/table.py:119-126 | as written, `union` of tables with a column always raises IndexError, and without columns gives the empty table |
| Queries.AddNewFirstFails | pyaxols/atypes/table.py:121-123 | the first `contains_row` on the empty result reads its row 0 and raises IndexError |
| Queries.AddNewRows | pyaxols/atypes/table.py:94-113 | adding the rows not yet collected only adds rows of either list |
| Queries.AddNewRowsAppend | pyaxols/atypes/table.py:121-126 | adding the rows of `a + b` adds those of a, then those of b |
| Queries.AddNewRowsMembers | pyaxols/atypes/table.py:94-113 | the collected rows are exactly those of both lists, each once when the first list had no repeats |
| Queries.DedupRows | pyaxols/atypes/table.py:94-113 | the rows of a list each once, and exactly those |
| Queries.UnionDistinct | pyaxols/atypes/table.py:94-117 | the described `union` has the same name-set check and keeps this table's names |
| Queries.UnionDistinctRows | pyaxols/atypes/table.py:94-113 | the described `union` holds each row of the other table, then of this one, once, in order of first occurrence |
| Queries.AddNewAll | pyaxols/atypes/table.py:121-126 | the described loop over a table adds, in order, the rows not yet collected |
| Ordering.Permuted | pyaxols/atypes/table.py:272-279 | every column read at the indices succeeds exactly when all indices are in range for every column; otherwise IndexError |
| Ordering.FromIterableFixed | pyaxols/atypes/table.py:650-679 | `from_iterable` on lists of one length that the constructor keeps is exactly the table of those lists |
| Ordering.ColumnsOfRows | pyaxols/atypes/table.py:272-279 | columns that are the projections of rows make the table of those rows |
| Ordering.Reordered | pyaxols/atypes/table.py:272-283 | rebuilding from permuted columns keeps the names and dtypes |
| Ordering.ReorderedRows | pyaxols/atypes/table.py:272-283 | rebuilding a rectangular settled table from its columns permuted by p holds its rows in p's order |
| Ordering.PermutedRows | pyaxols/atypes/table.py:272-279 | the permuted columns of a rectangular table are the columns of its permuted rows |
| Ordering.SortedAsWritten | pyaxols/atypes/table.py:266-283 | as written, `sorted` always raises: TypeError for a non-str column, ValueError for a missing one, and TypeError from the `dtype=` keyword otherwise |
| Ordering.SortedTable | pyaxols/atypes/table.py:266-283 | the intended `sorted`: TypeError for a non-str column, ValueError for a missing one; the result keeps names and dtypes |
| Ordering.SortOrder | pyaxols/atypes/table.py:275-277 | the order `sorted` takes rows in has one index per element of the key column, all in range |
| Ordering.SortedTableRows | pyaxols/atypes/table.py:266-283 | sorting a rectangular settled table by column j gives its rows in the `argsort` order of that column |
| Ordering.SortOrderSorts | pyaxols/atypes/table.py:266-283 | the rows in that order are a permutation of the rows, ordered by column j (descending with desc), equal keys keeping their order |
| Ordering.LessIsStrictWeak | pyaxols/atypes/table.py:316-320 | `<` on ints is a strict weak order |
| Ordering.Objects | pyaxols/atypes/table.py:671-672 | the default dtypes are `object` for every column |
| Ordering.SortedByPatternTable | pyaxols/atypes/table.py:316-320 | as written, `sorted_by_pattern` raises ValueError unless the pattern has one entry per column, and IndexError for a table without columns; its result has the names `unnamed_i` and dtype object |
| Ordering.SortedByPatternRows | pyaxols/atypes/table.py:316-320 | as written, with one pattern entry per column the result holds the first `len(pattern)` rows in the pattern's order |
| Ordering.DocTable | pyaxols/atypes/table.py:305-314 | the table of the documented example |
| Ordering.SortedByPatternDocExample | pyaxols/atypes/table.py:305-317 | the documented call `sorted_by_pattern([1, 2, 0])` on a two-column, three-row table raises ValueError |
| Ordering.PatternOrder | pyaxols/utils.py:1-3 | `argsort(pattern)` has one index per pattern entry |
| Ordering.RowsByPattern | pyaxols/atypes/table.py:285-314 | the documented `sorted_by_pattern`: ValueError unless the pattern has one entry per row; the result keeps names and dtypes |
| Ordering.RowsByPatternRows | pyaxols/atypes/table.py:285-314 | the documented `sorted_by_pattern` holds the rows in the order the pattern ranks them |
| Ordering.PatternOrderSorts | pyaxols/atypes/table.py:285-314 | in that order the pattern values never decrease, equal values keep their order, and the rows are a permutation |
| Ordering.RowsByPatternDocExample | pyaxols/atypes/table.py:305-314 | under the documented behaviour the example gives the rows (3, 6), (1, 4), (2, 5) |
| Ordering.RunsFrom | pyaxols/atypes/table.py:384-394 | the runs from position k on, after the current run, are non-empty and as wide as the table |
| Ordering.Runs | pyaxols/atypes/table.py:384-394 | the runs of equal keys are non-empty and as wide as the table |
| Ordering.RunsSplit | pyaxols/atypes/table.py:384-394 | the runs put back together are the rows, each run agrees on the key, and neighbouring runs differ |
| Ordering.Pairs | pyaxols/atypes/table.py:390-394 | the list `res` of k groups has 2(k-1) entries, so none for a single group |
| Ordering.PairsLayout | pyaxols/atypes/table.py:390-394 | entries 2i and 2i+1 of `res` are groups i and i+1, so every inner group appears twice |
| Ordering.PairsSnoc | pyaxols/atypes/table.py:390-394 | a new group adds the closed group and itself |
| Ordering.PairsIn | pyaxols/atypes/table.py:390-394 | every entry of `res` is one of the groups |
| Ordering.Groups | pyaxols/atypes/table.py:384-394 | the tables of a table's schema holding each run |
| Ordering.PairsOf | pyaxols/atypes/table.py:390-394 | `res` for a loop that did not raise, and its error otherwise |
| Ordering.GroupFrom | pyaxols/atypes/table.py:386-394 | the `group_by` loop closes at least the groups it had |
| Ordering.GroupStart | pyaxols/atypes/table.py:385-386 | the set-up of `group_by`: TypeError for a non-str column, ValueError for a missing one, and otherwise a sorted table with a non-empty key column whose first key is read first |
| Ordering.GroupByLoop | pyaxols/atypes/table.py:386-394 | after its set-up, `group_by` is `res` laid out from the loop started on an empty table of the schema |
| Ordering.GroupByAsWritten | pyaxols/atypes/table.py:385 | as written, `group_by` always raises, TypeError for a known column, because `sorted` does |
| Ordering.GroupBy | pyaxols/atypes/table.py:381-394 | `group_by` with a working `sorted`: TypeError for a non-str column, ValueError for a missing one |
| Ordering.GroupList | pyaxols/atypes/table.py:381-394 | the groups `group_by` builds, at least one, of which `res` is the `Pairs` layout that `Ordering.GroupBy` gives |
| Ordering.GroupByRaise | pyaxols/atypes/table.py:385-386 | `group_by` raises what sorting or reading the first key raises |
| Ordering.GroupByRuns | pyaxols/atypes/table.py:381-394 | on a typed, settled table with rows, `group_by` with a working `sorted` gives `res` laid out from the maximal runs of the sorted rows |
| Ordering.GroupByNoRows | pyaxols/atypes/table.py:386 | a table without rows cannot be grouped: `sorted[col][0]` raises IndexError |
| Joins.JoinFrom | pyaxols/atypes/table.py:361-371 | the `left_join` loop leaves a well-formed table |
| Joins.DropShared | pyaxols/atypes/table.py:372-374 | dropping the shared columns leaves a well-formed table |
| Joins.LeftJoin | pyaxols/atypes/table.py:327-375 | `left_join`: KeyError for a missing key column, ValueError for key dtypes that differ, ValueError when the tables share a column other than one common key |
| Joins.LeftJoinSharedRaises | pyaxols/atypes/table.py:354-359 | with one key name the tables may share only that column, with two key names none at all; otherwise ValueError |
| Joins.RightJoin | pyaxols/atypes/table.py:377-379 | `right_join` is the left join with the tables swapped |
| Joins.InnerJoin | pyaxols/atypes/table.py:322-325 | `inner_join` raises what `left_join` raises |
| Joins.Matched | pyaxols/atypes/table.py:361-371 | the row a left key selects is as wide as the right table |
| Joins.MatchedFirst | pyaxols/atypes/table.py:361-371 | that row is the right table's first row with the key, and all None when no row has it |
| Joins.Matches | pyaxols/atypes/table.py:361-371 | the rows the left keys select, in order |
| Joins.JoinLoop | pyaxols/atypes/table.py:361-371 | on a typed right table the join loop never raises: from any position on it appends the matched rows in order |
| Joins.LeftJoinRows | pyaxols/atypes/table.py:327-375 | a join whose checks pass has this table's names, then the right's minus a shared key; this table's height and columns unchanged; and row i is this table's row i followed by the right row its key selects, shared key cut |
| Joins.LeftRows | pyaxols/atypes/table.py:361-375 | the joined rows, top to bottom |
| Joins.InnerJoinRows | pyaxols/atypes/table.py:322-325 | an inner join is the left join without the `other_on` column and without every row holding None, the others in order |
| Joins.CutRows | pyaxols/atypes/table.py:447 | every row without one position |
| Joins.DropColRows | pyaxols/atypes/table.py:434-448 | dropping a column of a rectangular table drops that element of every row |
| Joins.NonesDropped | pyaxols/atypes/table.py:480-488 | `drop_nones` on a rectangular table holds its rows without None |
| Joins.ConcatDisjoint | pyaxols/atypes/table.py:92 | concatenating tables of one height that share no name holds both tables' columns, in order, unpadded |
| Dicts.MergeDisjoint | pyaxols/atypes/table.py:92 | merging dicts that share no key holds the keys and values of both, in order |
| Tables.Store.constructor | pyaxols/atypes/table.py:66 | the dict object `_data` |
| Tables.Store.AppendRow | pyaxols/atypes/table.py:418-432 | the body of `append_row` leaves the dict as `RowOps.AppendRow` says, and unchanged when it raises |
| Tables.Store.CheckRow | pyaxols/atypes/table.py:422-428 | the element-by-element dtype check answers `RowFits` |
| Tables.Store.PushRow | pyaxols/atypes/table.py:429-430 | the appending loop extends each column by its element |
| Tables.Store.DropCol | pyaxols/atypes/table.py:446-447 | `del self._data[col]` as `Dict.Remove`, unchanged on KeyError |
| Tables.Store.UpdateColumns | pyaxols/atypes/table.py:556-557 | the column loop leaves the dict as `UpdateEach` says |
| Tables.Store.Smooth | pyaxols/atypes/table.py:554-557 | `_smooth` leaves the dict as `Frames.Smooth` says, in either edition |
| Tables.Table.constructor | pyaxols/atypes/table.py:45-70 | `Table(data)` holds the smoothed data |
| Tables.Table.Sharing | pyaxols/atypes/table.py:452 | a table object around an existing dict |
| Tables.Table.Empty | pyaxols/atypes/table.py:575-591 | `Table.empty` gives a fresh table holding `Frames.Empty` |
| Tables.Table.Copy | pyaxols/atypes/table.py:452 | `copy(t)` is a new object sharing the dict |
| Tables.Table.AppendRow | pyaxols/atypes/table.py:396-432 | `append_row` changes the dict as `RowOps.AppendRow` says, leaves it unchanged on error, and returns self |
| Tables.Table.DropCol | pyaxols/atypes/table.py:434-448 | `drop_col` removes the column or raises KeyError with nothing changed, and returns self |
| Tables.Table.DropRow | pyaxols/atypes/table.py:454-474 | `drop_row` changes the dict as `RowOps.DropRow` says, and returns self |
| Tables.Table.DropNones | pyaxols/atypes/table.py:480-488 | `drop_nones` changes the dict as `RowOps.DropNones` says, and returns self |
| Tables.Table.SetItem | pyaxols/atypes/table.py:707-713 | `t[key] = value` changes the dict as `Frames.SetItem` says |
| Tables.Table.Smooth | pyaxols/atypes/table.py:554-557 | `_smooth` changes the dict as `Frames.Smooth` says |
| Tables.Table.Concat | pyaxols/atypes/table.py:72-92 | `concat` gives a fresh table holding `Frames.Concat` |
| Tables.Table.Iter | pyaxols/atypes/table.py:723-725 | `iter(t)` resets the cursor and returns self |
| Tables.Table.Next | pyaxols/atypes/table.py:727-732 | `next(t)` yields the row at the cursor while it is below the number of columns, and StopIteration after |
| Tables.Table.DroppedCol | pyaxols/atypes/table.py:450-452 | `dropped_col` drops the column from this table too, and returns a new object sharing its dict |
| Tables.Table.DroppedRow | pyaxols/atypes/table.py:476-478 | `dropped_row` drops the row from this table too, and returns a new object sharing its dict |
| Tables.Table.DroppedNones | pyaxols/atypes/table.py:490-493 | `dropped_nones` drops the rows from this table too, and returns a new object sharing its dict |
| Tables.Table.DroppedColCopy | pyaxols/atypes/table.py:450-452 | the documented `dropped_col`: a fresh table without the column, this one left as it is |
| Tables.Table.DroppedRowCopy | pyaxols/atypes/table.py:476-478 | the documented `dropped_row`, this table left as it is |
| Tables.Table.DroppedNonesCopy | pyaxols/atypes/table.py:490-493 | the documented `dropped_nones`, this table left as it is |
| Tables.Table.RowCount | pyaxols/atypes/table.py:192-217 | the loop of `row_count` computes `RowOps.RowCount` |
| Tables.Table.ContainsRow | pyaxols/atypes/table.py:219-242 | the loop of `contains_row` computes `RowOps.ContainsRow` |
| Tables.Table.GetNones | pyaxols/atypes/table.py:495-500 | `get_nones` gives a fresh table holding `Queries.GetNones` |
| Tables.Table.CollectNones | pyaxols/atypes/table.py:497-499 | the `get_nones` loop leaves this table as `Collect` says |
| Tables.Table.NonesStep | pyaxols/atypes/table.py:498-499 | one turn of that loop |
| Tables.Table.Intersect | pyaxols/atypes/table.py:155-181 | `intersect` gives a fresh table holding `Queries.Intersect` |
| Tables.Table.CollectFound | pyaxols/atypes/table.py:177-181 | the `intersect` loop leaves this table as `Collect` says |
| Tables.Table.Where | pyaxols/atypes/table.py:183-190 | `where` gives a fresh table holding `Queries.Where` |
| Tables.Table.CollectWhere | pyaxols/atypes/table.py:188-190 | the `where` loop leaves this table as `WhereFrom` says |
| Tables.Table.Union | pyaxols/atypes/table.py:94-127 | `union` gives a fresh table holding `Queries.Union` |
| Tables.Table.LeftJoin | pyaxols/atypes/table.py:327-375 | `left_join` gives a fresh table holding `Joins.LeftJoin` |
| Tables.Table.MatchedRows | pyaxols/atypes/table.py:361-374 | the matches collected and the shared columns dropped |
| Tables.Table.RightJoin | pyaxols/atypes/table.py:377-379 | `right_join` gives a fresh table holding `Joins.RightJoin` |
| Tables.Table.InnerJoin | pyaxols/atypes/table.py:322-325 | `inner_join` gives a table holding `Joins.InnerJoin` |
| Tables.Table.CollectMatches | pyaxols/atypes/table.py:361-371 | the `left_join` loop leaves this table as `JoinFrom` says |
| Tables.Table.DropShared | pyaxols/atypes/table.py:372-374 | the drop loop leaves this table as `Joins.DropShared` says |
| Tables.Table.GroupBy | pyaxols/atypes/table.py:381-394 | `group_by` with a working `sorted`, as corrected: `res` holds `Ordering.GroupBy`; it is `Pairs` of group objects `gs` that hold `Ordering.GroupList`, so each inner group is one object at positions 2i+1 and 2i+2; different groups hold different fresh dicts; the method as written raises TypeError, as `Ordering.GroupByAsWritten` states |
| Tables.Table.AddMissing | pyaxols/atypes/table.py:121-126 | the `union` loop leaves this table as `AddNew` says |
| Tables.Table.AddStep | pyaxols/atypes/table.py:122-123 | one turn of that loop |
| Tables.GroupRuns | pyaxols/atypes/table.py:386-394 | the `group_by` loop gives `res` laid out as `PairsOf(GroupFrom(...))`: `res` is `Pairs` of group objects holding `GroupFrom`'s groups, the object appended twice (table.py:389-391) being the same, and different groups holding different dicts |
| Tables.GroupStep | pyaxols/atypes/table.py:387-394 | one turn of that loop, with the closed groups' objects kept apart |
| Tables.FillStep | pyaxols/atypes/table.py:387-394 | the table work of one turn: a fresh current table on a new key, then the row appended |
| Tables.Views | pyaxols/atypes/table.py:381-394 | the contents of each table of a list |
| Tables.Shifted | pyaxols/atypes/table.py:215-216 | a running count carried through a count that may raise |
| LegacyTables.ContainsRow | atypes/table.py:43-46 | legacy `contains_row`: ValueError exactly for a wrong-length row, and otherwise always false |
| LegacyTables.ContainsRowMisses | atypes/table.py:43-46 | on a one-column table holding 1 twice the packaged search finds `(1,)` and the legacy one does not |
| LegacyTables.Iter | atypes/table.py:231-232 | legacy `iter(t)` yields each column name once, as many as `len(t)`, and no rows |
| LegacyTables.JoinFrom | atypes/table.py:77-86 | the legacy join loop leaves a well-formed table |
| LegacyTables.LeftJoinOn | atypes/table.py:70-90 | legacy `left_join(on, other)`: KeyError for a missing key column, ValueError for key dtypes that differ |
| LegacyTables.RightJoinOn | atypes/table.py:92-93 | legacy `right_join(on, other)` is `other.left_join(on, self)` |
| LegacyTables.JoinFromAgrees | atypes/table.py:77-86 | with a None row as wide as the right table the legacy loop is the packaged one |
| LegacyTables.LeftJoinAgrees | atypes/table.py:70-90 | when the tables have as many columns and share exactly one, the legacy join is the packaged `left_join(other, on, on)` |
| LegacyTables.UnmatchedRaises | atypes/table.py:84 | a left key the right table lacks makes the legacy join raise ValueError whenever the tables differ in column count |
| LegacyTables.MatchedAppends | atypes/table.py:85-86 | a left key the right table holds selects a row `append_row` accepts, and the result keeps the right table's schema |
| LegacyTables.CreateColsSet | atypes/table.py:127-141 | legacy `_create_cols` has the packaged checks but returns the set of names |
| LegacyTables.SetOrder | atypes/table.py:141 | an iteration order of a set: each element exactly once |
| LegacyTables.FromIterableSet | atypes/table.py:171-184 | legacy `from_iterable` raises what the checks raise; its names are the set's iteration order, holding exactly the given names |
| LegacyTables.FromIterableSetInOrder | atypes/table.py:171-184 | where the set iterates in the given order the legacy `from_iterable` is the packaged one |
| LegacyTables.Sorted | atypes/table.py:48-61 | legacy `sorted`: TypeError for a non-str column, ValueError for a missing one; the result has the same set of names and the dtypes in key order |
| LegacyTables.SortedPairsBySetOrder | atypes/table.py:48-61 | legacy `sorted` stores the j-th permuted column under the j-th name of the set order, through the j-th dtype |
| LegacyTables.SortedBuilds | atypes/table.py:54-61 | legacy `sorted` is `from_iterable` of the permuted columns, named in the set order of the keys, with the dtypes in key order |
| LegacyTables.LegacyTable.constructor | atypes/table.py:8-19 | legacy `Table(data)` holds the smoothed data |
| LegacyTables.LegacyTable.Sharing | atypes/table.py:117 | `copy(t)`: a second table object around an existing dict |
| LegacyTables.LegacyTable.Empty | atypes/table.py:143-145 | legacy `Table.empty` gives a fresh table holding `Frames.Empty` |
| LegacyTables.LegacyTable.AppendRow | atypes/table.py:95-110 | legacy `append_row` changes the dict as `RowOps.AppendRow` says, unchanged on error |
| LegacyTables.LegacyTable.DropCol | atypes/table.py:112-114 | legacy `drop_col` removes the column or raises KeyError with nothing changed |
| LegacyTables.LegacyTable.Smooth | atypes/table.py:122-125 | legacy `_smooth` changes the dict as `Frames.Smooth` says for the legacy edition |
| LegacyTables.LegacyTable.SetItem | atypes/table.py:215-221 | legacy `t[key] = value` changes the dict as `Frames.SetItem` says |
| LegacyTables.LegacyTable.Concat | atypes/table.py:21-24 | legacy `concat` gives a fresh table holding `Frames.Concat` |
| LegacyTables.LegacyTable.LeftJoin | atypes/table.py:70-90 | legacy `left_join` gives a fresh table holding `LeftJoinOn` |
| LegacyTables.LegacyTable.RightJoin | atypes/table.py:92-93 | legacy `right_join` gives a fresh table holding `RightJoinOn` |
| LegacyTables.LegacyTable.CollectMatches | atypes/table.py:77-86 | the legacy join loop leaves this table as `JoinFrom` says |
| LegacyTables.LegacyTable.DropShared | atypes/table.py:87-89 | the legacy drop loop leaves this table as `Joins.DropShared` says |

## Left out

- The shared `it` cursor of a table is modelled only by `Tables.Table.Iter` and `Tables.Table.Next`. The row loops read rows by index instead. So `intersect(t, t)` is not modelled. There `contains_row` restarts the cursor the outer loop is using and leaves it one past the first row equal to the current one (pyaxols/atypes/table.py:239-242, :723-730). When the first `len(t)` rows are all different, the loop ends as the model says. When one of them repeats an earlier row, the cursor goes back to just after that earlier row, and the loop never ends.
- `Seq` objects shared between tables (through `from_seqs`, `t[names]`, `concat` and the `left_join` result) are not modelled. Columns are values inside the dict. Only the sharing of a whole dict between a table and its `copy` is modelled, through `Tables.Store`. So the model does not show `inner_join` shortening the left input's columns.
- Container kinds are not modelled: an object column that keeps the caller's tuple or range by reference, so that a later `append` or `del` raises. The same goes for the `isinstance` checks on `Table` and `Seq` arguments (an argument of the wrong class), and the tuples the legacy `filter` and `map` produce. Data is a Dafny `seq`.
- Python `==` across types (`1 == True == 1.0`) is not modelled: equality of values is structural.
- Floats and every other object are `Opaque` values. Their `+` raises TypeError (`Values.Plus`, `Column.Elementwise`), where Python would add floats.
- `Values.Call`: `dtype(x)` is the parameter `conv`, and `int()`, `str()` and `bool()` are not modelled. Lemmas that need conversion to be idempotent assume `Lawful(conv)`.
- `Ranking.ArgsortSortedStable`: comparison is a parameter `lt`, assumed to be a strict weak order. The TypeError that `<` raises between None and a number, or between mixed types, is not modelled.
- `Queries.Where`, `Column.FilterCol`, `Column.MapCol`: the user's `func` is a total Dafny function. A `func` that raises is not modelled: its exception would propagate out of `where` (pyaxols/atypes/table.py:189), `filter` (pyaxols/atypes/seq.py:229) or `map` (pyaxols/atypes/seq.py:244). Nor is a `where` func whose result is truthy or falsy without being a bool: the model's func returns a bool.
- `Frames.CreateCols`: the branch for data that are `Seq` objects, which takes their names, is not modelled; data are lists of values.
- `Frames.DtypesArg`: a `None` item passes the `dtypes` check, and `Seq(d, col, None)` then raises TypeError while the columns are built. The model counts `None` among the wrongly typed items, which raise TypeError before any column is built, so an earlier column's conversion error is not modelled in that case.
- The legacy `sorted_by_pattern` (atypes/table.py:63-68) is not modelled; its packaged counterpart is.
- The legacy `dropped_col` (atypes/table.py:116-117) is the same code as the packaged one and is modelled once, as `Tables.Table.DroppedCol`. The legacy `i`, `head`, `tail`, `union_all`, `cols`, `dtypes`, `shape` and `t[key]` are the `Frames` and `RowOps` functions applied to the legacy edition.
- atypes/table.py:2 imports `argsort` from a top-level `utils` that is not part of this model; the model takes it to be the packaged `argsort`.
- Mutable default arguments (`data={}` at atypes/table.py:10, `data=[]` at seq.py:7), shared between calls, are not modelled.
- Plotting (`hist`, `pie`, `plot`, `scatter`, `bar`) calls matplotlib and is left out. So is rendering: `__str__` uses `tabulate`.
- `_str_percentage` uses float division; `as_pycollection` and `toJson` wrap foreign constructors and `json.dumps`. All three are left out.
- The I/O adapters under `aio/` and `io/` read files and use the standard parsers; they are left out.
- Python's `dict` preserves insertion order; the model's `Dict` states it rather than deriving it.

## Findings

| source | as written | input that shows it | evidently intended | confidence | as-written member | corrected member |
|---|---|---|---|---|---|---|
| pyaxols/atypes/table.py:275-277 | `sorted` calls `argsort(..., dtype=...)`, which takes only `seq` and `desc` | `t.sorted(c)` for any column `c` of `t` raises TypeError | the columns permuted by `argsort` of the key column | not executed | Ordering.SortedAsWritten | Ordering.SortedTableRows |
| pyaxols/atypes/table.py:119-126 | `union` calls `contains_row` on the empty result, which reads its row 0 | `t.union(t)` for a table with a column raises IndexError | each distinct row of both tables once | not executed | Queries.UnionRaises | Queries.UnionDistinctRows |
| pyaxols/atypes/table.py:213-217 | `row_count` loops over `range(len(self))`, the number of columns | one column `a` holding 1 twice: `row_count((1,))` is 1 | the number of rows equal to the row | not executed | RowOps.RowCountMissesRows | RowOps.RowCountAllCounts |
| pyaxols/atypes/table.py:239-242 | `for r in self` in `contains_row` stops after `len(self)` rows, the number of columns | a one-column table whose second row is `(2,)`: `contains_row((2,))` is false | whether the row is a row of the table | not executed | RowOps.ContainsRowRows | RowOps.ContainsRowAllFinds |
| pyaxols/atypes/table.py:495-500 | `get_nones` iterates `len(self)` rows, the number of columns | a table with more columns than rows raises IndexError in `get_nones` | every row holding None | not executed | Queries.GetNonesFirstRows | Queries.GetNonesAllRows |
| pyaxols/atypes/table.py:177-181 | `intersect` iterates `len(self)` rows of each table | a table with more columns than rows raises IndexError in `intersect` | every row of this table that is a row of the other | not executed | Queries.IntersectFirstRows | Queries.IntersectAllRows |
| pyaxols/atypes/table.py:305-317 | `sorted_by_pattern` compares the pattern's length with the number of columns, and its documented example has one entry per row | columns `a` = 1, 2, 3 and `b` = 4, 5, 6 with pattern [1, 2, 0] raise ValueError | the rows in pattern order under the table's names and dtypes | not executed | Ordering.SortedByPatternDocExample | Ordering.RowsByPatternDocExample |
| pyaxols/atypes/table.py:385 | `group_by` calls `sorted`, which always raises | `t.group_by(c)` for any column `c` raises TypeError | groups of equal keys from the sorted rows | not executed | Ordering.GroupByAsWritten | Ordering.GroupByRuns |
| atypes/table.py:46 | legacy `contains_row` compares a tuple with the Seq objects of `_data.values()` | one column `a` holding 1 twice: `contains_row((1,))` is false | whether the row is a row of the table | not executed | LegacyTables.ContainsRowMisses | RowOps.ContainsRowAllFinds |
| atypes/table.py:84 | the legacy `left_join` pads an unmatched key with `self.shape[0]` Nones, the LEFT table's column count | a left table of two columns, a right one of three, and a key the right lacks raise ValueError | Nones as many as the right table's columns, as the packaged version does | not executed | LegacyTables.UnmatchedRaises | Joins.LeftJoinRows |
| atypes/table.py:54-61 | legacy `sorted` rebuilds through `from_iterable`, whose `_create_cols` returns a set (atypes/table.py:141), so names pair with data in the set's iteration order | any table whose names' set order differs from the key order gets its columns under other names | each permuted column under its own name | not executed | LegacyTables.SortedPairsBySetOrder | Ordering.SortedTableRows |
| atypes/table.py:122-125 | legacy `_smooth` pads through `grow`, which converts each None with the dtype (atypes/seq.py:40, 102-103) | an int column shorter than another: `int(None)` raises, `Table(...)` swallows it, and the column stays short | every typed column padded with None | not executed | Frames.LegacyShortColumnStaysShort | Frames.SmoothPads |
