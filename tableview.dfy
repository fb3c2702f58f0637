/**
  What a `DataTable` shows, as values: the header row built by `setupTable`, the rows
  `render` appends to the table body, the visible list computed by `filter` and
  `search`, the header sort markers `sortBy` maintains, and the items
  `getSelectedRows` looks up.  The class in `DataTableComponent` keeps the state and
  its methods are proved against the functions here.
 */
module TableView {
  import opened Wrappers
  import opened JsStrings
  import opened JsValues
  import opened ArraySort
  import Seqs

  /** `item.action` values with special meaning: initialisation, refund and reduction rows. */
  const InitAction: string := "\U{521D}\U{59CB}\U{5316}"
  const RefundAction: string := "\U{56DE}\U{8D39}"
  const ReductionAction: string := "\U{51CF}\U{8D39}"

  /** The text of the empty-state row. */
  const EmptyText: string := "\U{6682}\U{65E0}\U{6570}\U{636E}"

  /** The title of the actions header. */
  const ActionTitle: string := "\U{64CD}\U{4F5C}"

  /**
    A column definition.  `sortable` is the raw `column.sortable` setting (`Undefined`
    when absent); `render` is the optional cell callback, called with the item and its
    index in the visible list and returning markup.
   */
  datatype Column = Column(field: string, title: string, sortable: Value,
                           render: Option<(Row, nat) -> string>)

  /** `column.sortable !== false`. */
  predicate IsSortable(c: Column)
  {
    c.sortable != Bool(false)
  }

  /** An action descriptor: its position in the configuration and its optional `className`. */
  datatype ActionDesc = ActionDesc(key: nat, className: Option<string>)

  /**
    The options a table is created with.  `showActions` and `sortable` are `None` when the
    caller leaves them out, in which case the default (`true`) applies; a caller that passes
    them explicitly, even as `undefined`, overrides the default.  `actions` is `None` when
    absent; `onRowClick` and `onRenderComplete` say whether a callback function was given.
   */
  datatype Options = Options(showActions: Option<Value>, sortable: Option<Value>,
                             actions: Option<seq<ActionDesc>>,
                             onRowClick: bool, onRenderComplete: bool)

  /** The value of a setting after `{ ...defaultOptions, ...options }`, where the default is `true`. */
  function Setting(given: Option<Value>): Value
  {
    match given
    case None => Bool(true)
    case Some(v) => v
  }

  predicate ShowsActions(o: Options) { Truthy(Setting(o.showActions)) }

  /** `bindEvents` attaches click handlers to sortable headers only when this holds. */
  predicate BindsSortClicks(o: Options) { Truthy(Setting(o.sortable)) }

  /** One header cell: a column's title and `data-field`, or the actions header (which has no field). */
  datatype Header = ColumnHeader(title: string, field: string, sortable: bool) | ActionHeader(title: string)

  /** The header row `setupTable` builds. */
  function Headers(columns: seq<Column>, options: Options): (hs: seq<Header>)
    ensures |hs| == |columns| + (if ShowsActions(options) then 1 else 0)
    ensures forall i :: 0 <= i < |columns| ==>
              hs[i].ColumnHeader? && hs[i].field == columns[i].field && (hs[i].sortable <==> IsSortable(columns[i]))
    ensures ShowsActions(options) ==> hs[|columns|] == ActionHeader(ActionTitle)
  {
    seq(|columns|, i requires 0 <= i < |columns| =>
      ColumnHeader(columns[i].title, columns[i].field, IsSortable(columns[i])))
    + (if ShowsActions(options) then [ActionHeader(ActionTitle)] else [])
  }

  // ---------------------------------------------------------------- the visible list

  /** `filter(filterFn)`: `None` is an argument that is not a function. */
  function FilterRows(data: seq<Row>, filterFn: Option<Row -> bool>): seq<Row>
  {
    match filterFn
    case None => data
    case Some(p) => Seqs.Filter(data, p)
  }

  /** Some schema column's value, printed with `String` and lowercased, contains the lowercased keyword. */
  predicate RowMatches(columns: seq<Column>, item: Row, keyword: string)
  {
    exists j :: 0 <= j < |columns| && Includes(ToLower(ToStr(Get(item, columns[j].field))), ToLower(keyword))
  }

  /** `search(keyword)`: a blank keyword shows everything; otherwise the matching rows. */
  function SearchRows(data: seq<Row>, columns: seq<Column>, keyword: string): seq<Row>
  {
    if Trim(keyword) == "" then data
    else Seqs.Filter(data, (item: Row) => RowMatches(columns, item, keyword))
  }

  /** With a function, the visible list is exactly the rows of `data` satisfying it, in dataset order. */
  lemma FilterRowsSelects(data: seq<Row>, p: Row -> bool)
    ensures forall x :: x in FilterRows(data, Some(p)) <==> x in data && p(x)
    ensures Seqs.IsSubsequence(FilterRows(data, Some(p)), data)
    ensures forall x :: multiset(FilterRows(data, Some(p)))[x] == if p(x) then multiset(data)[x] else 0
  {
    forall x ensures x in FilterRows(data, Some(p)) <==> x in data && p(x) {
      Seqs.FilterMembership(data, p, x);
    }
    forall x ensures multiset(FilterRows(data, Some(p)))[x] == if p(x) then multiset(data)[x] else 0 {
      Seqs.FilterCount(data, p, x);
    }
    Seqs.FilterIsSubsequence(data, p);
  }

  /**
    A blank keyword (one that trims to nothing) shows all of `data`; any other keyword
    keeps, in dataset order, exactly the rows some schema column matches.
   */
  lemma SearchRowsSelects(data: seq<Row>, columns: seq<Column>, keyword: string)
    ensures AllWhitespace(keyword) ==> SearchRows(data, columns, keyword) == data
    ensures !AllWhitespace(keyword) ==>
              (forall x :: x in SearchRows(data, columns, keyword) <==> x in data && RowMatches(columns, x, keyword))
    ensures Seqs.IsSubsequence(SearchRows(data, columns, keyword), data)
    ensures !AllWhitespace(keyword) ==>
              forall x :: multiset(SearchRows(data, columns, keyword))[x] ==
                            if RowMatches(columns, x, keyword) then multiset(data)[x] else 0
  {
    TrimEmptyIff(keyword);
    var p := (item: Row) => RowMatches(columns, item, keyword);
    if !AllWhitespace(keyword) {
      forall x ensures x in SearchRows(data, columns, keyword) <==> x in data && RowMatches(columns, x, keyword) {
        Seqs.FilterMembership(data, p, x);
      }
      forall x ensures multiset(SearchRows(data, columns, keyword))[x] ==
                         if RowMatches(columns, x, keyword) then multiset(data)[x] else 0 {
        Seqs.FilterCount(data, p, x);
      }
      Seqs.FilterIsSubsequence(data, p);
    } else {
      Seqs.FilterAll(data, (item: Row) => true);
      Seqs.FilterIsSubsequence(data, (item: Row) => true);
    }
  }

  /** Changing a property that no column shows never changes whether a row matches. */
  lemma SearchIgnoresOtherFields(columns: seq<Column>, item: Row, keyword: string, g: string, v: Value)
    requires forall j :: 0 <= j < |columns| ==> columns[j].field != g
    ensures RowMatches(columns, item[g := v], keyword) <==> RowMatches(columns, item, keyword)
  {
    forall j | 0 <= j < |columns| ensures Get(item[g := v], columns[j].field) == Get(item, columns[j].field) {
    }
  }

  /** A row without one of the schema's properties prints it as `undefined`, so it matches the keyword `undef`. */
  lemma MissingFieldMatchesUndef(columns: seq<Column>, item: Row, j: nat)
    requires j < |columns| && columns[j].field !in item
    ensures RowMatches(columns, item, "undef")
  {
    var hay := ToLower(ToStr(Get(item, columns[j].field)));
    assert hay == "undefined";
    assert ToLower("undef") == "undef";
    assert OccursAt(hay, "undef", 0);
  }

  /**
    The keyword is lowercased but not trimmed: `"a "` passes the blank test yet matches no
    row whose only schema value is `"a"`, although its trimmed form would.
   */
  lemma KeywordMatchedUntrimmed(f: string)
    ensures var columns := [Column(f, f, Undefined, None)];
            var item := map[f := Str("a")];
            !AllWhitespace("a ") && !RowMatches(columns, item, "a ") && RowMatches(columns, item, Trim("a "))
  {
    var columns := [Column(f, f, Undefined, None)];
    var item := map[f := Str("a")];
    assert Get(item, f) == Str("a");
    assert ToLower("a ") == "a ";
    assert !IsJsWhitespace('a');
    assert TrimStart("a ") == "a ";
    assert TrimEnd("a ") == TrimEnd("a");
    assert Trim("a ") == "a";
    assert ToLower("a") == "a";
    assert OccursAt("a", "a", 0);
    assert RowMatches(columns, item, Trim("a ")) by {
      assert Includes(ToLower(ToStr(Get(item, columns[0].field))), ToLower(Trim("a ")));
    }
  }

  // ---------------------------------------------------------------- sort markers

  /** The `sort-asc` / `sort-desc` classes one header carries. */
  datatype Marks = Marks(asc: bool, desc: bool)

  const NoMarks := Marks(false, false)

  /** The header `sortBy(field)` acts on: the first one whose `data-field` is `field`. */
  function SortTarget(columns: seq<Column>, field: string): (k: Option<nat>)
    ensures k.Some? ==> k.value < |columns| && columns[k.value].field == field
    ensures k.Some? ==> forall j :: 0 <= j < k.value ==> columns[j].field != field
    ensures k.None? <==> forall j :: 0 <= j < |columns| ==> columns[j].field != field
  {
    if columns == [] then None
    else if columns[0].field == field then Some(0)
    else match SortTarget(columns[1..], field)
         case None => None
         case Some(k) => Some(k + 1)
  }

  /** The direction is descending exactly when the header already carries `sort-asc`. */
  function NextDirection(m: Marks): Direction
  {
    if m.asc then Desc else Asc
  }

  function AddMark(m: Marks, dir: Direction): Marks
  {
    if dir == Asc then m.(asc := true) else m.(desc := true)
  }

  /** Markers after `sortBy`: both classes removed from every sortable header, then the new one added to header `k`. */
  function MarksAfterSort(columns: seq<Column>, marks: seq<Marks>, k: nat, dir: Direction): seq<Marks>
    requires |marks| == |columns| && k < |columns|
  {
    var cleared := ClearedMarks(columns, marks);
    cleared[k := AddMark(cleared[k], dir)]
  }

  /** Both classes removed from every sortable header; the other headers keep theirs. */
  function ClearedMarks(columns: seq<Column>, marks: seq<Marks>): (r: seq<Marks>)
    requires |marks| == |columns|
    ensures |r| == |marks|
  {
    seq(|marks|, i requires 0 <= i < |marks| => if IsSortable(columns[i]) then NoMarks else marks[i])
  }

  /** At most one sortable header is marked, and no sortable header carries both classes. */
  predicate MarksValid(columns: seq<Column>, marks: seq<Marks>)
  {
    |marks| == |columns|
    && (forall i :: 0 <= i < |marks| && IsSortable(columns[i]) ==> !(marks[i].asc && marks[i].desc))
    && (forall i, j :: 0 <= i < j < |marks| && IsSortable(columns[i]) && IsSortable(columns[j]) ==>
          marks[i] == NoMarks || marks[j] == NoMarks)
  }

  /**
    After `sortBy` header `k` carries the new direction's class (only that one when it is
    sortable), every other sortable header is clear, every other non-sortable header keeps
    what it had, and the markers are valid whatever they were before.
   */
  lemma MarksAfterSortProperties(columns: seq<Column>, marks: seq<Marks>, k: nat, dir: Direction)
    requires |marks| == |columns| && k < |columns|
    ensures var r := MarksAfterSort(columns, marks, k, dir);
            |r| == |marks|
            && (if dir == Asc then r[k].asc else r[k].desc)
            && (IsSortable(columns[k]) ==> r[k] == AddMark(NoMarks, dir))
            && (!IsSortable(columns[k]) ==> r[k] == AddMark(marks[k], dir))
            && (forall i :: 0 <= i < |r| && i != k ==>
                  r[i] == if IsSortable(columns[i]) then NoMarks else marks[i])
            && MarksValid(columns, r)
  {
  }

  /** Sorting twice on a sortable header alternates the direction. */
  lemma SortableHeaderAlternates(columns: seq<Column>, marks: seq<Marks>, k: nat)
    requires |marks| == |columns| && k < |columns| && IsSortable(columns[k])
    ensures var d1 := NextDirection(marks[k]);
            var d2 := NextDirection(MarksAfterSort(columns, marks, k, d1)[k]);
            d2 == (if d1 == Asc then Desc else Asc)
  {
  }

  /**
    A non-sortable header is never cleared: once it carries `sort-asc`, every later sort on
    it is descending and it carries both classes.
   */
  lemma NonSortableHeaderSticks(columns: seq<Column>, marks: seq<Marks>, k: nat)
    requires |marks| == |columns| && k < |columns| && !IsSortable(columns[k]) && marks[k].asc
    ensures var r := MarksAfterSort(columns, marks, k, NextDirection(marks[k]));
            NextDirection(marks[k]) == Desc && r[k] == Marks(true, true) && NextDirection(r[k]) == Desc
  {
  }

  // ---------------------------------------------------------------- rendering

  datatype Cell = Text(text: string) | Markup(html: string)

  /** A cell: the column's `render(item, index)` as markup, or the text of `item[field] || ''`. */
  function CellOf(c: Column, item: Row, index: nat): Cell
  {
    match c.render
    case Some(f) => Markup(f(item, index))
    case None =>
      var v := Get(item, c.field);
      Text(if Truthy(v) then ToStr(v) else "")
  }

  function CellsOf(columns: seq<Column>, item: Row, index: nat): (cells: seq<Cell>)
    ensures |cells| == |columns|
  {
    seq(|columns|, j requires 0 <= j < |columns| => CellOf(columns[j], item, index))
  }

  /** A plain cell is empty exactly when the value is falsy; otherwise it is `String(value)`. */
  lemma PlainCellText(c: Column, item: Row, index: nat)
    requires c.render.None?
    ensures CellOf(c, item, index) == Text("") <==> !Truthy(Get(item, c.field))
    ensures Truthy(Get(item, c.field)) ==> CellOf(c, item, index) == Text(ToStr(Get(item, c.field)))
  {
    TruthyPrintsNonEmpty(Get(item, c.field));
  }

  /** `0` and `false` are shown as empty cells, not as `0` and `false`. */
  lemma FalsyValuesShowEmpty(f: string, index: nat)
    ensures CellOf(Column(f, f, Undefined, None), map[f := Num(0)], index) == Text("")
    ensures CellOf(Column(f, f, Undefined, None), map[f := Bool(false)], index) == Text("")
    ensures ToStr(Num(0)) == "0"
  {
  }

  /** What the actions cell of a row holds. */
  datatype ActionCell =
    | NoActionColumn              // `showActions` is off: the row has no actions cell
    | Controls(shown: seq<ActionDesc>)
    | Dash                        // initialisation row: the text `-`
    | Blank                       // no actions configured: an empty cell

  predicate IsInitRow(item: Row) { Get(item, "action") == Str(InitAction) }

  predicate IsSpecialRow(item: Row)
  {
    Get(item, "action") == Str(RefundAction) || Get(item, "action") == Str(ReductionAction)
  }

  /** `action.className?.includes('edit')`. */
  predicate IsEditAction(a: ActionDesc)
  {
    a.className.Some? && Includes(a.className.value, "edit")
  }

  /** Special rows skip edit actions; every other action is shown. */
  predicate ShowsAction(item: Row, a: ActionDesc)
  {
    !(IsSpecialRow(item) && IsEditAction(a))
  }

  function ShownActions(actions: seq<ActionDesc>, item: Row): seq<ActionDesc>
  {
    Seqs.Filter(actions, (a: ActionDesc) => ShowsAction(item, a))
  }

  function ActionCellOf(options: Options, item: Row): ActionCell
  {
    if !ShowsActions(options) then NoActionColumn
    else if options.actions.Some? && !IsInitRow(item) then Controls(ShownActions(options.actions.value, item))
    else if IsInitRow(item) then Dash
    else Blank
  }

  /**
    The row-kind rules of the actions cell: an initialisation row shows `-` and no controls;
    a refund or reduction row shows, in configured order, exactly the configured actions
    whose class does not contain `edit`; every other row shows all configured actions.
   */
  lemma ActionRules(options: Options, item: Row)
    requires ShowsActions(options)
    ensures IsInitRow(item) ==> ActionCellOf(options, item) == Dash
    ensures !IsInitRow(item) && options.actions.None? ==> ActionCellOf(options, item) == Blank
    ensures !IsInitRow(item) && !IsSpecialRow(item) && options.actions.Some? ==>
              ActionCellOf(options, item) == Controls(options.actions.value)
    ensures IsSpecialRow(item) && options.actions.Some? ==>
              var c := ActionCellOf(options, item);
              c.Controls?
              && (forall a :: a in c.shown <==> a in options.actions.value && !IsEditAction(a))
              && Seqs.IsSubsequence(c.shown, options.actions.value)
              && (forall a :: multiset(c.shown)[a] == if IsEditAction(a) then 0 else multiset(options.actions.value)[a])
  {
    if options.actions.Some? {
      var actions := options.actions.value;
      var p := (a: ActionDesc) => ShowsAction(item, a);
      if !IsInitRow(item) && !IsSpecialRow(item) {
        Seqs.FilterAll(actions, p);
      }
      if IsSpecialRow(item) {
        forall a ensures a in ShownActions(actions, item) <==> a in actions && !IsEditAction(a) {
          Seqs.FilterMembership(actions, p, a);
        }
        forall a ensures multiset(ShownActions(actions, item))[a] == if IsEditAction(a) then 0 else multiset(actions)[a] {
          Seqs.FilterCount(actions, p, a);
        }
        Seqs.FilterIsSubsequence(actions, p);
      }
    }
  }

  /** A refund row configured with an edit and a delete action shows only the delete action. */
  lemma RefundRowHidesEdit(options: Options, item: Row)
    requires ShowsActions(options) && Get(item, "action") == Str(RefundAction)
    requires options.actions == Some([ActionDesc(0, Some("btn-edit")), ActionDesc(1, Some("btn-delete"))])
    ensures ActionCellOf(options, item) == Controls([ActionDesc(1, Some("btn-delete"))])
  {
    assert !IsInitRow(item);
    assert OccursAt("btn-edit", "edit", 4);
    assert !Includes("btn-delete", "edit") by {
      forall i | 0 <= i <= 6 ensures !OccursAt("btn-delete", "edit", i) {
        assert "btn-delete"[i..i + 4][0] == "btn-delete"[i];
        assert "btn-delete"[i..i + 4][1] == "btn-delete"[i + 1];
      }
    }
    var actions := options.actions.value;
    assert actions[1..][1..] == [];
  }

  datatype RowView =
    | Placeholder(colSpan: nat, text: string)
    | DataRow(id: string, highlighted: bool, cells: seq<Cell>, actionCell: ActionCell, clickable: bool)

  function ColSpan(columns: seq<Column>, options: Options): nat
  {
    if ShowsActions(options) then |columns| + 1 else |columns|
  }

  /** The row for `item` at position `index` of the visible list; `id` is `String(item.id)` as stored in `dataset.id`. */
  function RowOf(columns: seq<Column>, options: Options, item: Row, index: nat): RowView
  {
    DataRow(ToStr(Get(item, "id")), IsSpecialRow(item), CellsOf(columns, item, index),
            ActionCellOf(options, item), options.onRowClick)
  }

  /** The table body `render` produces for the visible list `items`. */
  function View(columns: seq<Column>, options: Options, items: seq<Row>): seq<RowView>
  {
    if items == [] then [Placeholder(ColSpan(columns, options), EmptyText)]
    else seq(|items|, i requires 0 <= i < |items| => RowOf(columns, options, items[i], i))
  }

  /**
    An empty list renders as one placeholder spanning every column plus the actions column
    when shown; otherwise there is one row per item, in list order, with one cell per column,
    the item's id, a highlight exactly for refund and reduction rows, the actions cell the
    row-kind rules give, and a click handler exactly when `onRowClick` is given.
   */
  lemma ViewShape(columns: seq<Column>, options: Options, items: seq<Row>)
    ensures var v := View(columns, options, items);
            (items == [] ==> v == [Placeholder(|columns| + (if ShowsActions(options) then 1 else 0), EmptyText)])
            && (items != [] ==>
                  |v| == |items|
                  && forall i :: 0 <= i < |items| ==>
                       v[i].DataRow? && |v[i].cells| == |columns|
                       && v[i].id == ToStr(Get(items[i], "id"))
                       && (v[i].highlighted <==> IsSpecialRow(items[i]))
                       && v[i].actionCell == ActionCellOf(options, items[i])
                       && v[i].clickable == options.onRowClick
                       && (forall j :: 0 <= j < |columns| ==> v[i].cells[j] == CellOf(columns[j], items[i], i)))
  {
  }

  // ---------------------------------------------------------------- selection

  /** `row.dataset.id`: the placeholder row has none. */
  function DatasetId(r: RowView): Value
  {
    if r.DataRow? then Str(r.id) else Undefined
  }

  /** `data.find(d => d.id === id)`. */
  function FindById(data: seq<Row>, id: Value): (r: Option<Row>)
    ensures r.Some? ==> r.value in data && Get(r.value, "id") == id
    ensures r.Some? ==> exists i :: 0 <= i < |data| && data[i] == r.value
                                    && forall j :: 0 <= j < i ==> Get(data[j], "id") != id
    ensures r.None? <==> forall d :: d in data ==> Get(d, "id") != id
  {
    if data == [] then None
    else if Get(data[0], "id") == id then Some(data[0])
    else FindById(data[1..], id)
  }

  /** The items `getSelectedRows` collects for the body rows at the positions in `selected`, in body order. */
  function SelectedItems(body: seq<RowView>, selected: set<nat>, data: seq<Row>): seq<Row>
  {
    if body == [] then []
    else
      var prev := SelectedItems(body[..|body| - 1], selected, data);
      if |body| - 1 in selected then
        match FindById(data, DatasetId(body[|body| - 1]))
        case Some(d) => prev + [d]
        case None => prev
      else prev
  }

  /**
    Every collected item comes from `data` and its `id` is strictly equal to a selected
    row's `dataset.id`, which is a string (or, for the placeholder, `undefined`).
   */
  lemma {:induction false} SelectedItemsFromData(body: seq<RowView>, selected: set<nat>, data: seq<Row>)
    ensures forall x :: x in SelectedItems(body, selected, data) ==>
              x in data && (Get(x, "id").Str? || Get(x, "id").Undefined?)
    ensures |SelectedItems(body, selected, data)| <= |body|
    decreases |body|
  {
    if body != [] {
      SelectedItemsFromData(body[..|body| - 1], selected, data);
    }
  }

  /** Ids stored as numbers never match the string `dataset.id`, so nothing is collected. */
  lemma NumericIdsNeverSelected(body: seq<RowView>, selected: set<nat>, data: seq<Row>)
    requires forall d :: d in data ==> Get(d, "id").Num?
    ensures SelectedItems(body, selected, data) == []
  {
    SelectedItemsFromData(body, selected, data);
    var r := SelectedItems(body, selected, data);
    assert forall i :: 0 <= i < |r| ==> r[i] in r;
  }

  /** A selected row rendered from an item with a string id collects the first item of `data` with that id. */
  lemma SelectedStringIdFound(columns: seq<Column>, options: Options, item: Row, index: nat,
                              data: seq<Row>, s: string)
    requires Get(item, "id") == Str(s) && item in data
    ensures var r := RowOf(columns, options, item, index);
            FindById(data, DatasetId(r)).Some? && Get(FindById(data, DatasetId(r)).value, "id") == Str(s)
  {
  }

  // ---------------------------------------------------------------- a worked example

  const Bob: Row := map["id" := Str("1"), "name" := Str("Bob"), "amount" := Num(5), "action" := Str("normal")]
  const Al: Row := map["id" := Str("2"), "name" := Str("Al"), "amount" := Num(9), "action" := Str("normal")]
  const NameAmount: seq<Column> := [Column("name", "Name", Undefined, None), Column("amount", "Amount", Undefined, None)]

  /** Sorting Bob (amount 5) and Al (amount 9) on `amount` ascending keeps Bob first; descending puts Al first. */
  lemma SortExample()
    ensures SortRows([Bob, Al], "amount", Asc) == [Bob, Al]
    ensures SortRows([Bob, Al], "amount", Desc) == [Al, Bob]
  {
    assert Get(Bob, "amount") == Num(5) && Get(Al, "amount") == Num(9);
    assert [Bob, Al][1..] == [Al] && [Al][1..] == [];
    assert SortRows([Al], "amount", Asc) == [Al];
    assert SortRows([Al], "amount", Desc) == [Al];
    assert Before(Al, Bob, "amount", Desc);
    assert InsertFront(Bob, [], "amount", Desc) == [Bob];
    assert InsertFront(Bob, [Al], "amount", Desc) == [Al] + [Bob];
  }

  lemma AlMatches()
    ensures RowMatches(NameAmount, Al, "al")
  {
    assert ToLower("al") == "al";
    assert ToLower(ToStr(Get(Al, NameAmount[0].field))) == "al";
    assert OccursAt("al", "al", 0);
  }

  lemma BobMisses()
    ensures !RowMatches(NameAmount, Bob, "al")
  {
    assert ToLower("al") == "al";
    assert ToLower(ToStr(Get(Bob, NameAmount[0].field))) == "bob";
    assert ToLower(ToStr(Get(Bob, NameAmount[1].field))) == "5";
    assert !Includes("bob", "al") by {
      forall i | 0 <= i <= 1 ensures !OccursAt("bob", "al", i) {
        assert "bob"[i..i + 2][0] == "bob"[i];
      }
    }
    assert !Includes("5", "al");
  }

  /** Searching the same two rows for `al` keeps Al only: Bob matches neither by name nor by amount. */
  lemma SearchExample()
    ensures SearchRows([Bob, Al], NameAmount, "al") == [Al]
  {
    assert !IsJsWhitespace("al"[0]);
    TrimEmptyIff("al");
    AlMatches();
    BobMisses();
    var p := (item: Row) => RowMatches(NameAmount, item, "al");
    assert [Bob, Al][1..] == [Al] && [Al][1..] == [];
    assert Seqs.Filter([Al], p) == [Al];
  }
}
