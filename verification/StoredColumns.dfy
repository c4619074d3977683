/** Values as the decoder stores them: for every sequence of values of a layout there is a column of them
    that the encoder takes, so that encoding a column is encoding the values it was made of. */
module StoredColumns {
  import opened Basics
  import opened Cdr
  import opened Recording
  import opened Replay

  /** An Arrow list counts its items in 32 bits, so an array of more cannot be stored; and a definition
      with a `wstring` in it is kept raw. */
  predicate StorableLayout(layout: Layout) {
    match layout
    case BuiltInLayout(ty) => !ty.WString?
    case MessageLayout(_) => true
    case ArrayLayout(element, size) => (size.Fixed? ==> size.size < U32_LIMIT) && StorableLayout(element)
  }

  predicate Storable(plan: Plan) {
    forall m, f :: 0 <= m < |plan.messages| && 0 <= f < |plan.messages[m]| ==> StorableLayout(plan.messages[m][f])
  }

  ghost predicate AllTyped(plan: Plan, layout: Layout, values: seq<Value>) {
    forall i :: 0 <= i < |values| ==> WellTyped(plan, layout, values[i])
  }

  lemma {:induction false} ItemsAreTyped(plan: Plan, element: Layout, items: seq<Value>)
    requires TypedItems(plan, element, items)
    ensures AllTyped(plan, element, items)
  {
    if items != [] { ItemsAreTyped(plan, element, items[1..]); }
  }

  lemma HeadsAndTails(plan: Plan, layouts: seq<Layout>, rows: seq<seq<Value>>)
    requires layouts != [] && forall i :: 0 <= i < |rows| ==> TypedFields(plan, layouts, rows[i])
    ensures forall i :: 0 <= i < |rows| ==>
              && |rows[i]| == |layouts| && WellTyped(plan, layouts[0], rows[i][0])
              && TypedFields(plan, layouts[1..], rows[i][1..])
  {
    forall i | 0 <= i < |rows|
      ensures |rows[i]| == |layouts| && WellTyped(plan, layouts[0], rows[i][0])
              && TypedFields(plan, layouts[1..], rows[i][1..])
    {
      assert TypedFields(plan, layouts, rows[i]);
    }
  }

  /** The column of some values of one layout. */
  function ColumnOf(plan: Plan, depth: nat, layout: Layout, values: seq<Value>): (column: Column)
    requires plan.Valid() && plan.Fits(layout, depth) && Storable(plan) && StorableLayout(layout)
    requires AllTyped(plan, layout, values)
    ensures column.WellFormed() && column.Len() == |values|
    decreases depth, layout, 0
  {
    match layout
    case BuiltInLayout(Bool) => Booleans(seq(|values|, i requires 0 <= i < |values| => values[i].flag))
    case BuiltInLayout(Byte) => Numbers(U8, seq(|values|, i requires 0 <= i < |values| => values[i].number))
    case BuiltInLayout(Char) => Numbers(U8, seq(|values|, i requires 0 <= i < |values| => values[i].number))
    case BuiltInLayout(Number(kind)) => Numbers(kind, seq(|values|, i requires 0 <= i < |values| => values[i].number))
    case BuiltInLayout(String(_)) => Strings(seq(|values|, i requires 0 <= i < |values| => values[i].text))
    case MessageLayout(id) =>
      var rows := seq(|values|, i requires 0 <= i < |values| => values[i].fields);
      Structs(|values|, FieldColumns(plan, plan.rank[id], plan.messages[id], rows))
    case ArrayLayout(element, _) => Lists(ItemColumns(plan, depth, element, values))
  }

  /** The columns of the fields of some messages of one type. */
  function FieldColumns(plan: Plan, depth: nat, layouts: seq<Layout>, rows: seq<seq<Value>>): (columns: seq<Column>)
    requires plan.Valid() && Storable(plan)
    requires forall f :: 0 <= f < |layouts| ==> plan.Fits(layouts[f], depth) && StorableLayout(layouts[f])
    requires forall i :: 0 <= i < |rows| ==> TypedFields(plan, layouts, rows[i])
    ensures |columns| == |layouts|
    ensures forall f :: 0 <= f < |columns| ==> columns[f].WellFormed() && columns[f].Len() == |rows|
    decreases depth, layouts, 0
  {
    if layouts == [] then []
    else
      HeadsAndTails(plan, layouts, rows);
      var heads := seq(|rows|, i requires 0 <= i < |rows| => rows[i][0]);
      var tails := seq(|rows|, i requires 0 <= i < |rows| => rows[i][1..]);
      [ColumnOf(plan, depth, layouts[0], heads)] + FieldColumns(plan, depth, layouts[1..], tails)
  }

  /** The columns of the items of some arrays of one layout. */
  function ItemColumns(plan: Plan, depth: nat, element: Layout, lists: seq<Value>): (columns: seq<Column>)
    requires plan.Valid() && plan.Fits(element, depth) && Storable(plan) && StorableLayout(element)
    requires forall i :: 0 <= i < |lists| ==>
               lists[i].ListValue? && |lists[i].items| < U32_LIMIT && TypedItems(plan, element, lists[i].items)
    ensures |columns| == |lists|
    ensures forall i :: 0 <= i < |columns| ==> columns[i].WellFormed() && columns[i].Len() == |lists[i].items|
    decreases depth, element, 1 + |lists|
  {
    if lists == [] then []
    else
      ItemsAreTyped(plan, element, lists[0].items);
      [ColumnOf(plan, depth, element, lists[0].items)] + ItemColumns(plan, depth, element, lists[1..])
  }

  /** A column holds the values it was made of, and the encoder takes every row of it. */
  lemma {:induction false} ColumnHolds(plan: Plan, depth: nat, layout: Layout, values: seq<Value>, row: nat)
    requires plan.Valid() && plan.Fits(layout, depth) && Storable(plan) && StorableLayout(layout)
    requires AllTyped(plan, layout, values) && row < |values|
    ensures var column := ColumnOf(plan, depth, layout, values);
            column.At(row) == values[row] && Matches(plan, layout, column, row)
    decreases depth, layout, 0, 0
  {
    assert WellTyped(plan, layout, values[row]);
    match layout
    case BuiltInLayout(_) =>
    case MessageLayout(id) =>
      var rows := seq(|values|, i requires 0 <= i < |values| => values[i].fields);
      FieldsHold(plan, plan.rank[id], plan.messages[id], rows, row);
    case ArrayLayout(element, _) =>
      ItemsAreTyped(plan, element, values[row].items);
      ItemColumnIs(plan, depth, element, values, row);
      ItemsHold(plan, depth, element, values[row].items, 0);
      var items := ColumnOf(plan, depth, element, values[row].items);
      if element.BuiltInLayout? { HoldsOneKind(plan, depth, element, values[row].items); } else {
        forall i | 0 <= i < items.Len() ensures Matches(plan, element, items, i) {
          ColumnHolds(plan, depth, element, values[row].items, i);
        }
      }
  }

  /** A column of built-ins is of its type even when it is empty. */
  lemma HoldsOneKind(plan: Plan, depth: nat, element: Layout, items: seq<Value>)
    requires plan.Valid() && plan.Fits(element, depth) && Storable(plan) && StorableLayout(element)
    requires element.BuiltInLayout? && AllTyped(plan, element, items)
    ensures HoldsScalars(element.ty, ColumnOf(plan, depth, element, items))
  {}

  lemma {:induction false} FieldsHold(plan: Plan, depth: nat, layouts: seq<Layout>, rows: seq<seq<Value>>, row: nat)
    requires plan.Valid() && Storable(plan) && row < |rows|
    requires forall f :: 0 <= f < |layouts| ==> plan.Fits(layouts[f], depth) && StorableLayout(layouts[f])
    requires forall i :: 0 <= i < |rows| ==> TypedFields(plan, layouts, rows[i])
    ensures var columns := FieldColumns(plan, depth, layouts, rows);
            && RowOf(columns, row, |rows|) == rows[row]
            && forall f :: 0 <= f < |columns| ==> Matches(plan, layouts[f], columns[f], row)
    decreases depth, layouts, 0, 0
  {
    hide WellTyped, Matches, StorableLayout, Storable, Plan.Valid, Plan.Fits;
    assert TypedFields(plan, layouts, rows[row]);
    if layouts != [] {
      HeadsAndTails(plan, layouts, rows);
      var heads := seq(|rows|, i requires 0 <= i < |rows| => rows[i][0]);
      var tails := seq(|rows|, i requires 0 <= i < |rows| => rows[i][1..]);
      ColumnHolds(plan, depth, layouts[0], heads, row);
      FieldsHold(plan, depth, layouts[1..], tails, row);
      var columns := FieldColumns(plan, depth, layouts, rows);
      assert columns[1..] == FieldColumns(plan, depth, layouts[1..], tails);
      assert rows[row] == [heads[row]] + tails[row];
    }
  }

  lemma {:induction false} ItemColumnIs(plan: Plan, depth: nat, element: Layout, lists: seq<Value>, row: nat)
    requires plan.Valid() && plan.Fits(element, depth) && Storable(plan) && StorableLayout(element) && row < |lists|
    requires forall i :: 0 <= i < |lists| ==>
               lists[i].ListValue? && |lists[i].items| < U32_LIMIT && TypedItems(plan, element, lists[i].items)
    ensures AllTyped(plan, element, lists[row].items)
    ensures ItemColumns(plan, depth, element, lists)[row] == ColumnOf(plan, depth, element, lists[row].items)
  {
    ItemsAreTyped(plan, element, lists[row].items);
    if row > 0 { ItemColumnIs(plan, depth, element, lists[1..], row - 1); }
  }

  /** Read from any row on, a column of items gives back the items. */
  lemma {:induction false} ItemsHold(plan: Plan, depth: nat, element: Layout, items: seq<Value>, start: nat)
    requires plan.Valid() && plan.Fits(element, depth) && Storable(plan) && StorableLayout(element)
    requires AllTyped(plan, element, items) && start <= |items|
    ensures ColumnOf(plan, depth, element, items).From(start) == items[start..]
    decreases depth, element, 1, |items| - start
  {
    if start < |items| {
      ColumnHolds(plan, depth, element, items, start);
      ItemsHold(plan, depth, element, items, start + 1);
      assert items[start..] == [items[start]] + items[start + 1..];
    }
  }

  /** Encoding a row of a column is encoding the value it was made of. */
  method EncodeStored(plan: Plan, values: seq<Value>, row: nat) returns (r: Result<bytes>)
    requires plan.Valid() && Storable(plan) && AllTyped(plan, MessageLayout(ROOT_ID), values) && row < |values|
    ensures r.Ok? && r == EncodeRow(plan, values[row])
  {
    var root := ColumnOf(plan, plan.rank[ROOT_ID] + 1, MessageLayout(ROOT_ID), values);
    ColumnHolds(plan, plan.rank[ROOT_ID] + 1, MessageLayout(ROOT_ID), values, row);
    r := Encode(plan, root, row);
  }

  /** The structs of a chunk are values of their topic's type. */
  ghost predicate TypedStructs(info: TopicInfo, chunk: Chunk) {
    chunk.structs.Some? && info.plan.Some? ==>
      && info.plan.value.Valid() && Storable(info.plan.value)
      && forall i :: 0 <= i < |chunk.structs.value| && chunk.structs.value[i].Some? ==>
           WellTyped(info.plan.value, MessageLayout(ROOT_ID), chunk.structs.value[i].value)
  }

  /** The struct column of a chunk as Arrow has it, where a null slot holds some value too. */
  function Filled(structs: seq<Option<Value>>, filler: Value): seq<Value> {
    seq(|structs|, i requires 0 <= i < |structs| => if structs[i].Some? then structs[i].value else filler)
  }

  /** What a row replays as, when it is read out of the columns of its chunk. */
  method ReadPayload(info: TopicInfo, chunk: Chunk, row: nat) returns (r: Result<bytes>)
    requires chunk.WellFormed() && row < chunk.numRows && TypedStructs(info, chunk)
    ensures r == Payload(info, chunk, row)
  {
    if chunk.blobs.Some? && chunk.blobs.value[row].Some? { return Ok(chunk.blobs.value[row].value); }
    if !(info.reflects && chunk.structs.Some?) { return Err(NoForm); }
    if info.plan.None? { return Err(NoPlan); }
    if chunk.structs.value[row].None? { return Err(NoForm); }
    r := EncodeStored(info.plan.value, Filled(chunk.structs.value, chunk.structs.value[row].value), row);
  }
}
