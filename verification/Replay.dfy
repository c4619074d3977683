/** The playback path: one row of decoded columns back out as CDR (`replay.rs`). */
module Replay {
  import opened Basics
  import opened Cdr
  import opened Wires

  // ---------------------------------------------------------------- columns

  /** A decoded Arrow array. A struct column's children run in parallel; a list column holds
      one array of elements per row. */
  datatype Column =
    | Booleans(flags: seq<bool>)
    | Numbers(kind: Kind, numbers: seq<int>)
    | Strings(texts: seq<bytes>)
    | Structs(length: nat, columns: seq<Column>)
    | Lists(rows: seq<Column>)
  {
    function Len(): nat {
      match this
      case Booleans(flags) => |flags|
      case Numbers(_, numbers) => |numbers|
      case Strings(texts) => |texts|
      case Structs(length, _) => length
      case Lists(rows) => |rows|
    }

    /** What Arrow guarantees of an array of this type, with lengths that fit CDR. */
    predicate WellFormed() {
      match this
      case Booleans(_) => true
      case Numbers(kind, numbers) => forall i :: 0 <= i < |numbers| ==> InRange(kind, numbers[i])
      case Strings(texts) => forall i :: 0 <= i < |texts| ==> |texts[i]| + 1 < U32_LIMIT
      case Structs(length, columns) =>
        forall i :: 0 <= i < |columns| ==> columns[i].WellFormed() && columns[i].Len() == length
      case Lists(rows) => forall i :: 0 <= i < |rows| ==> rows[i].WellFormed() && rows[i].Len() < U32_LIMIT
    }

    /** The value one row of the array holds. */
    function At(row: nat): Value
      requires WellFormed() && row < Len()
      decreases this, 0, 0
    {
      match this
      case Booleans(flags) => BoolValue(flags[row])
      case Numbers(kind, numbers) => NumberValue(kind, numbers[row])
      case Strings(texts) => StringValue(texts[row])
      case Structs(length, columns) => StructValue(RowOf(columns, row, length))
      case Lists(rows) => ListValue(rows[row].From(0))
    }

    /** The values from row `start` on. */
    function From(start: nat): (values: seq<Value>)
      requires WellFormed() && start <= Len()
      ensures |values| == Len() - start
      decreases this, 1, Len() - start
    {
      if start == Len() then [] else [At(start)] + From(start + 1)
    }
  }

  /** One row across parallel columns. */
  function RowOf(columns: seq<Column>, row: nat, length: nat): (values: seq<Value>)
    requires forall i :: 0 <= i < |columns| ==> columns[i].WellFormed() && columns[i].Len() == length
    requires row < length
    ensures |values| == |columns|
    decreases columns, 0, 0
  {
    if columns == [] then [] else [columns[0].At(row)] + RowOf(columns[1..], row, length)
  }

  // ---------------------------------------------------------------- what the encoder checks

  predicate HoldsScalars(ty: BuiltIn, column: Column) {
    match ty
    case Bool => column.Booleans?
    case Byte | Char => column.Numbers? && column.kind == U8
    case Number(kind) => column.Numbers? && column.kind == kind
    case String(_) => column.Strings?
    case WString(_) => false
  }

  /** The row is laid out as its plan says: every downcast on the way to its scalars succeeds,
      and every arity and fixed size agrees. Rows that are not being encoded do not matter. */
  predicate Matches(plan: Plan, layout: Layout, column: Column, row: nat)
    requires column.WellFormed() && row < column.Len()
    decreases column, 1
  {
    match layout
    case BuiltInLayout(ty) => HoldsScalars(ty, column)
    case MessageLayout(id) => id < |plan.messages| && MatchesMessage(plan, id, column, row)
    case ArrayLayout(element, size) =>
      && column.Lists?
      && var items := column.rows[row];
      && (size.Fixed? ==> items.Len() == size.size)
      && (if element.BuiltInLayout? then HoldsScalars(element.ty, items)
          else forall i :: 0 <= i < items.Len() ==> Matches(plan, element, items, i))
  }

  predicate MatchesMessage(plan: Plan, id: nat, column: Column, row: nat)
    requires column.WellFormed() && row < column.Len() && id < |plan.messages|
    decreases column, 0
  {
    && column.Structs?
    && |column.columns| == |plan.messages[id]|
    && forall i :: 0 <= i < |column.columns| ==> Matches(plan, plan.messages[id][i], column.columns[i], row)
  }

  /** A row that matches its layout holds a value of it. */
  lemma {:induction false} MatchedIsTyped(plan: Plan, layout: Layout, column: Column, row: nat)
    requires column.WellFormed() && row < column.Len() && Matches(plan, layout, column, row)
    ensures WellTyped(plan, layout, column.At(row))
    decreases column, 0
  {
    match layout
    case BuiltInLayout(_) =>
    case MessageLayout(id) => MatchedFieldsAreTyped(plan, plan.messages[id], column.columns, row, column.length);
    case ArrayLayout(element, _) => MatchedItemsAreTyped(plan, element, column.rows[row], 0);
  }

  lemma {:induction false} MatchedFieldsAreTyped(plan: Plan, layouts: seq<Layout>, columns: seq<Column>,
                                                 row: nat, length: nat)
    requires forall i :: 0 <= i < |columns| ==> columns[i].WellFormed() && columns[i].Len() == length
    requires row < length && |layouts| == |columns|
    requires forall i :: 0 <= i < |columns| ==> Matches(plan, layouts[i], columns[i], row)
    ensures TypedFields(plan, layouts, RowOf(columns, row, length))
    decreases columns, 0
  {
    if columns != [] {
      MatchedIsTyped(plan, layouts[0], columns[0], row);
      MatchedFieldsAreTyped(plan, layouts[1..], columns[1..], row, length);
      assert RowOf(columns, row, length)[1..] == RowOf(columns[1..], row, length);
    }
  }

  lemma {:induction false} MatchedItemsAreTyped(plan: Plan, element: Layout, items: Column, start: nat)
    requires items.WellFormed() && start <= items.Len()
    requires if element.BuiltInLayout? then HoldsScalars(element.ty, items)
             else forall i :: start <= i < items.Len() ==> Matches(plan, element, items, i)
    ensures TypedItems(plan, element, items.From(start))
    decreases items, 1, items.Len() - start
  {
    if start < items.Len() {
      if !element.BuiltInLayout? {
        assert Matches(plan, element, items, start);
      }
      MatchedIsTyped(plan, element, items, start);
      MatchedItemsAreTyped(plan, element, items, start + 1);
      assert items.From(start)[1..] == items.From(start + 1);
    }
  }

  // ---------------------------------------------------------------- the encoder

  /** An append-only CDR body; alignment counts from its start. */
  class CdrWriter {
    var body: bytes

    constructor ()
      ensures body == []
    {
      body := [];
    }

    method AlignTo(align: nat)
      requires align > 0
      modifies this
      ensures body == Align(old(body), align)
    {
      body := body + seq(Gap(|body|, align), _ => 0);
    }

    method WriteNumber(kind: Kind, n: int)
      requires InRange(kind, n)
      modifies this
      ensures body == PutNumber(old(body), kind, n)
      ensures Appended(old(body), kind, n, body)
    {
      NumberIsAppended(body, kind, n);
      AlignTo(Width(kind));
      var rest: nat := Pattern(kind, n);
      var written := 0;
      ghost var start := body;
      while written < Width(kind)
        invariant written <= Width(kind)
        invariant body + LittleEndian(rest, Width(kind) - written)
               == start + LittleEndian(Pattern(kind, n), Width(kind))
      {
        body := body + [rest % 256];
        rest := rest / 256;
        written := written + 1;
      }
    }

    method WriteBool(flag: bool)
      modifies this
      ensures body == PutBool(old(body), flag) == old(body) + [if flag then 1 else 0]
    {
      body := body + [if flag then 1 else 0];
    }

    method WriteSequenceLength(n: nat)
      requires n < U32_LIMIT
      modifies this
      ensures body == PutLength(old(body), n)
      ensures Appended(old(body), U32, n, body)
    {
      LengthInRange(n);
      WriteNumber(U32, n);
    }

    method WriteString(text: bytes)
      requires |text| + 1 < U32_LIMIT
      modifies this
      ensures body == PutString(old(body), text)
      ensures exists counted :: Appended(old(body), U32, |text| + 1, counted) && body == counted + text + [0]
    {
      WriteSequenceLength(|text| + 1);
      body := body + text + [0];
    }
  }

  /** Prints the scalar at one row of a column. */
  method EncodeBuiltIn(ty: BuiltIn, column: Column, row: nat, writer: CdrWriter) returns (r: Result<()>)
    requires column.WellFormed() && row < column.Len()
    modifies writer
    ensures r.Ok? <==> HoldsScalars(ty, column)
    ensures r.Ok? ==>
              && TypedScalar(ty, column.At(row))
              && writer.body == PrintScalar(ty, column.At(row), old(writer.body))
              && writer.body == old(writer.body) + ScalarAt(ty, column.At(row), |old(writer.body)|)
    ensures r.Err? ==> writer.body == old(writer.body)
  {
    hide Appended, ScalarAt, PutNumber, PutString;
    if HoldsScalars(ty, column) { ScalarIsPlaced(ty, column.At(row), writer.body); }
    match ty {
      case Bool =>
        if !column.Booleans? { return Err(WrongColumn); }
        writer.WriteBool(column.flags[row]);
      case Byte | Char =>
        if !(column.Numbers? && column.kind == U8) { return Err(WrongColumn); }
        writer.WriteNumber(U8, column.numbers[row]);
      case Number(kind) =>
        if !(column.Numbers? && column.kind == kind) { return Err(WrongColumn); }
        writer.WriteNumber(kind, column.numbers[row]);
      case String(_) =>
        if !column.Strings? { return Err(WrongColumn); }
        writer.WriteString(column.texts[row]);
      case WString(_) =>
        return Err(Unsupported);
    }
    return Ok(());
  }

  /** Prints all of a column of scalars, looking at its type once. */
  method EncodeBuiltInArray(plan: Plan, ty: BuiltIn, column: Column, writer: CdrWriter) returns (r: Result<()>)
    requires column.WellFormed()
    modifies writer
    ensures r.Ok? <==> HoldsScalars(ty, column)
    ensures r.Ok? ==>
              && TypedItems(plan, BuiltInLayout(ty), column.From(0))
              && writer.body == PrintItems(plan, BuiltInLayout(ty), column.From(0), old(writer.body))
    ensures r.Err? ==> writer.body == old(writer.body)
  {
    if ty.WString? { return Err(Unsupported); }
    if !HoldsScalars(ty, column) { return Err(WrongColumn); }

    MatchedItemsAreTyped(plan, BuiltInLayout(ty), column, 0);
    ghost var whole := PrintItems(plan, BuiltInLayout(ty), column.From(0), writer.body);
    var index := 0;
    while index < column.Len()
      invariant index <= column.Len()
      invariant TypedItems(plan, BuiltInLayout(ty), column.From(index))
      invariant PrintItems(plan, BuiltInLayout(ty), column.From(index), writer.body) == whole
    {
      assert column.From(index)[1..] == column.From(index + 1);
      match column {
        case Booleans(flags) => writer.WriteBool(flags[index]);
        case Numbers(kind, numbers) => writer.WriteNumber(kind, numbers[index]);
        case Strings(texts) => writer.WriteString(texts[index]);
      }
      index := index + 1;
    }
    return Ok(());
  }

  /** Prints a nested message: its fields' columns one after the other, at the same row. */
  method EncodeMessage(plan: Plan, id: nat, message: Column, row: nat, writer: CdrWriter) returns (r: Result<()>)
    requires plan.Valid() && id < |plan.messages|
    requires forall f :: 0 <= f < |plan.messages[id]| ==> plan.Fits(plan.messages[id][f], plan.rank[id])
    requires message.WellFormed() && message.Structs? && row < message.Len()
    modifies writer
    ensures r.Ok? <==> MatchesMessage(plan, id, message, row)
    ensures r.Ok? ==>
              && TypedFields(plan, plan.messages[id], RowOf(message.columns, row, message.length))
              && writer.body == PrintFields(plan, plan.messages[id], RowOf(message.columns, row, message.length),
                                            old(writer.body))
    decreases message, 0
  {
    var layouts, columns := plan.messages[id], message.columns;
    if |layouts| != |columns| { return Err(WrongLength); }

    ghost var before := writer.body;
    ghost var matched := MatchesMessage(plan, id, message, row);
    if matched {
      MatchedFieldsAreTyped(plan, layouts, columns, row, message.length);
    }
    var f := 0;
    while f < |columns|
      invariant f <= |columns|
      invariant forall i :: 0 <= i < f ==> Matches(plan, layouts[i], columns[i], row)
      invariant matched ==>
          && TypedFields(plan, layouts[f..], RowOf(columns[f..], row, message.length))
          && PrintFields(plan, layouts[f..], RowOf(columns[f..], row, message.length), writer.body)
             == PrintFields(plan, layouts, RowOf(columns, row, message.length), before)
    {
      assert layouts[f..][1..] == layouts[f + 1..] && columns[f..][1..] == columns[f + 1..];
      ghost var rest := RowOf(columns[f..], row, message.length);
      assert rest[0] == columns[f].At(row) && rest[1..] == RowOf(columns[f + 1..], row, message.length);
      r := EncodeValue(plan, plan.rank[id], layouts[f], columns[f], row, writer);
      if r.Err? { return; }
      f := f + 1;
    }
    return Ok(());
  }

  /** Prints whatever a layout says is at one row of a column. */
  method EncodeValue(plan: Plan, ghost depth: nat, layout: Layout, column: Column, row: nat, writer: CdrWriter)
    returns (r: Result<()>)
    requires plan.Valid() && plan.Fits(layout, depth)
    requires column.WellFormed() && row < column.Len()
    modifies writer
    ensures r.Ok? <==> Matches(plan, layout, column, row)
    ensures r.Ok? ==>
              && WellTyped(plan, layout, column.At(row))
              && writer.body == Print(plan, layout, column.At(row), old(writer.body))
              && writer.body == old(writer.body) + ValueAt(plan, layout, column.At(row), |old(writer.body)|)
    decreases column, 1
  {
    hide Appended, ValueAt;
    if Matches(plan, layout, column, row) {
      MatchedIsTyped(plan, layout, column, row);
      PrintIsPlaced(plan, layout, column.At(row), writer.body);
    }
    match layout {
      case BuiltInLayout(ty) =>
        r := EncodeBuiltIn(ty, column, row, writer);

      case MessageLayout(id) =>
        if !column.Structs? { return Err(WrongColumn); }
        r := EncodeMessage(plan, id, column, row, writer);

      case ArrayLayout(element, size) =>
        if !column.Lists? { return Err(WrongColumn); }
        var values := column.rows[row];
        if size.Fixed? {
          if values.Len() != size.size { return Err(WrongLength); }
        } else {
          writer.WriteSequenceLength(values.Len());
        }
        if element.BuiltInLayout? {
          r := EncodeBuiltInArray(plan, element.ty, values, writer);
        } else {
          r := EncodeItems(plan, depth, element, values, writer);
          assert r.Ok? <==> forall i :: 0 <= i < values.Len() ==> Matches(plan, element, values, i);
        }
        assert r.Ok? <==> Matches(plan, layout, column, row);
    }
  }

  /** Prints the items of an array that are not scalars. */
  method EncodeItems(plan: Plan, ghost depth: nat, element: Layout, values: Column, writer: CdrWriter)
    returns (r: Result<()>)
    requires plan.Valid() && plan.Fits(element, depth) && !element.BuiltInLayout?
    requires values.WellFormed()
    modifies writer
    ensures r.Ok? <==> forall i :: 0 <= i < values.Len() ==> Matches(plan, element, values, i)
    ensures r.Ok? ==>
              && TypedItems(plan, element, values.From(0))
              && writer.body == PrintItems(plan, element, values.From(0), old(writer.body))
    decreases values, 2
  {
    ghost var before := writer.body;
    ghost var matched := forall i :: 0 <= i < values.Len() ==> Matches(plan, element, values, i);
    if matched {
      MatchedItemsAreTyped(plan, element, values, 0);
    }
    var index := 0;
    while index < values.Len()
      invariant index <= values.Len()
      invariant forall i :: 0 <= i < index ==> Matches(plan, element, values, i)
      invariant matched ==>
          && TypedItems(plan, element, values.From(index))
          && PrintItems(plan, element, values.From(index), writer.body)
              == PrintItems(plan, element, values.From(0), before)
    {
      assert values.From(index)[0] == values.At(index) && values.From(index)[1..] == values.From(index + 1);
      r := EncodeValue(plan, depth, element, values, index, writer);
      if r.Err? { return; }
      index := index + 1;
    }
    return Ok(());
  }

  /** Prints one row of a topic's struct column, behind the header. */
  method Encode(plan: Plan, root: Column, row: nat) returns (r: Result<bytes>)
    requires plan.Valid() && root.WellFormed() && root.Structs? && row < root.Len()
    ensures r.Ok? <==> MatchesMessage(plan, ROOT_ID, root, row)
    ensures r.Ok? ==> r == EncodeRow(plan, root.At(row))
    ensures r.Ok? ==>
              && WellTyped(plan, MessageLayout(ROOT_ID), root.At(row))
              && r.value == MessageBytes(plan, root.At(row))
              && |r.value| >= 4 && r.value[..4] == [0x00, 0x01, 0x00, 0x00]
  {
    var writer := new CdrWriter();
    var outcome := EncodeMessage(plan, ROOT_ID, root, row, writer);
    if outcome.Err? { return Err(outcome.error); }
    EncodedIsPlaced(plan, root.At(row));
    return Ok(ENCAPSULATION + writer.body);
  }

  // ---------------------------------------------------------------- one pass against one by one

  /** What `EncodeBuiltInArray` makes of a column, as its contract has it. */
  function OnePass(plan: Plan, ty: BuiltIn, column: Column, body: bytes): Option<bytes>
    requires column.WellFormed()
  {
    if HoldsScalars(ty, column)
    then
      MatchedItemsAreTyped(plan, BuiltInLayout(ty), column, 0);
      Some(PrintItems(plan, BuiltInLayout(ty), column.From(0), body))
    else None
  }

  /** Calling `EncodeBuiltIn` on every element from `start` on, stopping at the first failure. */
  function OneByOne(ty: BuiltIn, column: Column, start: nat, body: bytes): Option<bytes>
    requires column.WellFormed() && start <= column.Len()
    decreases column.Len() - start
  {
    if start == column.Len() then Some(body)
    else if !HoldsScalars(ty, column) then None
    else OneByOne(ty, column, start + 1, PrintScalar(ty, column.At(start), body))
  }

  /** Both write the same bytes at every alignment, and fail on the same columns, except that
      an empty column of the wrong type fails only in one pass. */
  lemma OnePassIsOneByOne(plan: Plan, ty: BuiltIn, column: Column, body: bytes)
    requires column.WellFormed()
    ensures OnePass(plan, ty, column, body) == OneByOne(ty, column, 0, body)
            <==> column.Len() > 0 || HoldsScalars(ty, column)
  {
    if HoldsScalars(ty, column) {
      OneByOnePrintsItems(plan, ty, column, 0, body);
    }
  }

  lemma {:induction false} OneByOnePrintsItems(plan: Plan, ty: BuiltIn, column: Column, start: nat, body: bytes)
    requires column.WellFormed() && start <= column.Len() && HoldsScalars(ty, column)
    ensures TypedItems(plan, BuiltInLayout(ty), column.From(start))
    ensures OneByOne(ty, column, start, body) == Some(PrintItems(plan, BuiltInLayout(ty), column.From(start), body))
    decreases column.Len() - start
  {
    MatchedItemsAreTyped(plan, BuiltInLayout(ty), column, start);
    if start < column.Len() {
      OneByOnePrintsItems(plan, ty, column, start + 1, PrintScalar(ty, column.At(start), body));
      assert column.From(start)[1..] == column.From(start + 1);
    }
  }

  /** An empty array of `uint8` that was stored as strings: the array encoder refuses it, a loop over
      its elements would not. */
  lemma EmptyWrongColumnDiffers(plan: Plan, body: bytes)
    ensures OnePass(plan, Number(U8), Strings([]), body) == None
    ensures OneByOne(Number(U8), Strings([]), 0, body) == Some(body)
  {}
}
