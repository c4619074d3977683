/**
 Where every byte of an encoded message lies, said without a body that grows: what a value puts on the
 wire when it starts at some offset. Nothing here is used to encode; it is what encoding is held against.
 */
module Wires {
  import opened Basics
  import opened Cdr

  // ---------------------------------------------------------------- numbers

  function Octets(kind: Kind): nat {
    match kind
    case U8 | I8 => 1
    case U16 | I16 => 2
    case U32 | I32 | F32 => 4
    case U64 | I64 | F64 => 8
  }

  /** One more than the largest pattern. */
  function Modulus(kind: Kind): nat {
    match kind
    case U8 | I8 => 0x100
    case U16 | I16 => 0x1_0000
    case U32 | I32 | F32 => 0x1_0000_0000
    case U64 | I64 | F64 => 0x1_0000_0000_0000_0000
  }

  /** The weight of byte `i` of a number, least significant first. */
  function Weight(i: nat): nat
    requires i < 8
  {
    match i
    case 0 => 1
    case 1 => 0x100
    case 2 => 0x1_0000
    case 3 => 0x100_0000
    case 4 => 0x1_0000_0000
    case 5 => 0x100_0000_0000
    case 6 => 0x1_0000_0000_0000
    case 7 => 0x100_0000_0000_0000
  }

  /** The numbers of a kind. */
  predicate Represents(kind: Kind, n: int) {
    match kind
    case I8 => -0x80 <= n < 0x80
    case I16 => -0x8000 <= n < 0x8000
    case I32 => -0x8000_0000 <= n < 0x8000_0000
    case I64 => -0x8000_0000_0000_0000 <= n < 0x8000_0000_0000_0000
    case _ => 0 <= n < Modulus(kind)
  }

  function NumberByte(kind: Kind, n: int, i: nat): byte
    requires Represents(kind, n) && i < 8
  {
    ((if n < 0 then n + Modulus(kind) else n) / Weight(i)) % 256
  }

  /** How far it is to the next multiple of a kind's width. */
  function Padding(at: nat, kind: Kind): nat {
    var width := Octets(kind);
    if at % width == 0 then 0 else width - at % width
  }

  lemma PaddingReaches(at: nat, kind: Kind)
    ensures Padding(at, kind) < Octets(kind) && (at + Padding(at, kind)) % Octets(kind) == 0
  {
    NextMultiples(at);
    match kind
    case U8 | I8 =>
    case U16 | I16 =>
    case U32 | I32 | F32 =>
    case U64 | I64 | F64 =>
  }

  lemma NextMultiples(at: nat)
    ensures (at + (2 - at % 2)) % 2 == 0 && (at + (4 - at % 4)) % 4 == 0 && (at + (8 - at % 8)) % 8 == 0
  {
    assert at + (2 - at % 2) == 2 * (at / 2 + 1);
    assert at + (4 - at % 4) == 4 * (at / 4 + 1);
    assert at + (8 - at % 8) == 8 * (at / 8 + 1);
  }

  /** A number was added to a body: what was there stays, and then come fewer zeros than the number has
      bytes, the number itself starting at a multiple of that, and nothing else. */
  predicate Appended(before: bytes, kind: Kind, n: int, after: bytes) {
    var start := |after| - Octets(kind);
    && Represents(kind, n)
    && |before| <= start < |before| + Octets(kind)
    && start % Octets(kind) == 0
    && after[..|before|] == before
    && (forall i :: |before| <= i < start ==> after[i] == 0)
    && forall i :: 0 <= i < Octets(kind) ==> after[start + i] == NumberByte(kind, n, i)
  }

  // ---------------------------------------------------------------- values

  /** Zeros up to the next multiple of the width, then the bytes of the number. */
  function NumberAt(kind: Kind, n: int, at: nat): (b: bytes)
    requires Represents(kind, n)
  {
    seq(Padding(at, kind), _ => 0) + seq(Octets(kind), i requires 0 <= i < 8 => NumberByte(kind, n, i))
  }

  /** A count, its bytes and a NUL, which the count includes. */
  function StringAt(text: bytes, at: nat): (b: bytes)
    requires |text| + 1 < 0x1_0000_0000
  {
    NumberAt(U32, |text| + 1, at) + text + [0]
  }

  function ScalarAt(ty: BuiltIn, value: Value, at: nat): (b: bytes)
    requires TypedScalar(ty, value)
  {
    match value
    case BoolValue(flag) => [if flag then 1 else 0]
    case NumberValue(kind, n) =>
      RangesAgree(kind, n);
      NumberAt(kind, n, at)
    case StringValue(text) => StringAt(text, at)
  }

  /** What a value that starts at offset `at` of the body comes to, padding included. */
  function ValueAt(plan: Plan, layout: Layout, value: Value, at: nat): (b: bytes)
    requires WellTyped(plan, layout, value)
    decreases value, 0
  {
    match layout
    case BuiltInLayout(ty) => ScalarAt(ty, value, at)
    case MessageLayout(id) => FieldsAt(plan, plan.messages[id], value.fields, at)
    case ArrayLayout(element, size) =>
      if size.Fixed? then ItemsAt(plan, element, value.items, at)
      else
        var count := NumberAt(U32, |value.items|, at);
        count + ItemsAt(plan, element, value.items, at + |count|)
  }

  function FieldsAt(plan: Plan, layouts: seq<Layout>, values: seq<Value>, at: nat): (b: bytes)
    requires TypedFields(plan, layouts, values)
    decreases values, 0
  {
    if values == [] then []
    else
      var first := ValueAt(plan, layouts[0], values[0], at);
      first + FieldsAt(plan, layouts[1..], values[1..], at + |first|)
  }

  function ItemsAt(plan: Plan, element: Layout, values: seq<Value>, at: nat): (b: bytes)
    requires TypedItems(plan, element, values)
    decreases values, 0
  {
    if values == [] then []
    else
      var first := ValueAt(plan, element, values[0], at);
      first + ItemsAt(plan, element, values[1..], at + |first|)
  }

  /** A whole message: little-endian CDR is announced by a 1 in the second byte of four, and offsets
      count from behind them. */
  function MessageBytes(plan: Plan, value: Value): (b: bytes)
    requires WellTyped(plan, MessageLayout(ROOT_ID), value)
  {
    [0, 1, 0, 0] + ValueAt(plan, MessageLayout(ROOT_ID), value, 0)
  }

  // ---------------------------------------------------------------- the printer agrees

  lemma {:induction false} LittleEndianAt(n: nat, w: nat, i: nat)
    requires i < w <= 8
    ensures LittleEndian(n, w)[i] == (n / Weight(i)) % 256
  {
    if i > 0 {
      LittleEndianAt(n / 256, w - 1, i - 1);
      WeightsStep(n, i);
    }
  }

  lemma WeightsStep(n: nat, i: nat)
    requires 0 < i < 8
    ensures n / 256 / Weight(i - 1) == n / Weight(i)
  {
    match i
    case 1 =>
    case 2 =>
    case 3 =>
    case 4 =>
    case 5 =>
    case 6 =>
    case 7 =>
  }

  lemma PowersAre(kind: Kind)
    ensures Width(kind) == Octets(kind) && Pow256(Width(kind)) == Modulus(kind)
  {
    assert Pow256(1) == 256 && Pow256(2) == 0x1_0000 && Pow256(4) == 256 * (256 * Pow256(2));
    assert Pow256(8) == 256 * (256 * (256 * (256 * Pow256(4))));
  }

  /** What can be written of a kind is what a field of it can hold. */
  lemma RangesAgree(kind: Kind, n: int)
    ensures InRange(kind, n) <==> Represents(kind, n)
  {
    PowersAre(kind);
  }

  lemma DigitsAreBytes(kind: Kind, n: int)
    requires InRange(kind, n)
    ensures Represents(kind, n)
    ensures LittleEndian(Pattern(kind, n), Width(kind))
         == seq(Octets(kind), i requires 0 <= i < 8 => NumberByte(kind, n, i))
  {
    RangesAgree(kind, n);
    PowersAre(kind);
    var digits := LittleEndian(Pattern(kind, n), Width(kind));
    forall i | 0 <= i < |digits| ensures digits[i] == NumberByte(kind, n, i) {
      LittleEndianAt(Pattern(kind, n), Width(kind), i);
    }
  }

  /** A number goes to the next multiple of its width, behind zeros. */
  lemma NumberIsPlaced(body: bytes, kind: Kind, n: int)
    requires InRange(kind, n)
    ensures Represents(kind, n)
    ensures PutNumber(body, kind, n) == body + NumberAt(kind, n, |body|)
  {
    hide LittleEndian, Pattern, NumberByte, InRange, Represents, Gap, Padding;
    DigitsAreBytes(kind, n);
    GapIsPadding(|body|, kind);
    assert Zeros(Gap(|body|, Width(kind))) == seq(Padding(|body|, kind), _ => 0);
  }

  lemma NumberIsAppended(body: bytes, kind: Kind, n: int)
    requires InRange(kind, n)
    ensures Appended(body, kind, n, PutNumber(body, kind, n))
  {
    NumberIsPlaced(body, kind, n);
    PaddingReaches(|body|, kind);
    hide PutNumber, NumberByte;
  }

  lemma GapIsPadding(at: nat, kind: Kind)
    ensures Gap(at, Width(kind)) == Padding(at, kind)
  {}

  lemma StringIsPlaced(body: bytes, text: bytes)
    requires |text| + 1 < U32_LIMIT
    ensures PutString(body, text) == body + StringAt(text, |body|)
  {
    LengthInRange(|text| + 1);
    NumberIsPlaced(body, U32, |text| + 1);
  }

  lemma ScalarIsPlaced(ty: BuiltIn, value: Value, body: bytes)
    requires TypedScalar(ty, value)
    ensures PrintScalar(ty, value, body) == body + ScalarAt(ty, value, |body|)
  {
    match value
    case BoolValue(_) =>
    case NumberValue(kind, n) => NumberIsPlaced(body, kind, n);
    case StringValue(text) => StringIsPlaced(body, text);
  }

  lemma Appends(body: bytes, first: bytes, rest: bytes)
    ensures (body + first) + rest == body + (first + rest)
  {}

  /** Printing any value of any layout appends what stands at the offset reached. */
  lemma {:induction false} PrintIsPlaced(plan: Plan, layout: Layout, value: Value, body: bytes)
    requires WellTyped(plan, layout, value)
    ensures Print(plan, layout, value, body) == body + ValueAt(plan, layout, value, |body|)
    decreases value, 0
  {
    match layout
    case BuiltInLayout(ty) => ScalarIsPlaced(ty, value, body);
    case MessageLayout(id) => FieldsArePlaced(plan, plan.messages[id], value.fields, body);
    case ArrayLayout(element, size) =>
      if size.Fixed? {
        ItemsArePlaced(plan, element, value.items, body);
      } else {
        LengthInRange(|value.items|);
        NumberIsPlaced(body, U32, |value.items|);
        ItemsArePlaced(plan, element, value.items, PutLength(body, |value.items|));
      }
  }

  lemma {:induction false} FieldsArePlaced(plan: Plan, layouts: seq<Layout>, values: seq<Value>, body: bytes)
    requires TypedFields(plan, layouts, values)
    ensures PrintFields(plan, layouts, values, body) == body + FieldsAt(plan, layouts, values, |body|)
    decreases values, 0
  {
    hide WellTyped, Print, ValueAt;
    if values != [] {
      PrintIsPlaced(plan, layouts[0], values[0], body);
      var first := ValueAt(plan, layouts[0], values[0], |body|);
      FieldsArePlaced(plan, layouts[1..], values[1..], body + first);
      Appends(body, first, FieldsAt(plan, layouts[1..], values[1..], |body| + |first|));
    }
  }

  lemma {:induction false} ItemsArePlaced(plan: Plan, element: Layout, values: seq<Value>, body: bytes)
    requires TypedItems(plan, element, values)
    ensures PrintItems(plan, element, values, body) == body + ItemsAt(plan, element, values, |body|)
    decreases values, 0
  {
    hide WellTyped, Print, ValueAt;
    if values != [] {
      PrintIsPlaced(plan, element, values[0], body);
      var first := ValueAt(plan, element, values[0], |body|);
      ItemsArePlaced(plan, element, values[1..], body + first);
      Appends(body, first, ItemsAt(plan, element, values[1..], |body| + |first|));
    }
  }

  /** A message is encoded exactly when it is one, and then to these bytes. */
  lemma EncodedIsPlaced(plan: Plan, value: Value)
    ensures EncodeRow(plan, value) == if WellTyped(plan, MessageLayout(ROOT_ID), value)
                                      then Ok(MessageBytes(plan, value)) else Err(WrongColumn)
  {
    if WellTyped(plan, MessageLayout(ROOT_ID), value) {
      PrintIsPlaced(plan, MessageLayout(ROOT_ID), value, []);
      assert [] + ValueAt(plan, MessageLayout(ROOT_ID), value, 0) == ValueAt(plan, MessageLayout(ROOT_ID), value, 0);
    }
  }
}
