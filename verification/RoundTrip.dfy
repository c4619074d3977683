/** Printing and decoding CDR are inverse to each other, on every plan and every value. */
module RoundTrip {
  import opened Basics
  import opened Cdr

  // ---------------------------------------------------------------- scalars

  lemma {:induction false} LittleEndianReadsBack(n: nat, w: nat)
    requires n < Pow256(w)
    ensures FromLittleEndian(LittleEndian(n, w)) == n
  {
    if w > 0 {
      LittleEndianReadsBack(n / 256, w - 1);
      assert LittleEndian(n, w)[1..] == LittleEndian(n / 256, w - 1);
    }
  }

  lemma {:induction false} LittleEndianWritesBack(b: bytes)
    ensures LittleEndian(FromLittleEndian(b), |b|) == b
  {
    if b != [] {
      LittleEndianWritesBack(b[1..]);
      assert FromLittleEndian(b) / 256 == FromLittleEndian(b[1..]);
      assert b == [b[0]] + b[1..];
    }
  }

  lemma SkipAligns(input: bytes, body: bytes, align: nat)
    requires align > 0 && Align(body, align) <= input
    ensures Skip(input, |body|, align) == Some(|Align(body, align)|)
  {
    forall i | |body| <= i < |Align(body, align)| ensures input[i] == 0 {
      assert input[i] == Align(body, align)[i] == Zeros(Gap(|body|, align))[i - |body|];
    }
  }

  lemma SkippedIsAligned(input: bytes, at: nat, align: nat)
    requires align > 0 && at <= |input| && Skip(input, at, align).Some?
    ensures Align(input[..at], align) == input[..Skip(input, at, align).value]
  {
    var next := Skip(input, at, align).value;
    assert input[..next] == input[..at] + input[at..next];
    assert input[at..next] == Zeros(Gap(at, align));
  }

  /** Where a number lies that was put after some body. */
  lemma NumberLies(input: bytes, body: bytes, kind: Kind, n: int)
    requires InRange(kind, n) && PutNumber(body, kind, n) <= input
    ensures var w, start := Width(kind), |Align(body, Width(kind))|;
            && Skip(input, |body|, w) == Some(start)
            && start + w == |PutNumber(body, kind, n)| <= |input|
            && input[start..start + w] == LittleEndian(Pattern(kind, n), w)
  {
    hide LittleEndian, Skip;
    var w, start := Width(kind), |Align(body, Width(kind))|;
    assert Align(body, w) <= PutNumber(body, kind, n);
    SkipAligns(input, body, w);
    assert input[start..start + w] == PutNumber(body, kind, n)[start..] == LittleEndian(Pattern(kind, n), w);
  }

  lemma NumberReadsBack(input: bytes, body: bytes, kind: Kind, n: int)
    requires InRange(kind, n) && PutNumber(body, kind, n) <= input
    ensures GetNumber(input, |body|, kind) == Some(Read(n, |PutNumber(body, kind, n)|))
  {
    hide LittleEndian, FromLittleEndian, Skip, Align, PutNumber;
    NumberLies(input, body, kind, n);
    LittleEndianReadsBack(Pattern(kind, n), Width(kind));
    HalvesMeet(Width(kind));
  }

  lemma WidthIsPositive(kind: Kind)
    ensures Width(kind) > 0
  {}

  lemma NumberPrintsBack(input: bytes, at: nat, kind: Kind)
    requires at <= |input| && GetNumber(input, at, kind).Some?
    ensures var Read(n, next) := GetNumber(input, at, kind).value;
            next <= |input| && PutNumber(input[..at], kind, n) == input[..next]
  {
    hide FromLittleEndian, LittleEndian, Skip, Align, Pow256, InRange, FromPattern, Pattern, Width;
    WidthIsPositive(kind);
    var w := Width(kind);
    var start := Skip(input, at, w).value;
    SkippedIsAligned(input, at, w);
    FromLittleEndianBound(input[start..start + w]);
    LittleEndianWritesBack(input[start..start + w]);
    assert input[..start + w] == input[..start] + input[start..start + w];
  }

  lemma StringReadsBack(input: bytes, body: bytes, text: bytes)
    requires |text| + 1 < U32_LIMIT && PutString(body, text) <= input
    ensures GetString(input, |body|) == Some(Read(text, |PutString(body, text)|))
  {
    var head := PutLength(body, |text| + 1);
    assert head <= PutString(body, text);
    LengthInRange(|text| + 1);
    NumberReadsBack(input, body, U32, |text| + 1);
    var next := |head| + |text| + 1;
    assert input[..next] == head + text + [0];
    assert input[next - 1] == (head + text + [0])[next - 1];
    assert input[|head|..next - 1] == (head + text + [0])[|head|..next - 1] == text;
  }

  lemma StringPrintsBack(input: bytes, at: nat)
    requires at <= |input| && GetString(input, at).Some?
    ensures var Read(text, next) := GetString(input, at).value;
            next <= |input| && |text| + 1 < U32_LIMIT && PutString(input[..at], text) == input[..next]
  {
    NumberPrintsBack(input, at, U32);
    var Read(n, start) := GetNumber(input, at, U32).value;
    LengthInRange(0);
    var Read(text, next) := GetString(input, at).value;
    assert input[..next] == input[..start] + input[start..next - 1] + [input[next - 1]];
  }

  lemma ScalarReadsBack(ty: BuiltIn, value: Value, input: bytes, body: bytes)
    requires TypedScalar(ty, value) && PrintScalar(ty, value, body) <= input
    ensures DecodeScalar(ty, input, |body|) == Some(Read(value, |PrintScalar(ty, value, body)|))
  {
    match value
    case BoolValue(flag) => assert input[|body|] == PutBool(body, flag)[|body|];
    case NumberValue(kind, n) => NumberReadsBack(input, body, kind, n);
    case StringValue(text) => StringReadsBack(input, body, text);
  }

  lemma ScalarPrintsBack(ty: BuiltIn, input: bytes, at: nat)
    requires at <= |input| && DecodeScalar(ty, input, at).Some?
    ensures var Read(value, next) := DecodeScalar(ty, input, at).value;
            next <= |input| && TypedScalar(ty, value) && PrintScalar(ty, value, input[..at]) == input[..next]
  {
    match ty
    case Bool => assert input[..at + 1] == input[..at] + [input[at]];
    case Byte | Char => NumberPrintsBack(input, at, U8);
    case Number(kind) => NumberPrintsBack(input, at, kind);
    case String(_) => StringPrintsBack(input, at);
    case WString(_) =>
  }

  // ---------------------------------------------------------------- whole values

  /** Printing only appends. */
  lemma {:induction false} PrintExtends(plan: Plan, layout: Layout, value: Value, body: bytes)
    requires WellTyped(plan, layout, value)
    ensures body <= Print(plan, layout, value, body)
    decreases value, 0
  {
    match layout
    case BuiltInLayout(_) =>
    case MessageLayout(id) => FieldsExtend(plan, plan.messages[id], value.fields, body);
    case ArrayLayout(element, size) =>
      ItemsExtend(plan, element, value.items, if size.Fixed? then body else PutLength(body, |value.items|));
  }

  lemma {:induction false} FieldsExtend(plan: Plan, layouts: seq<Layout>, values: seq<Value>, body: bytes)
    requires TypedFields(plan, layouts, values)
    ensures body <= PrintFields(plan, layouts, values, body)
    decreases values, 0
  {
    if values != [] {
      PrintExtends(plan, layouts[0], values[0], body);
      FieldsExtend(plan, layouts[1..], values[1..], Print(plan, layouts[0], values[0], body));
    }
  }

  lemma {:induction false} ItemsExtend(plan: Plan, element: Layout, values: seq<Value>, body: bytes)
    requires TypedItems(plan, element, values)
    ensures body <= PrintItems(plan, element, values, body)
    decreases values, 0
  {
    if values != [] {
      PrintExtends(plan, element, values[0], body);
      ItemsExtend(plan, element, values[1..], Print(plan, element, values[0], body));
    }
  }

  /** Whatever follows, decoding what was printed gives the value and stops where printing did. */
  lemma {:induction false} ReadsBack(plan: Plan, depth: nat, layout: Layout, value: Value, body: bytes, input: bytes)
    requires plan.Valid() && plan.Fits(layout, depth)
    requires WellTyped(plan, layout, value) && Print(plan, layout, value, body) <= input
    ensures Decode(plan, depth, layout, input, |body|) == Some(Read(value, |Print(plan, layout, value, body)|))
    decreases value, 0
  {
    match layout
    case BuiltInLayout(ty) => ScalarReadsBack(ty, value, input, body);
    case MessageLayout(id) => FieldsReadBack(plan, plan.rank[id], plan.messages[id], value.fields, body, input);
    case ArrayLayout(element, size) =>
      var n := |value.items|;
      var start := if size.Fixed? then body else PutLength(body, n);
      ItemsExtend(plan, element, value.items, start);
      if !size.Fixed? {
        LengthInRange(n);
        NumberReadsBack(input, body, U32, n);
      }
      ItemsReadBack(plan, depth, element, value.items, start, input);
  }

  lemma {:induction false} FieldsReadBack(plan: Plan, depth: nat, layouts: seq<Layout>, values: seq<Value>,
                                          body: bytes, input: bytes)
    requires plan.Valid() && forall i :: 0 <= i < |layouts| ==> plan.Fits(layouts[i], depth)
    requires TypedFields(plan, layouts, values) && PrintFields(plan, layouts, values, body) <= input
    ensures DecodeFields(plan, depth, layouts, input, |body|)
         == Some(Read(values, |PrintFields(plan, layouts, values, body)|))
    decreases values, 0
  {
    if values != [] {
      var mid := Print(plan, layouts[0], values[0], body);
      FieldsExtend(plan, layouts[1..], values[1..], mid);
      ReadsBack(plan, depth, layouts[0], values[0], body, input);
      FieldsReadBack(plan, depth, layouts[1..], values[1..], mid, input);
      assert values == [values[0]] + values[1..];
    }
  }

  lemma {:induction false} ItemsReadBack(plan: Plan, depth: nat, element: Layout, values: seq<Value>,
                                         body: bytes, input: bytes)
    requires plan.Valid() && plan.Fits(element, depth)
    requires TypedItems(plan, element, values) && PrintItems(plan, element, values, body) <= input
    ensures DecodeItems(plan, depth, element, |values|, input, |body|)
         == Some(Read(values, |PrintItems(plan, element, values, body)|))
    decreases values, 0
  {
    if values != [] {
      var mid := Print(plan, element, values[0], body);
      ItemsExtend(plan, element, values[1..], mid);
      ReadsBack(plan, depth, element, values[0], body, input);
      ItemsReadBack(plan, depth, element, values[1..], mid, input);
      assert values == [values[0]] + values[1..];
    }
  }

  /** Whatever decodes is well typed, and prints back to the bytes it was read from. */
  lemma {:induction false} PrintsBack(plan: Plan, depth: nat, layout: Layout, input: bytes, at: nat)
    requires plan.Valid() && plan.Fits(layout, depth) && at <= |input|
    requires Decode(plan, depth, layout, input, at).Some?
    ensures var Read(value, next) := Decode(plan, depth, layout, input, at).value;
            && next <= |input|
            && WellTyped(plan, layout, value)
            && Print(plan, layout, value, input[..at]) == input[..next]
    decreases depth, layout, 0, 0
  {
    match layout
    case BuiltInLayout(ty) => ScalarPrintsBack(ty, input, at);
    case MessageLayout(id) => FieldsPrintBack(plan, plan.rank[id], plan.messages[id], input, at);
    case ArrayLayout(element, size) =>
      if size.Fixed? {
        ItemsPrintBack(plan, depth, element, size.size, input, at);
      } else {
        NumberPrintsBack(input, at, U32);
        LengthInRange(0);
        var Read(n, start) := GetNumber(input, at, U32).value;
        ItemsPrintBack(plan, depth, element, n, input, start);
      }
  }

  lemma {:induction false} FieldsPrintBack(plan: Plan, depth: nat, layouts: seq<Layout>, input: bytes, at: nat)
    requires plan.Valid() && at <= |input|
    requires forall i :: 0 <= i < |layouts| ==> plan.Fits(layouts[i], depth)
    requires DecodeFields(plan, depth, layouts, input, at).Some?
    ensures var Read(values, next) := DecodeFields(plan, depth, layouts, input, at).value;
            && next <= |input|
            && TypedFields(plan, layouts, values)
            && PrintFields(plan, layouts, values, input[..at]) == input[..next]
    decreases depth, layouts, 0, 0
  {
    if layouts != [] {
      PrintsBack(plan, depth, layouts[0], input, at);
      var Read(first, mid) := Decode(plan, depth, layouts[0], input, at).value;
      FieldsPrintBack(plan, depth, layouts[1..], input, mid);
      var Read(rest, next) := DecodeFields(plan, depth, layouts[1..], input, mid).value;
      assert ([first] + rest)[1..] == rest;
    }
  }

  lemma {:induction false} ItemsPrintBack(plan: Plan, depth: nat, element: Layout, count: nat, input: bytes, at: nat)
    requires plan.Valid() && plan.Fits(element, depth) && at <= |input|
    requires DecodeItems(plan, depth, element, count, input, at).Some?
    ensures var Read(values, next) := DecodeItems(plan, depth, element, count, input, at).value;
            && next <= |input|
            && TypedItems(plan, element, values)
            && PrintItems(plan, element, values, input[..at]) == input[..next]
    decreases depth, element, 1, count
  {
    if count != 0 {
      PrintsBack(plan, depth, element, input, at);
      var Read(first, mid) := Decode(plan, depth, element, input, at).value;
      ItemsPrintBack(plan, depth, element, count - 1, input, mid);
      var Read(rest, next) := DecodeItems(plan, depth, element, count - 1, input, mid).value;
      assert ([first] + rest)[1..] == rest;
    }
  }

  // ---------------------------------------------------------------- whole messages

  /** Decoding an encoded message gives the value back. */
  lemma DecodeInvertsEncode(plan: Plan, value: Value)
    requires plan.Valid() && WellTyped(plan, MessageLayout(ROOT_ID), value)
    ensures DecodeRow(plan, EncodeRow(plan, value).value) == Some(value)
  {
    var body := Print(plan, MessageLayout(ROOT_ID), value, []);
    assert EncodeRow(plan, value).value[..4] == ENCAPSULATION;
    assert EncodeRow(plan, value).value[4..] == body;
    ReadsBack(plan, plan.rank[ROOT_ID] + 1, MessageLayout(ROOT_ID), value, [], body);
  }

  /** A canonical message decoded and re-encoded comes back byte for byte. */
  lemma EncodeInvertsDecode(plan: Plan, message: bytes)
    requires plan.Valid() && Canonical(plan, message)
    ensures EncodeRow(plan, DecodeRow(plan, message).value) == Ok(message)
  {
    var body := message[4..];
    PrintsBack(plan, plan.rank[ROOT_ID] + 1, MessageLayout(ROOT_ID), body, 0);
    assert body[..0] == [];
    assert body[..|body|] == body;
    assert message == ENCAPSULATION + body;
  }

  /** The canonical messages are exactly the encodings. */
  lemma CanonicalAreTheEncodings(plan: Plan, message: bytes)
    requires plan.Valid()
    ensures Canonical(plan, message) <==> exists value :: EncodeRow(plan, value) == Ok(message)
  {
    if Canonical(plan, message) {
      EncodeInvertsDecode(plan, message);
    }
    forall value | EncodeRow(plan, value) == Ok(message) ensures Canonical(plan, message) {
      DecodeInvertsEncode(plan, value);
    }
  }
}
