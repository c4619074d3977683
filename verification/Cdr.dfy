/**
 Classic little-endian CDR (section 9.3 of CORBA 3.3 Part 2) over ROS message layouts:
 the values a layout admits, how they are printed, and the decoder that reads them back.

 Alignment is measured from the start of the body, so printing appends to a body whose
 length is the position, and decoding carries an index into the whole body.
 */
module Cdr {
  import opened Basics

  // ---------------------------------------------------------------- layouts

  /** Fixed-width scalars. A float is its bit pattern: its meaning plays no role here. */
  datatype Kind = U8 | I8 | I16 | U16 | I32 | U32 | I64 | U64 | F32 | F64

  function Width(kind: Kind): nat {
    match kind
    case U8 | I8 => 1
    case I16 | U16 => 2
    case I32 | U32 | F32 => 4
    case I64 | U64 | F64 => 8
  }

  predicate Signed(kind: Kind) { kind.I8? || kind.I16? || kind.I32? || kind.I64? }

  datatype BuiltIn =
    | Bool
    | Byte
    | Char
    | Number(kind: Kind)
    | String(bound: Option<nat>)
    | WString(bound: Option<nat>)

  datatype ArraySize = Fixed(size: nat) | Bounded(bound: nat) | Unbounded

  datatype Layout =
    | BuiltInLayout(ty: BuiltIn)
    | MessageLayout(id: nat)
    | ArrayLayout(element: Layout, size: ArraySize)

  /** The layouts of a schema's messages. `rank` witnesses that no message contains itself. */
  datatype Plan = Plan(messages: seq<seq<Layout>>, rank: seq<nat>) {
    predicate Valid() {
      && |rank| == |messages| > 0
      && forall m, f :: 0 <= m < |messages| && 0 <= f < |messages[m]| ==> Fits(messages[m][f], rank[m])
    }

    /** Every message a value of this layout nests ranks below `depth`. */
    predicate Fits(layout: Layout, depth: nat)
      requires |rank| == |messages|
    {
      match layout
      case BuiltInLayout(_) => true
      case MessageLayout(id) => id < |messages| && rank[id] < depth
      case ArrayLayout(element, _) => Fits(element, depth)
    }
  }

  const ROOT_ID: nat := 0

  // ---------------------------------------------------------------- values

  datatype Value =
    | BoolValue(flag: bool)
    | NumberValue(kind: Kind, number: int)
    | StringValue(text: bytes)
    | StructValue(fields: seq<Value>)
    | ListValue(items: seq<Value>)

  const U32_LIMIT: nat := 0x1_0000_0000

  predicate InRange(kind: Kind, n: int) {
    if Signed(kind) then -(Pow256(Width(kind)) / 2) <= n < Pow256(Width(kind)) / 2
    else 0 <= n < Pow256(Width(kind))
  }

  predicate TypedScalar(ty: BuiltIn, value: Value) {
    match ty
    case Bool => value.BoolValue?
    case Byte | Char => value.NumberValue? && value.kind == U8 && InRange(U8, value.number)
    case Number(kind) => value.NumberValue? && value.kind == kind && InRange(kind, value.number)
    case String(_) => value.StringValue? && |value.text| + 1 < U32_LIMIT
    case WString(_) => false
  }

  /** The values of a layout. A bounded array's bound is the schema's business: neither
      direction of the codec looks at it. */
  predicate WellTyped(plan: Plan, layout: Layout, value: Value)
    decreases value, 0
  {
    match layout
    case BuiltInLayout(ty) => TypedScalar(ty, value)
    case MessageLayout(id) =>
      && id < |plan.messages|
      && value.StructValue?
      && TypedFields(plan, plan.messages[id], value.fields)
    case ArrayLayout(element, size) =>
      && value.ListValue?
      && (if size.Fixed? then |value.items| == size.size else |value.items| < U32_LIMIT)
      && TypedItems(plan, element, value.items)
  }

  predicate TypedFields(plan: Plan, layouts: seq<Layout>, values: seq<Value>)
    decreases values, 0
  {
    && |layouts| == |values|
    && (values != [] ==>
          && WellTyped(plan, layouts[0], values[0])
          && TypedFields(plan, layouts[1..], values[1..]))
  }

  predicate TypedItems(plan: Plan, element: Layout, values: seq<Value>)
    decreases values, 0
  {
    values != [] ==> WellTyped(plan, element, values[0]) && TypedItems(plan, element, values[1..])
  }

  // ---------------------------------------------------------------- printing

  function Pow256(w: nat): (p: nat)
    ensures p > 0
  {
    if w == 0 then 1 else 256 * Pow256(w - 1)
  }

  function LittleEndian(n: nat, w: nat): (b: bytes)
    ensures |b| == w
  {
    if w == 0 then [] else [n % 256] + LittleEndian(n / 256, w - 1)
  }

  function FromLittleEndian(b: bytes): nat {
    if b == [] then 0 else b[0] + 256 * FromLittleEndian(b[1..])
  }

  /** Two's complement. */
  function Pattern(kind: Kind, n: int): (p: nat)
    requires InRange(kind, n)
    ensures p < Pow256(Width(kind))
  {
    if n < 0 then n + Pow256(Width(kind)) else n
  }

  function FromPattern(kind: Kind, p: nat): (n: int)
    requires p < Pow256(Width(kind))
    ensures InRange(kind, n) && Pattern(kind, n) == p
  {
    HalvesMeet(Width(kind));
    if Signed(kind) && p >= Pow256(Width(kind)) / 2 then p - Pow256(Width(kind)) else p
  }

  lemma HalvesMeet(w: nat)
    requires w > 0
    ensures 2 * (Pow256(w) / 2) == Pow256(w)
  {}

  function Zeros(n: nat): (b: bytes)
    ensures |b| == n && forall i :: 0 <= i < n ==> b[i] == 0
  {
    seq(n, _ => 0)
  }

  /** How many padding bytes reach the next multiple of `align`. */
  function Gap(position: nat, align: nat): nat
    requires align > 0
  {
    (align - position % align) % align
  }

  function Align(body: bytes, align: nat): bytes
    requires align > 0
  {
    body + Zeros(Gap(|body|, align))
  }

  function PutNumber(body: bytes, kind: Kind, n: int): bytes
    requires InRange(kind, n)
  {
    Align(body, Width(kind)) + LittleEndian(Pattern(kind, n), Width(kind))
  }

  function PutBool(body: bytes, flag: bool): bytes {
    body + [if flag then 1 else 0]
  }

  function PutLength(body: bytes, n: nat): bytes
    requires n < U32_LIMIT
  {
    assert Pow256(4) == U32_LIMIT by { assert Pow256(3) == 0x100_0000; }
    PutNumber(body, U32, n)
  }

  /** A string counts its terminating NUL. */
  function PutString(body: bytes, text: bytes): bytes
    requires |text| + 1 < U32_LIMIT
  {
    PutLength(body, |text| + 1) + text + [0]
  }

  function PrintScalar(ty: BuiltIn, value: Value, body: bytes): bytes
    requires TypedScalar(ty, value)
  {
    match value
    case BoolValue(flag) => PutBool(body, flag)
    case NumberValue(kind, n) => PutNumber(body, kind, n)
    case StringValue(text) => PutString(body, text)
  }

  /** The body after one value has been appended to it. */
  function Print(plan: Plan, layout: Layout, value: Value, body: bytes): bytes
    requires WellTyped(plan, layout, value)
    decreases value, 0
  {
    match layout
    case BuiltInLayout(ty) => PrintScalar(ty, value, body)
    case MessageLayout(id) => PrintFields(plan, plan.messages[id], value.fields, body)
    case ArrayLayout(element, size) =>
      PrintItems(plan, element, value.items, if size.Fixed? then body else PutLength(body, |value.items|))
  }

  function PrintFields(plan: Plan, layouts: seq<Layout>, values: seq<Value>, body: bytes): bytes
    requires TypedFields(plan, layouts, values)
    decreases values, 0
  {
    if values == [] then body
    else PrintFields(plan, layouts[1..], values[1..], Print(plan, layouts[0], values[0], body))
  }

  function PrintItems(plan: Plan, element: Layout, values: seq<Value>, body: bytes): bytes
    requires TypedItems(plan, element, values)
    decreases values, 0
  {
    if values == [] then body
    else PrintItems(plan, element, values[1..], Print(plan, element, values[0], body))
  }

  /** `CDR_LE` with zeroed options: section 10 of DDSI-RTPS 2.3. */
  const ENCAPSULATION: bytes := [0x00, 0x01, 0x00, 0x00]

  /** One message on the wire, or why its struct cannot be one. */
  function EncodeRow(plan: Plan, value: Value): Result<bytes> {
    if WellTyped(plan, MessageLayout(ROOT_ID), value)
    then Ok(ENCAPSULATION + Print(plan, MessageLayout(ROOT_ID), value, []))
    else Err(WrongColumn)
  }

  lemma LengthInRange(n: nat)
    requires n < U32_LIMIT
    ensures InRange(U32, n)
    ensures Pow256(4) == U32_LIMIT
  {
    assert Pow256(3) == 0x100_0000;
  }

  // ---------------------------------------------------------------- decoding

  /** What was read, and where reading stopped. */
  datatype Read<+T> = Read(value: T, next: nat)

  /** Skips padding, which canonical CDR leaves zero. */
  function Skip(input: bytes, at: nat, align: nat): (r: Option<nat>)
    requires align > 0
    ensures r.Some? ==> r.value <= |input|
  {
    var next := at + Gap(at, align);
    if next <= |input| && forall i :: at <= i < next ==> input[i] == 0 then Some(next) else None
  }

  function GetNumber(input: bytes, at: nat, kind: Kind): (r: Option<Read<int>>)
    ensures r.Some? ==> InRange(kind, r.value.value)
  {
    match Skip(input, at, Width(kind))
    case None => None
    case Some(start) =>
      var next := start + Width(kind);
      if next > |input| then None
      else
        FromLittleEndianBound(input[start..next]);
        Some(Read(FromPattern(kind, FromLittleEndian(input[start..next])), next))
  }

  function GetString(input: bytes, at: nat): Option<Read<bytes>> {
    match GetNumber(input, at, U32)
    case None => None
    case Some(Read(n, start)) =>
      var next := start + n;
      if n == 0 || next > |input| || input[next - 1] != 0 then None
      else Some(Read(input[start..next - 1], next))
  }

  function DecodeScalar(ty: BuiltIn, input: bytes, at: nat): Option<Read<Value>> {
    match ty
    case Bool =>
      if at < |input| && input[at] <= 1 then Some(Read(BoolValue(input[at] == 1), at + 1)) else None
    case Byte | Char => DecodeNumber(U8, input, at)
    case Number(kind) => DecodeNumber(kind, input, at)
    case String(_) =>
      (match GetString(input, at)
       case None => None
       case Some(Read(text, next)) => Some(Read(StringValue(text), next)))
    case WString(_) => None
  }

  function DecodeNumber(kind: Kind, input: bytes, at: nat): Option<Read<Value>> {
    match GetNumber(input, at, kind)
    case None => None
    case Some(Read(n, next)) => Some(Read(NumberValue(kind, n), next))
  }

  /** Reads one value of `layout` starting at `at`, walking the plan as printing does. */
  function Decode(plan: Plan, depth: nat, layout: Layout, input: bytes, at: nat): Option<Read<Value>>
    requires plan.Valid() && plan.Fits(layout, depth)
    decreases depth, layout, 0, 0
  {
    match layout
    case BuiltInLayout(ty) => DecodeScalar(ty, input, at)
    case MessageLayout(id) =>
      (match DecodeFields(plan, plan.rank[id], plan.messages[id], input, at)
       case None => None
       case Some(Read(fields, next)) => Some(Read(StructValue(fields), next)))
    case ArrayLayout(element, size) =>
      var count := if size.Fixed? then Some(Read(size.size, at)) else GetNumber(input, at, U32);
      if count.None? then None
      else
        match DecodeItems(plan, depth, element, count.value.value, input, count.value.next)
        case None => None
        case Some(Read(items, next)) => Some(Read(ListValue(items), next))
  }

  function DecodeFields(plan: Plan, depth: nat, layouts: seq<Layout>, input: bytes, at: nat): Option<Read<seq<Value>>>
    requires plan.Valid() && forall i :: 0 <= i < |layouts| ==> plan.Fits(layouts[i], depth)
    decreases depth, layouts, 0, 0
  {
    if layouts == [] then Some(Read([], at))
    else
      match Decode(plan, depth, layouts[0], input, at)
      case None => None
      case Some(Read(first, mid)) =>
        match DecodeFields(plan, depth, layouts[1..], input, mid)
        case None => None
        case Some(Read(rest, next)) => Some(Read([first] + rest, next))
  }

  function DecodeItems(plan: Plan, depth: nat, element: Layout, count: nat, input: bytes, at: nat):
    (r: Option<Read<seq<Value>>>)
    requires plan.Valid() && plan.Fits(element, depth)
    ensures r.Some? ==> |r.value.value| == count
    decreases depth, element, 1, count
  {
    if count == 0 then Some(Read([], at))
    else
      match Decode(plan, depth, element, input, at)
      case None => None
      case Some(Read(first, mid)) =>
        match DecodeItems(plan, depth, element, count - 1, input, mid)
        case None => None
        case Some(Read(rest, next)) => Some(Read([first] + rest, next))
  }

  /** Reads a whole message: the encapsulation header, the body, and nothing after it. */
  function DecodeRow(plan: Plan, message: bytes): Option<Value>
    requires plan.Valid()
  {
    if |message| < 4 || message[..4] != ENCAPSULATION then None
    else
      var body := message[4..];
      match Decode(plan, plan.rank[ROOT_ID] + 1, MessageLayout(ROOT_ID), body, 0)
      case None => None
      case Some(Read(value, next)) => if next == |body| then Some(value) else None
  }

  /** Bytes as a ROS 2 publisher lays this message out: zero padding, booleans 0 or 1, strings
      terminated, nothing trailing. */
  predicate Canonical(plan: Plan, message: bytes)
    requires plan.Valid()
  {
    DecodeRow(plan, message).Some?
  }

  lemma {:induction false} FromLittleEndianBound(b: bytes)
    ensures FromLittleEndian(b) < Pow256(|b|)
  {
    if b != [] {
      FromLittleEndianBound(b[1..]);
    }
  }
}
