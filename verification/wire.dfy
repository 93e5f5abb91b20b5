/** The part of the Protocol Buffers wire format that both GTFS-Realtime
    decoders of main.py rely on: base-128 varints, length-delimited fields and
    the fixed 64-bit and 32-bit fields they skip (wire types 0, 2, 1 and 5).

    The decoders walk every message the same way: read a tag varint, split it
    into field number (tag >> 3) and wire type (tag & 7), consume the field by
    its actual wire type and go on until the position reaches the end of the
    buffer. `Walk` states that walk once, as the list of fields a buffer holds;
    each message of the two decoders is then a left fold over that list. */
module Wire {

  newtype byte = x: int | 0 <= x < 256

  type Bytes = seq<byte>

  /** read_string's UTF-8 decoding, modelled as the map from each byte to the
      character with the same code: it is injective, as UTF-8 decoding is on
      well-formed input, so identifiers compare equal exactly when their bytes do. */
  function Text(b: Bytes): (s: string)
    ensures |s| == |b|
  {
    seq(|b|, i requires 0 <= i < |b| => b[i] as int as char)
  }

  /** Distinct byte strings decode to distinct texts. */
  lemma TextInjective(a: Bytes, b: Bytes)
    requires Text(a) == Text(b)
    ensures a == b
  {
    assert |a| == |b|;
    forall i | 0 <= i < |a| ensures a[i] == b[i] {
      assert Text(a)[i] == Text(b)[i];
    }
  }

  /** Texts whose every character has a code below 256: the ones `Latin1` encodes. */
  predicate IsLatin1(s: string) {
    forall i :: 0 <= i < |s| ==> s[i] as int < 256
  }

  /** Encoding partner of `Text`: one byte per character. */
  function Latin1(s: string): (b: Bytes)
    requires IsLatin1(s)
    ensures Text(b) == s
  {
    seq(|s|, i requires 0 <= i < |s| => s[i] as int as byte)
  }

  // ---------------------------------------------------------------------
  // WireReader: read_varint, read_bytes, read_string

  /** The value of the varint starting at pos and the position after it.
      Each byte contributes its low 7 bits, least significant group first; the
      first byte below 0x80 ends the varint, and so does the end of the buffer.
      (The source ORs each group in at its shift; the groups never overlap, so
      the OR is the sum written here.) */
  function Varint(data: Bytes, pos: nat): (r: (nat, nat))
    ensures pos < |data| ==> pos < r.1 <= |data|
    ensures pos >= |data| ==> r == (0, pos)
    decreases |data| - pos
  {
    if pos >= |data| then (0, pos)
    else if data[pos] < 128 then (data[pos] as nat, pos + 1)
    else
      var rest := Varint(data, pos + 1);
      (data[pos] as nat % 128 + 128 * rest.0, rest.1)
  }

  /** read_varint (main.py): the loop over the bytes of one varint. */
  method ReadVarint(data: Bytes, pos: nat) returns (value: nat, next: nat)
    ensures (value, next) == Varint(data, pos)
    ensures pos < |data| ==> pos < next <= |data|
    ensures pos >= |data| ==> next == pos
  {
    value, next := 0, pos;
    var weight: nat := 1;  // 1 << shift
    while next < |data|
      invariant pos <= next
      invariant value + weight * Varint(data, next).0 == Varint(data, pos).0
      invariant Varint(data, next).1 == Varint(data, pos).1
      decreases |data| - next
    {
      var b := data[next];
      ghost var here := next;
      ghost var before := value;
      next := next + 1;
      value := value + (b as nat % 128) * weight;
      if b < 128 {
        LastGroup(data, here, before, weight, Varint(data, pos).0);
        return;
      }
      NextGroup(data, here, before, weight, Varint(data, pos).0);
      weight := weight * 128;
    }
  }

  /** A byte below 0x80 ends the varint: its group completes the value. */
  lemma LastGroup(data: Bytes, here: nat, value: nat, weight: nat, total: nat)
    requires here < |data| && data[here] < 128
    requires value + weight * Varint(data, here).0 == total
    ensures value + (data[here] as nat % 128) * weight == total
    ensures Varint(data, here).1 == here + 1
  {
  }

  /** A continuation byte moves its group into the value and the weight up by 2^7. */
  lemma NextGroup(data: Bytes, here: nat, value: nat, weight: nat, total: nat)
    requires here < |data| && data[here] >= 128
    requires value + weight * Varint(data, here).0 == total
    ensures value + (data[here] as nat % 128) * weight + (weight * 128) * Varint(data, here + 1).0 == total
    ensures Varint(data, here).1 == Varint(data, here + 1).1
  {
    var group, rest := data[here] as nat % 128, Varint(data, here + 1).0;
    assert Varint(data, here).0 == group + 128 * rest;
    Regroup(weight, group, rest);
  }

  /** The arithmetic of one continuation byte: a group of 7 bits at weight w. */
  lemma Regroup(w: nat, group: nat, rest: nat)
    ensures w * (group + 128 * rest) == group * w + (w * 128) * rest
  {
  }

  /** Python's data[lo:hi] for 0 <= lo <= hi: the slice clipped to the buffer. */
  function Clip(data: Bytes, lo: nat, hi: nat): (s: Bytes)
    requires lo <= hi
    ensures |s| <= hi - lo
    ensures hi <= |data| ==> s == data[lo..hi]
  {
    var a := if lo < |data| then lo else |data|;
    var b := if hi < |data| then hi else |data|;
    data[a..b]
  }

  /** A length-delimited field's payload and the position after it: a varint
      length, then that many bytes, clipped to the buffer. The position is
      advanced by the declared length even when fewer bytes remain. */
  function Delimited(data: Bytes, pos: nat): (r: (Bytes, nat))
    ensures pos <= r.1
    ensures pos < |data| ==> pos < r.1
    ensures |r.0| <= r.1 - Varint(data, pos).1
  {
    var (length, p) := Varint(data, pos);
    (Clip(data, p, p + length), p + length)
  }

  /** read_bytes (main.py). */
  method ReadBytes(data: Bytes, pos: nat) returns (payload: Bytes, next: nat)
    ensures (payload, next) == Delimited(data, pos)
  {
    var length, p := ReadVarint(data, pos);
    payload := Clip(data, p, p + length);
    next := p + length;
  }

  /** read_string (main.py): read_bytes followed by the decoding of `Text`. */
  method ReadString(data: Bytes, pos: nat) returns (s: string, next: nat)
    ensures s == Text(Delimited(data, pos).0) && next == Delimited(data, pos).1
  {
    var payload;
    payload, next := ReadBytes(data, pos);
    s := Text(payload);
  }

  // ---------------------------------------------------------------------
  // FieldWalker: the fields of a message, in buffer order

  /** A field as the walker consumes it: by its actual wire type. */
  datatype Payload =
    | VarintValue(value: nat)         // wire type 0
    | Fixed(width: nat)               // wire type 1 (8 bytes) or 5 (4 bytes), skipped
    | LengthDelimited(bytes: Bytes)   // wire type 2

  datatype Field = Field(number: nat, payload: Payload)

  /** What a message loop does with a wire type it does not know.
      FeedLevel: the FeedMessage loops of both decoders advance one byte and go on.
      Nested: the sub-message loops of the trip decoder stop.
      NestedNoFixed: the sub-message loops of the alert decoder stop, and they
      treat wire types 1 and 5 as unknown as well. */
  datatype Dialect = FeedLevel | Nested | NestedNoFixed

  /** What one pass of a message loop does at a position inside the buffer:
      consume a field and go on after it, step over one byte, or stop. */
  datatype Step = Emit(field: Field, next: nat) | Skip(next: nat) | Stop

  /** One pass of the message loop of dialect d at pos: read the tag, split it
      into field number and wire type, and consume the field by its wire type. */
  function StepAt(data: Bytes, pos: nat, d: Dialect): (s: Step)
    requires pos < |data|
    ensures !s.Stop? ==> pos < s.next
  {
    var (tag, p) := Varint(data, pos);
    var number, wireType := tag / 8, tag % 8;
    if wireType == 0 then
      var (v, q) := Varint(data, p);
      Emit(Field(number, VarintValue(v)), q)
    else if wireType == 2 then
      var (s, q) := Delimited(data, p);
      Emit(Field(number, LengthDelimited(s)), q)
    else if (wireType == 1 || wireType == 5) && d != NestedNoFixed then
      var width := if wireType == 1 then 8 else 4;
      Emit(Field(number, Fixed(width)), p + width)
    else if d == FeedLevel then Skip(p + 1)
    else Stop
  }

  /** The fields of data[pos..] as the message loop of the given dialect reads them. */
  function Walk(data: Bytes, pos: nat, d: Dialect): seq<Field>
    decreases |data| - pos
  {
    if pos >= |data| then []
    else
      match StepAt(data, pos, d)
      case Emit(f, q) => [f] + Walk(data, q, d)
      case Skip(q) => Walk(data, q, d)
      case Stop => []
  }

  /** Every field the walker reads takes at least one byte, so there are never
      more fields than bytes left, and none at or past the end. */
  lemma {:induction false} WalkLength(data: Bytes, pos: nat, d: Dialect)
    ensures |Walk(data, pos, d)| <= if pos < |data| then |data| - pos else 0
    decreases |data| - pos
  {
    if pos < |data| {
      match StepAt(data, pos, d)
      case Emit(f, q) => WalkLength(data, q, d);
      case Skip(q) => WalkLength(data, q, d);
      case Stop =>
    }
  }

  /** The record a message loop builds: each field applied in buffer order. */
  function FoldFields<A>(step: (A, Field) -> A, acc: A, fields: seq<Field>): A
    decreases |fields|
  {
    if fields == [] then acc else FoldFields(step, step(acc, fields[0]), fields[1..])
  }

  /** A fold takes its first field first. */
  lemma FoldFirst<A>(step: (A, Field) -> A, acc: A, f: Field, rest: seq<Field>)
    ensures FoldFields(step, acc, [f] + rest) == FoldFields(step, step(acc, f), rest)
  {
    assert ([f] + rest)[0] == f && ([f] + rest)[1..] == rest;
  }

  /** A fold over one field is one step. */
  lemma FoldOne<A>(step: (A, Field) -> A, acc: A, f: Field)
    ensures FoldFields(step, acc, [f]) == step(acc, f)
  {
    assert [f][1..] == [];
  }

  lemma AppendAssoc<T>(xs: seq<T>, ys: seq<T>, zs: seq<T>)
    ensures xs + ys + zs == xs + (ys + zs)
  {
  }

  /** xs + [ys[0]] + ys[1..] == xs + ys. */
  lemma AppendFirst<T>(xs: seq<T>, ys: seq<T>)
    requires ys != []
    ensures xs + [ys[0]] + ys[1..] == xs + ys
  {
    assert ys == [ys[0]] + ys[1..];
  }

  /** A fold over a concatenation is the fold of the second part from the
      result of the first. */
  lemma {:induction false} FoldFieldsAppend<A>(step: (A, Field) -> A, acc: A, xs: seq<Field>, ys: seq<Field>)
    ensures FoldFields(step, acc, xs + ys) == FoldFields(step, FoldFields(step, acc, xs), ys)
    decreases |xs|
  {
    if xs != [] {
      assert xs + ys != [] && (xs + ys)[0] == xs[0];
      assert (xs + ys)[1..] == xs[1..] + ys;
      FoldFieldsAppend(step, step(acc, xs[0]), xs[1..], ys);
    } else {
      assert xs + ys == ys;
    }
  }

  /** A message loop's invariant moves over one field: the fold of the fields
      still ahead, from the record built so far. */
  lemma FoldStep<A>(step: (A, Field) -> A, acc: A, data: Bytes, pos: nat, d: Dialect, f: Field, next: nat)
    requires Walk(data, pos, d) == [f] + Walk(data, next, d)
    ensures FoldFields(step, acc, Walk(data, pos, d)) == FoldFields(step, step(acc, f), Walk(data, next, d))
  {
    var w := Walk(data, pos, d);
    assert w != [] && w[0] == f && w[1..] == Walk(data, next, d);
  }

  /** The field starting at `here`, for a wire type the walker consumes (0, 1, 2 or 5). */
  function FieldAt(data: Bytes, here: nat): Field {
    var (tag, p) := Varint(data, here);
    var wireType := tag % 8;
    Field(tag / 8,
      if wireType == 0 then VarintValue(Varint(data, p).0)
      else if wireType == 2 then LengthDelimited(Delimited(data, p).0)
      else Fixed(if wireType == 1 then 8 else 4))
  }

  /** A message loop has consumed the field at `here` by its wire type and
      stands at `next`: the walk and the fold both move past that one field. */
  lemma WalkStep<A>(step: (A, Field) -> A, acc: A, data: Bytes, here: nat, tag: nat, p: nat, next: nat, d: Dialect)
    requires here < |data| && Varint(data, here) == (tag, p)
    requires || (tag % 8 == 0 && next == Varint(data, p).1)
             || (tag % 8 == 2 && next == Delimited(data, p).1)
             || (tag % 8 == 1 && next == p + 8 && d != NestedNoFixed)
             || (tag % 8 == 5 && next == p + 4 && d != NestedNoFixed)
    ensures Walk(data, here, d) == [FieldAt(data, here)] + Walk(data, next, d)
    ensures FoldFields(step, acc, Walk(data, here, d))
         == FoldFields(step, step(acc, FieldAt(data, here)), Walk(data, next, d))
  {
    assert StepAt(data, here, d) == Emit(FieldAt(data, here), next);
    WalkEmits(data, here, d, FieldAt(data, here), next);
    FoldStep(step, acc, data, here, d, FieldAt(data, here), next);
  }

  /** A pass that consumes a field puts that field at the head of the walk. */
  lemma WalkEmits(data: Bytes, pos: nat, d: Dialect, f: Field, q: nat)
    requires pos < |data| && StepAt(data, pos, d) == Emit(f, q)
    ensures Walk(data, pos, d) == [f] + Walk(data, q, d)
  {
  }

  /** A wire type the dialect does not know ends a nested message... */
  lemma WalkStops(data: Bytes, pos: nat, tag: nat, d: Dialect)
    requires pos < |data| && d != FeedLevel && Varint(data, pos).0 == tag
    requires tag % 8 != 0 && tag % 8 != 2 && (d == NestedNoFixed || (tag % 8 != 1 && tag % 8 != 5))
    ensures Walk(data, pos, d) == []
  {
    assert StepAt(data, pos, d) == Stop;
  }

  /** ...and is stepped over one byte at a time in a FeedMessage. */
  lemma WalkSkipsByte(data: Bytes, pos: nat, tag: nat, p: nat)
    requires pos < |data| && Varint(data, pos) == (tag, p)
    requires tag % 8 != 0 && tag % 8 != 1 && tag % 8 != 2 && tag % 8 != 5
    ensures Walk(data, pos, FeedLevel) == Walk(data, p + 1, FeedLevel)
  {
    assert StepAt(data, pos, FeedLevel) == Skip(p + 1);
  }

  // ---------------------------------------------------------------------
  // Encoding, the partner of the walker

  function EncodeVarint(n: nat): (r: Bytes)
    ensures |r| >= 1
    decreases n
  {
    if n < 128 then [n as byte] else [(n % 128 + 128) as byte] + EncodeVarint(n / 128)
  }

  /** `piece` sits in `data` from position pos on, byte for byte. */
  predicate Occurs(data: Bytes, pos: nat, piece: Bytes)
    decreases |piece|
  {
    pos + |piece| <= |data| && (piece == [] || (data[pos] == piece[0] && Occurs(data, pos + 1, piece[1..])))
  }

  /** The two halves of a piece made of two parts. */
  lemma {:induction false} OccursHalves(data: Bytes, pos: nat, a: Bytes, b: Bytes)
    requires Occurs(data, pos, a + b)
    ensures Occurs(data, pos, a) && Occurs(data, pos + |a|, b)
    decreases |a|
  {
    if a == [] {
      assert a + b == b;
    } else {
      assert (a + b)[0] == a[0];
      assert (a + b)[1..] == a[1..] + b;
      OccursHalves(data, pos + 1, a[1..], b);
    }
  }

  /** The same as a slice of data. */
  lemma {:induction false} OccursSlice(data: Bytes, pos: nat, piece: Bytes)
    requires Occurs(data, pos, piece)
    ensures data[pos..pos + |piece|] == piece
    decreases |piece|
  {
    if piece != [] {
      OccursSlice(data, pos + 1, piece[1..]);
      assert data[pos..pos + |piece|] == [data[pos]] + data[pos + 1..pos + |piece|];
    }
  }

  /** The rest of a buffer sits in it. */
  lemma {:induction false} OccursRest(data: Bytes, pos: nat)
    requires pos <= |data|
    ensures Occurs(data, pos, data[pos..])
    decreases |data| - pos
  {
    if pos < |data| {
      assert data[pos..][1..] == data[pos + 1..];
      OccursRest(data, pos + 1);
    }
  }

  /** A varint reads back the number it encodes, wherever it sits in a buffer. */
  lemma {:induction false} VarintOfEncoding(data: Bytes, pos: nat, n: nat)
    requires Occurs(data, pos, EncodeVarint(n))
    ensures Varint(data, pos) == (n, pos + |EncodeVarint(n)|)
    decreases n
  {
    var e := EncodeVarint(n);
    assert data[pos] == e[0];
    if n >= 128 {
      var b := (n % 128 + 128) as byte;
      assert e == [b] + EncodeVarint(n / 128);
      OccursHalves(data, pos, [b], EncodeVarint(n / 128));
      VarintOfEncoding(data, pos + 1, n / 128);
    }
  }

  function Zeros(n: nat): (r: Bytes)
    ensures |r| == n
  {
    seq(n, i => 0)
  }

  /** A field the walker of dialect d reads back as it is. */
  predicate Encodable(f: Field, d: Dialect) {
    f.payload.Fixed? ==> (f.payload.width == 8 || f.payload.width == 4) && d != NestedNoFixed
  }

  /** The wire type a payload is written with. */
  function WireTypeOf(p: Payload): nat {
    match p
    case VarintValue(_) => 0
    case LengthDelimited(_) => 2
    case Fixed(w) => if w == 8 then 1 else 5
  }

  /** What follows the tag: the varint, the length and the bytes, or w zero bytes. */
  function EncodePayload(p: Payload): Bytes {
    match p
    case VarintValue(v) => EncodeVarint(v)
    case LengthDelimited(b) => EncodeVarint(|b|) + b
    case Fixed(w) => Zeros(w)
  }

  function EncodeField(f: Field): Bytes {
    EncodeVarint(f.number * 8 + WireTypeOf(f.payload)) + EncodePayload(f.payload)
  }

  function EncodeFields(fields: seq<Field>): Bytes
    decreases |fields|
  {
    if fields == [] then [] else EncodeField(fields[0]) + EncodeFields(fields[1..])
  }

  /** One pass of the message loop over an encoded field consumes exactly that field. */
  lemma StepOfEncodedField(data: Bytes, pos: nat, f: Field, d: Dialect)
    requires Encodable(f, d) && Occurs(data, pos, EncodeField(f))
    ensures pos < |data| && StepAt(data, pos, d) == Emit(f, pos + |EncodeField(f)|)
  {
    match f.payload {
      case VarintValue(v) => StepOfVarintField(data, pos, f.number, v, d);
      case LengthDelimited(b) => StepOfDelimitedField(data, pos, f.number, b, d);
      case Fixed(w) => StepOfFixedField(data, pos, f.number, w, d);
    }
  }

  lemma StepOfVarintField(data: Bytes, pos: nat, number: nat, v: nat, d: Dialect)
    requires Occurs(data, pos, EncodeField(Field(number, VarintValue(v))))
    ensures pos < |data| && StepAt(data, pos, d) == Emit(Field(number, VarintValue(v)), pos + |EncodeField(Field(number, VarintValue(v)))|)
  {
    var p := ReadEncodedVarint(data, pos, number, v);
    TagParts(number, 0);
  }

  lemma StepOfDelimitedField(data: Bytes, pos: nat, number: nat, b: Bytes, d: Dialect)
    requires Occurs(data, pos, EncodeField(Field(number, LengthDelimited(b))))
    ensures pos < |data| && StepAt(data, pos, d) == Emit(Field(number, LengthDelimited(b)), pos + |EncodeField(Field(number, LengthDelimited(b)))|)
  {
    var p := ReadEncodedDelimited(data, pos, number, b);
    TagParts(number, 2);
  }

  lemma StepOfFixedField(data: Bytes, pos: nat, number: nat, w: nat, d: Dialect)
    requires (w == 8 || w == 4) && d != NestedNoFixed
    requires Occurs(data, pos, EncodeField(Field(number, Fixed(w))))
    ensures pos < |data| && StepAt(data, pos, d) == Emit(Field(number, Fixed(w)), pos + |EncodeField(Field(number, Fixed(w)))|)
  {
    var p := ReadEncodedFixed(data, pos, number, w);
    TagParts(number, if w == 8 then 1 else 5);
  }

  /** The tag of field `number` with a wire type splits back into the two. */
  lemma TagParts(number: nat, wireType: nat)
    requires wireType < 8
    ensures (number * 8 + wireType) / 8 == number && (number * 8 + wireType) % 8 == wireType
  {
  }

  /** The tag and the value of an encoded varint field read back; p is where the value starts. */
  lemma ReadEncodedVarint(data: Bytes, pos: nat, number: nat, v: nat) returns (p: nat)
    requires Occurs(data, pos, EncodeField(Field(number, VarintValue(v))))
    ensures pos < |data| && Varint(data, pos) == (number * 8, p)
    ensures Varint(data, p) == (v, pos + |EncodeField(Field(number, VarintValue(v)))|)
  {
    var t, e := EncodeVarint(number * 8), EncodeVarint(v);
    assert EncodeField(Field(number, VarintValue(v))) == t + e;
    OccursHalves(data, pos, t, e);
    VarintOfEncoding(data, pos, number * 8);
    VarintOfEncoding(data, pos + |t|, v);
    p := pos + |t|;
  }

  /** The tag and the payload of an encoded length-delimited field read back. */
  lemma ReadEncodedDelimited(data: Bytes, pos: nat, number: nat, b: Bytes) returns (p: nat)
    requires Occurs(data, pos, EncodeField(Field(number, LengthDelimited(b))))
    ensures pos < |data| && Varint(data, pos) == (number * 8 + 2, p)
    ensures Delimited(data, p) == (b, pos + |EncodeField(Field(number, LengthDelimited(b)))|)
  {
    var t, l := EncodeVarint(number * 8 + 2), EncodeVarint(|b|);
    var e := EncodeField(Field(number, LengthDelimited(b)));
    assert e == t + (l + b);
    assert |e| == |t| + |l| + |b|;
    OccursHalves(data, pos, t, l + b);
    VarintOfEncoding(data, pos, number * 8 + 2);
    p := pos + |t|;
    DelimitedOfEncoding(data, p, b);
    assert Delimited(data, p) == (b, pos + |e|);
  }

  /** A length followed by that many bytes reads back as those bytes. */
  lemma DelimitedOfEncoding(data: Bytes, p: nat, b: Bytes)
    requires Occurs(data, p, EncodeVarint(|b|) + b)
    ensures Delimited(data, p) == (b, p + |EncodeVarint(|b|)| + |b|)
  {
    var l := EncodeVarint(|b|);
    OccursHalves(data, p, l, b);
    OccursSlice(data, p + |l|, b);
    VarintOfEncoding(data, p, |b|);
  }

  /** The tag of an encoded fixed-width field reads back, its w bytes follow. */
  lemma ReadEncodedFixed(data: Bytes, pos: nat, number: nat, w: nat) returns (p: nat)
    requires w == 8 || w == 4
    requires Occurs(data, pos, EncodeField(Field(number, Fixed(w))))
    ensures pos < |data| && Varint(data, pos) == (number * 8 + (if w == 8 then 1 else 5), p)
    ensures p + w == pos + |EncodeField(Field(number, Fixed(w)))|
  {
    var t := EncodeVarint(number * 8 + (if w == 8 then 1 else 5));
    assert EncodeField(Field(number, Fixed(w))) == t + Zeros(w);
    OccursHalves(data, pos, t, Zeros(w));
    VarintOfEncoding(data, pos, number * 8 + (if w == 8 then 1 else 5));
    p := pos + |t|;
  }

  /** A list that is f followed by the tail of fields, with f its head, is fields. */
  lemma Prepend(whole: seq<Field>, f: Field, rest: seq<Field>, fields: seq<Field>)
    requires whole == [f] + rest && fields != [] && fields[0] == f && rest == fields[1..]
    ensures whole == fields
  {
  }

  /** The fields' encodings lie one after another in data from pos on, up to its end. */
  predicate FieldsAt(data: Bytes, pos: nat, fields: seq<Field>)
    decreases |fields|
  {
    if fields == [] then pos == |data|
    else Occurs(data, pos, EncodeField(fields[0])) && FieldsAt(data, pos + |EncodeField(fields[0])|, fields[1..])
  }

  /** Round trip: the walker reads an encoded field list back field for field. */
  lemma {:induction false} WalkOfEncoding(data: Bytes, pos: nat, fields: seq<Field>, d: Dialect)
    requires forall i :: 0 <= i < |fields| ==> Encodable(fields[i], d)
    requires FieldsAt(data, pos, fields)
    ensures Walk(data, pos, d) == fields
    decreases |fields|
  {
    if fields != [] {
      var q := pos + |EncodeField(fields[0])|;
      StepOfEncodedField(data, pos, fields[0], d);
      WalkEmits(data, pos, d, fields[0], q);
      forall i | 0 <= i < |fields[1..]| ensures Encodable(fields[1..][i], d) {
        assert fields[1..][i] == fields[i + 1];
      }
      WalkOfEncoding(data, q, fields[1..], d);
      Prepend(Walk(data, pos, d), fields[0], Walk(data, q, d), fields);
    }
  }

  /** An encoded field list lays its fields out one after another. */
  lemma {:induction false} FieldsAtOfEncoding(data: Bytes, pos: nat, fields: seq<Field>)
    requires Occurs(data, pos, EncodeFields(fields)) && pos + |EncodeFields(fields)| == |data|
    ensures FieldsAt(data, pos, fields)
    decreases |fields|
  {
    if fields != [] {
      OccursFields(data, pos, fields);
      FieldsAtOfEncoding(data, pos + |EncodeField(fields[0])|, fields[1..]);
    }
  }

  /** An encoded field list is its first field's encoding followed by the others'. */
  lemma OccursFields(data: Bytes, pos: nat, fields: seq<Field>)
    requires fields != [] && Occurs(data, pos, EncodeFields(fields))
    ensures Occurs(data, pos, EncodeField(fields[0]))
    ensures Occurs(data, pos + |EncodeField(fields[0])|, EncodeFields(fields[1..]))
    ensures |EncodeFields(fields)| == |EncodeField(fields[0])| + |EncodeFields(fields[1..])|
  {
    EncodeFieldsCons(fields);
    OccursSplit(data, pos, EncodeFields(fields), EncodeField(fields[0]), EncodeFields(fields[1..]));
  }

  lemma EncodeFieldsCons(fields: seq<Field>)
    requires fields != []
    ensures EncodeFields(fields) == EncodeField(fields[0]) + EncodeFields(fields[1..])
  {
  }

  /** OccursHalves for a piece already known to be made of the two parts. */
  lemma OccursSplit(data: Bytes, pos: nat, whole: Bytes, a: Bytes, b: Bytes)
    requires Occurs(data, pos, whole) && whole == a + b
    ensures Occurs(data, pos, a) && Occurs(data, pos + |a|, b) && |whole| == |a| + |b|
  {
    OccursHalves(data, pos, a, b);
  }

  /** The whole-buffer form of the round trip. */
  lemma WalkEncoded(fields: seq<Field>, d: Dialect)
    requires forall i :: 0 <= i < |fields| ==> Encodable(fields[i], d)
    ensures Walk(EncodeFields(fields), 0, d) == fields
  {
    OccursRest(EncodeFields(fields), 0);
    assert EncodeFields(fields)[0..] == EncodeFields(fields);
    FieldsAtOfEncoding(EncodeFields(fields), 0, fields);
    WalkOfEncoding(EncodeFields(fields), 0, fields, d);
  }
}
