/**
 * What the encoder writes and what the decoder makes of it, as functions on byte strings.
 * The methods of Encoder and Decoder are proved against these; that they undo each other is RoundTrip.
 */
module Wire {
  import opened Bytes
  import opened Descriptor
  import V = Varint

  const WT_VARINT: nat := 0
  const WT_64BIT: nat := 1
  const WT_STRING: nat := 2
  const WT_32BIT: nat := 5

  const PB_SIZE_MAX: nat := 0xFFFF
  const PB_MAX_REQUIRED_FIELDS: nat := 64

  /** The wire type of one item, on its own. */
  function WireType(t: LType): nat {
    match t
    case Fixed32 => WT_32BIT
    case Fixed64 => WT_64BIT
    case ByteArray => WT_STRING
    case String => WT_STRING
    case FixedBytes => WT_STRING
    case Submessage(_) => WT_STRING
    case _ => WT_VARINT
  }

  function TagBytes(tag: nat, wireType: nat): bytes {
    V.VarintBytes(8 * tag + wireType)
  }

  /** A length, cast to 64 bits, and the bytes. */
  function Delimited(b: bytes): bytes {
    V.VarintBytes(|b| % TWO_64) + b
  }

  /** The n low bytes of v, least significant first. */
  function LittleEndian(v: nat, n: nat): (b: bytes)
    ensures |b| == n
  {
    if n == 0 then [] else [v % 256] + LittleEndian(v / 256, n - 1)
  }

  function FromLittleEndian(b: bytes): nat {
    if b == [] then 0 else b[0] + 256 * FromLittleEndian(b[1..])
  }

  // ---- encoding ----------------------------------------------------------------

  /** The number that pb_enc_bool and pb_enc_varint hand to the varint writer. */
  function VarintArgument(t: LType, v: int): (u: nat)
    requires t.Bool? || t.Varint? || t.UVarint? || t.SVarint?
    requires exists dataSize :: ItemOk(t, dataSize, VInt(v))
    ensures u < TWO_64
  {
    match t
    case Bool => v
    case Varint => V.ToUnsigned64(v)
    case UVarint => v
    case SVarint => V.ZigZag(v)
  }

  /** One item without its tag; None where the encoder reports an error. */
  ghost function EncodeItem(t: LType, dataSize: nat, v: Value): Option<bytes>
    requires ItemOk(t, dataSize, v)
    decreases t, 2
  {
    match t
    case Fixed32 => Some(LittleEndian(v.i, 4))
    case Fixed64 => Some(LittleEndian(v.i, 8))
    case ByteArray => if |v.b| + 2 > dataSize then None else Some(Delimited(v.b))
    case String => if |Text(v.b)| + 1 > dataSize then None else Some(Delimited(Text(v.b)))
    case FixedBytes => Some(Delimited(v.b))
    case Submessage(d) =>
      (match EncodeStruct(d, v.slots)
       case None => None
       case Some(b) => Some(Delimited(b)))
    case _ => Some(V.VarintBytes(VarintArgument(t, v.i)))
  }

  /** Items one after the other, without tags. */
  ghost function EncodeBare(f: FieldDesc, items: seq<Value>): Option<bytes>
    requires forall k :: 0 <= k < |items| ==> ItemOk(f.ltype, f.dataSize, items[k])
    decreases f, 3, |items|
  {
    if items == [] then Some([])
    else Join(EncodeItem(f.ltype, f.dataSize, items[0]), EncodeBare(f, items[1..]))
  }

  /** Items one after the other, each behind its tag. */
  ghost function EncodeTagged(f: FieldDesc, items: seq<Value>): Option<bytes>
    requires forall k :: 0 <= k < |items| ==> ItemOk(f.ltype, f.dataSize, items[k])
    decreases f, 3, |items|
  {
    if items == [] then Some([])
    else Join(Join(Some(TagBytes(f.tag, WireType(f.ltype))), EncodeItem(f.ltype, f.dataSize, items[0])),
              EncodeTagged(f, items[1..]))
  }

  /** A repeated field is packed where its type allows it; other fields are written if they are set. */
  ghost function EncodeField(f: FieldDesc, slot: seq<Value>): Option<bytes>
    requires SlotOk(f, slot)
    decreases f, 4
  {
    if f.htype.Repeated? && |slot| > f.arraySize then None
    else if f.htype.Repeated? && f.ltype.Packable() && slot != [] then
      (match EncodeBare(f, slot)
       case None => None
       case Some(b) => Some(TagBytes(f.tag, WT_STRING) + Delimited(b)))
    else EncodeTagged(f, slot)
  }

  /** The fields from number i on. */
  ghost function EncodeFrom(d: MsgDesc, m: Slots, i: nat): Option<bytes>
    requires StructOk(d, m) && i <= |m|
    decreases d, 5, |m| - i
  {
    if i == |m| then Some([])
    else
      assert SlotOk(d.fields[i], m[i]);
      Join(EncodeField(d.fields[i], m[i]), EncodeFrom(d, m, i + 1))
  }

  ghost function EncodeStruct(d: MsgDesc, m: Slots): Option<bytes>
    requires StructOk(d, m)
    decreases d, 6
  {
    EncodeFrom(d, m, 0)
  }

  /** A field with a single value is written as its tag and the value. */
  lemma SingleItem(f: FieldDesc, v: Value)
    requires SlotOk(f, [v]) && !f.htype.Repeated?
    ensures ItemOk(f.ltype, f.dataSize, v)
    ensures EncodeField(f, [v]) == Join(Some(TagBytes(f.tag, WireType(f.ltype))), EncodeItem(f.ltype, f.dataSize, v))
  {
    assert ItemOk(f.ltype, f.dataSize, [v][0]);
    hide ItemOk, EncodeItem, TagBytes;
    assert [v][1..] == [];
    assert EncodeTagged(f, [v][1..]) == Some([]);
    assert forall b: bytes :: b + [] == b;
  }

  // ---- decoding ----------------------------------------------------------------

  /** pb_read of n bytes. */
  function Take(s: bytes, n: nat): (r: Read<bytes>)
    ensures r.Ok? ==> s == r.value + r.rest && |r.value| == n
  {
    if n <= |s| then Ok(s[..n], s[n..]) else Fail
  }

  /** A varint length and as many bytes after it. */
  function TakeDelimited(s: bytes): (r: Read<bytes>)
    ensures r.Ok? ==> IsTail(r.rest, s) && |r.value| < |s|
  {
    match V.ReadVarint32(s)
    case Fail => Fail
    case Ok(n, rest) => Take(rest, n)
  }

  function Signed(u: nat, dataSize: nat): int
    requires u < TWO_64
  {
    if dataSize == 8 then V.ToSigned64(u) else V.ToSigned32(u)
  }

  /** The number a decoded varint stands for, if the field can hold it. */
  function FromVarint(t: LType, dataSize: nat, u: nat): Option<int>
    requires u < TWO_64
  {
    if t.UVarint? then
      if InUnsigned(u, dataSize) then Some(u) else None
    else
      var v := if t.SVarint? then V.UnZigZag(u) else Signed(u, dataSize);
      if InSigned(v, dataSize) then Some(v) else None
  }

  /** A little-endian number of n bytes. */
  function DecodeFixed(n: nat, s: bytes): (r: Read<Value>)
    requires n >= 1
    ensures r.Ok? ==> IsTail(r.rest, s)
  {
    match Take(s, n)
    case Fail => Fail
    case Ok(b, rest) => Ok(VInt(FromLittleEndian(b)), rest)
  }

  /** One number. */
  function DecodeNumber(t: LType, dataSize: nat, s: bytes): (r: Read<Value>)
    requires t.Packable()
    ensures r.Ok? ==> IsTail(r.rest, s)
  {
    if t.Fixed32? then DecodeFixed(4, s)
    else if t.Fixed64? then DecodeFixed(8, s)
    else if t.Bool? then
      match V.ReadVarint32(s)
      case Fail => Fail
      case Ok(u, rest) => Ok(VInt(if u != 0 then 1 else 0), rest)
    else
      match V.ReadVarint64(s)
      case Fail => Fail
      case Ok(u, rest) =>
        match FromVarint(t, dataSize, u)
        case None => Fail
        case Some(v) => Ok(VInt(v), rest)
  }

  /** One item; a submessage is read into what is already there. */
  ghost function DecodeItem(t: LType, dataSize: nat, s: bytes, prev: Value): (r: Read<Value>)
    ensures r.Ok? ==> IsTail(r.rest, s)
    decreases t, |s|, 2
  {
    match t
    case ByteArray =>
      (match V.ReadVarint32(s)
       case Fail => Fail
       case Ok(n, rest) =>
         if n > PB_SIZE_MAX || n + 2 > dataSize || n > |rest| then Fail
         else Ok(VBytes(rest[..n]), rest[n..]))
    case String =>
      (match V.ReadVarint32(s)
       case Fail => Fail
       case Ok(n, rest) =>
         if n == TWO_32 - 1 || n + 1 > dataSize || n > |rest| then Fail
         else Ok(VBytes(rest[..n]), rest[n..]))
    case FixedBytes =>
      (match V.ReadVarint32(s)
       case Fail => Fail
       case Ok(n, rest) =>
         if n > PB_SIZE_MAX then Fail
         else if n == 0 then Ok(VBytes(Zeros(dataSize)), rest)
         else if n != dataSize || n > |rest| then Fail
         else Ok(VBytes(rest[..n]), rest[n..]))
    case Submessage(d) =>
      (match TakeDelimited(s)
       case Fail => Fail
       case Ok(b, rest) =>
         if !prev.VMsg? || |prev.slots| != |d.fields| then Fail
         else match DecodeStruct(d, b, prev.slots)
           case None => Fail
           case Some(m) => Ok(VMsg(m), rest))
    case _ => DecodeNumber(t, dataSize, s)
  }

  /** The contents of a packed field, appended to the items already there. */
  ghost function DecodePacked(f: FieldDesc, s: bytes, slot: seq<Value>): Option<seq<Value>>
    requires f.ltype.Packable()
    decreases |s|
  {
    if s == [] then Some(slot)
    else if |slot| >= f.arraySize then None
    else match DecodeNumber(f.ltype, f.dataSize, s)
      case Fail => None
      case Ok(v, rest) => DecodePacked(f, rest, slot + [v])
  }

  /** What an item is read into: a value that is set already, or one set to defaults. */
  function Existing(f: FieldDesc, slot: seq<Value>): Value {
    if f.htype.Repeated? || slot == [] then DefaultItem(f.ltype, f.dataSize) else slot[0]
  }

  /** decode_static_field: the new contents of the slot. */
  ghost function DecodeField(f: FieldDesc, wireType: nat, s: bytes, slot: seq<Value>): (r: Read<seq<Value>>)
    ensures r.Ok? ==> IsTail(r.rest, s)
    decreases f, |s|, 3
  {
    if f.htype.Repeated? && wireType == WT_STRING && f.ltype.Packable() then
      match TakeDelimited(s)
      case Fail => Fail
      case Ok(b, rest) =>
        match DecodePacked(f, b, slot)
        case None => Fail
        case Some(slot') => Ok(slot', rest)
    else if wireType != WireType(f.ltype) then Fail
    else if f.htype.Repeated? && |slot| >= f.arraySize then Fail
    else
      match DecodeItem(f.ltype, f.dataSize, s, Existing(f, slot))
      case Fail => Fail
      case Ok(v, rest) => Ok(if f.htype.Repeated? then slot + [v] else [v], rest)
  }

  /** Put a slot back; the other members of its union are lost. */
  function Store(d: MsgDesc, m: Slots, i: nat, slot: seq<Value>): (r: Slots)
    requires i < |m| == |d.fields|
    ensures |r| == |m|
    ensures forall j :: 0 <= j < |m| ==> r[j] == if j == i then slot else if SameUnion(d.fields[i], d.fields[j]) then [] else m[j]
  {
    seq(|m|, j requires 0 <= j < |m| =>
      if j == i then slot else if SameUnion(d.fields[i], d.fields[j]) then [] else m[j])
  }

  /** pb_skip_field: how the bytes of an unknown field are passed over. */
  function Skip(wireType: nat, s: bytes): (r: Read<()>)
    ensures r.Ok? ==> IsTail(r.rest, s)
  {
    if wireType == WT_VARINT then
      match V.GroupEnd(s)
      case None => Fail
      case Some(k) => Ok((), s[k..])
    else if wireType == WT_64BIT then if |s| >= 8 then Ok((), s[8..]) else Fail
    else if wireType == WT_STRING then
      match TakeDelimited(s)
      case Fail => Fail
      case Ok(_, rest) => Ok((), rest)
    else if wireType == WT_32BIT then if |s| >= 4 then Ok((), s[4..]) else Fail
    else Fail
  }

  /** The struct so far and the indices of the required fields met. */
  datatype Progress = Progress(m: Slots, seen: set<nat>)

  /** Field i has been read into its slot. */
  ghost function Advance(d: MsgDesc, p: Progress, i: nat, slot: seq<Value>): (q: Progress)
    requires i < |d.fields| == |p.m|
    ensures |q.m| == |d.fields|
  {
    Progress(Store(d, p.m, i, slot), if d.fields[i].htype.Required? then p.seen + {i} else p.seen)
  }

  /** One tag and the field behind it. */
  ghost function DecodeOne(d: MsgDesc, s: bytes, p: Progress): (r: Read<Progress>)
    requires |p.m| == |d.fields|
    ensures r.Ok? ==> IsTail(r.rest, s) && |r.value.m| == |d.fields|
    decreases d, |s|, 4
  {
    match V.ReadVarint32(s)
    case Fail => Fail
    case Ok(key, rest) =>
      var tag, wireType := key / 8, key % 8;
      if tag == 0 then Fail
      else match FieldWithTag(d, tag)
        case None =>
          (match Skip(wireType, rest)
           case Fail => Fail
           case Ok(_, rest') => TailTransitive(rest', rest, s); Ok(p, rest'))
        case Some(i) =>
          (match DecodeField(d.fields[i], wireType, rest, p.m[i])
           case Fail => Fail
           case Ok(slot, rest') =>
             TailTransitive(rest', rest, s);
             Ok(Advance(d, p, i, slot), rest'))
  }

  /** All fields up to the end of the input. */
  ghost function DecodeAll(d: MsgDesc, s: bytes, p: Progress): (r: Option<Progress>)
    requires |p.m| == |d.fields|
    ensures r.Some? ==> |r.value.m| == |d.fields|
    decreases d, |s|, 5
  {
    if s == [] then Some(p)
    else match DecodeOne(d, s, p)
      case Fail => None
      case Ok(p', rest) => DecodeAll(d, rest, p')
  }

  /** How many required fields come before field i. */
  function RequiredBefore(d: MsgDesc, i: nat): (n: nat)
    requires i <= |d.fields|
    ensures n <= i
  {
    if i == 0 then 0 else RequiredBefore(d, i - 1) + if d.fields[i - 1].htype.Required? then 1 else 0
  }

  /** Of the required fields, the first 64 are tracked; all of those have been met. */
  ghost predicate RequiredMet(d: MsgDesc, seen: set<nat>) {
    forall i :: 0 <= i < |d.fields| && d.fields[i].htype.Required? && RequiredBefore(d, i) < PB_MAX_REQUIRED_FIELDS
      ==> i in seen
  }

  /** pb_decode_inner on a whole input, into the struct m. */
  ghost function DecodeStruct(d: MsgDesc, s: bytes, m: Slots): (r: Option<Slots>)
    requires |m| == |d.fields|
    ensures r.Some? ==> |r.value| == |d.fields|
    decreases d, |s|, 6
  {
    match DecodeAll(d, s, Progress(m, {}))
    case None => None
    case Some(p) => if RequiredMet(d, p.seen) then Some(p.m) else None
  }

  // ---- delimited messages --------------------------------------------------------

  /** pb_encode_ex with PB_ENCODE_DELIMITED. */
  ghost function EncodeDelimited(d: MsgDesc, m: Slots): Option<bytes>
    requires StructOk(d, m)
  {
    match EncodeStruct(d, m)
    case None => None
    case Some(b) => Some(Delimited(b))
  }

  /** pb_decode_ex with PB_DECODE_DELIMITED, into the struct m. */
  ghost function DecodeDelimited(d: MsgDesc, s: bytes, m: Slots): (r: Read<Slots>)
    requires |m| == |d.fields|
    ensures r.Ok? ==> |r.value| == |d.fields|
  {
    match TakeDelimited(s)
    case Fail => Fail
    case Ok(b, rest) =>
      match DecodeStruct(d, b, m)
      case None => Fail
      case Some(m') => Ok(m', rest)
  }
}
