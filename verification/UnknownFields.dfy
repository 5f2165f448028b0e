/** Fields that a descriptor does not know, at any depth, do not change what is decoded. */
module UnknownFields {
  import opened Bytes
  import opened Descriptor
  import opened Wire
  import V = Varint
  import RoundTrip

  /**
   * The syntax tree of a message: fields in order, each a tag with a raw payload or,
   * where the payload is itself a message whose fields matter, with the tree of that message.
   */
  datatype Node =
    | Raw(tag: nat, wireType: nat, payload: bytes)
    | Nested(tag: nat, inner: seq<Node>)

  /** The bytes of a tree; the length prefixes are those of the inner bytes. */
  function Print(doc: seq<Node>): bytes
    decreases doc
  {
    if doc == [] then [] else PrintNode(doc[0]) + Print(doc[1..])
  }

  function PrintNode(n: Node): bytes
    decreases n
  {
    match n
    case Raw(tag, wireType, payload) => TagBytes(tag, wireType) + payload
    case Nested(tag, inner) => TagBytes(tag, WT_STRING) + Delimited(Print(inner))
  }

  /** A payload of the given wire type, neither cut short nor followed by anything. */
  predicate Complete(wireType: nat, payload: bytes) {
    match wireType
    case 0 => V.IsGroup(payload)
    case 1 => |payload| == 8
    case 2 => TakeDelimited(payload).Ok? && TakeDelimited(payload).rest == []
    case 5 => |payload| == 4
    case _ => false
  }

  /** Tags fit a key of 32 bits, payloads are complete, and trees appear where submessages (or nothing) are expected. */
  ghost predicate WfDoc(d: MsgDesc, doc: seq<Node>)
    decreases doc
  {
    doc == [] || (WfNode(d, doc[0]) && WfDoc(d, doc[1..]))
  }

  ghost predicate WfNode(d: MsgDesc, n: Node)
    decreases n
  {
    && 1 <= n.tag < 0x2000_0000
    && match n
       case Raw(_, wireType, payload) => Complete(wireType, payload)
       case Nested(tag, inner) =>
         match FieldWithTag(d, tag)
         case None => true
         case Some(i) => d.fields[i].ltype.Submessage? && WfDoc(d.fields[i].ltype.desc, inner)
  }

  /** The tree without the fields that its descriptors do not know. */
  ghost function Strip(d: MsgDesc, doc: seq<Node>): seq<Node>
    decreases doc
  {
    if doc == [] then [] else StripNode(d, doc[0]) + Strip(d, doc[1..])
  }

  ghost function StripNode(d: MsgDesc, n: Node): seq<Node>
    decreases n
  {
    match FieldWithTag(d, n.tag)
    case None => []
    case Some(i) =>
      if n.Nested? && d.fields[i].ltype.Submessage?
      then [Nested(n.tag, Strip(d.fields[i].ltype.desc, n.inner))]
      else [n]
  }

  // ---- a complete payload is read without looking behind it ---------------------

  lemma DelimitedIsLocal(payload: bytes, t: bytes)
    requires Complete(WT_STRING, payload)
    ensures TakeDelimited(payload + t) == Ok(TakeDelimited(payload).value, t)
    ensures V.ReadVarint32(payload) == Ok(|TakeDelimited(payload).value|, TakeDelimited(payload).value)
    ensures V.ReadVarint32(payload + t) == Ok(|TakeDelimited(payload).value|, TakeDelimited(payload).value + t)
  {
    var b := TakeDelimited(payload).value;
    var g, rest := V.ReadGroup(payload);
    V.ReadsAreLocal(g, rest);
    assert payload + t == g + (rest + t);
    V.ReadsAreLocal(g, rest + t);
    assert b == rest;
    assert (rest + t)[..|rest|] == rest && (rest + t)[|rest|..] == t;
  }

  lemma NumberIsLocal(t: LType, dataSize: nat, payload: bytes, tail: bytes)
    requires t.Packable() && Complete(WireType(t), payload)
    ensures DecodeNumber(t, dataSize, payload + tail)
         == match DecodeNumber(t, dataSize, payload) case Fail => Fail case Ok(v, _) => Ok(v, tail)
  {
    if t.Fixed32? || t.Fixed64? {
      var n := |payload|;
      assert (payload + tail)[..n] == payload && (payload + tail)[n..] == tail;
      assert payload[..n] == payload && payload[n..] == [];
    } else {
      assert payload + [] == payload;
      V.ReadsAreLocal(payload, []);
      V.ReadsAreLocal(payload, tail);
    }
  }

  lemma ItemIsLocal(t: LType, dataSize: nat, payload: bytes, tail: bytes, prev: Value)
    requires Complete(WireType(t), payload)
    ensures DecodeItem(t, dataSize, payload + tail, prev)
         == match DecodeItem(t, dataSize, payload, prev) case Fail => Fail case Ok(v, _) => Ok(v, tail)
  {
    hide V.ReadVarint32, TakeDelimited, DecodeStruct;
    if t.Packable() {
      NumberIsLocal(t, dataSize, payload, tail);
    } else {
      DelimitedIsLocal(payload, tail);
      var b := TakeDelimited(payload).value;
      assert (b + tail)[..|b|] == b && (b + tail)[|b|..] == tail;
      assert b[..|b|] == b && b[|b|..] == [];
      assert |b| == 0 ==> b + tail == tail;
    }
  }

  lemma FieldIsLocal(f: FieldDesc, wireType: nat, payload: bytes, tail: bytes, slot: seq<Value>)
    requires Complete(wireType, payload)
    ensures DecodeField(f, wireType, payload + tail, slot)
         == match DecodeField(f, wireType, payload, slot) case Fail => Fail case Ok(v, _) => Ok(v, tail)
  {
    hide DecodeItem, TakeDelimited, DecodePacked;
    if wireType == WT_STRING {
      DelimitedIsLocal(payload, tail);
    }
    if wireType == WireType(f.ltype) {
      ItemIsLocal(f.ltype, f.dataSize, payload, tail, Existing(f, slot));
    }
  }

  lemma SkipIsLocal(wireType: nat, payload: bytes, tail: bytes)
    requires Complete(wireType, payload)
    ensures Skip(wireType, payload + tail) == Ok((), tail)
  {
    hide TakeDelimited;
    if wireType == WT_VARINT {
      V.GroupEndOf(payload, tail);
    } else if wireType == WT_STRING {
      DelimitedIsLocal(payload, tail);
    }
    assert (payload + tail)[|payload|..] == tail;
  }

  // ---- one step of the main loop on a printed node ---------------------------------

  lemma NestedIsComplete(b: bytes)
    requires |b| < TWO_32
    ensures Complete(WT_STRING, Delimited(b))
    ensures TakeDelimited(Delimited(b)) == Ok(b, [])
  {
    RoundTrip.DelimitedRoundTrip(b, []);
    assert Delimited(b) + [] == Delimited(b);
  }

  lemma ReadLongKey(tag: nat, wireType: nat, s: bytes)
    requires wireType < 8 && tag < 0x2000_0000
    ensures V.ReadVarint32(TagBytes(tag, wireType) + s) == Ok(8 * tag + wireType, s)
  {
    V.VarintRoundTrip32(8 * tag + wireType, s);
  }

  /** The outcome of reading a key and a complete payload, told apart from what follows. */
  ghost function StepOn(d: MsgDesc, tag: nat, wireType: nat, payload: bytes, p: Progress): (r: Option<Progress>)
    requires |p.m| == |d.fields|
    ensures r.Some? ==> |r.value.m| == |d.fields|
  {
    match FieldWithTag(d, tag)
    case None => Some(p)
    case Some(i) =>
      match DecodeField(d.fields[i], wireType, payload, p.m[i])
      case Fail => None
      case Ok(slot, _) => Some(Advance(d, p, i, slot))
  }

  lemma UnknownStep(d: MsgDesc, tag: nat, wireType: nat, s: bytes, rest: bytes, t: bytes, p: Progress)
    requires |p.m| == |d.fields| && tag >= 1 && wireType < 8 && FieldWithTag(d, tag).None?
    requires V.ReadVarint32(s) == Ok(8 * tag + wireType, rest) && Skip(wireType, rest) == Ok((), t)
    ensures DecodeAll(d, s, p) == DecodeAll(d, t, p)
  {
    assert s != [] && (8 * tag + wireType) / 8 == tag && (8 * tag + wireType) % 8 == wireType;
    hide DecodeField, Skip, V.ReadVarint32, IsTail;
    assert DecodeOne(d, s, p) == Ok(p, t);
  }

  lemma AllFromOne(d: MsgDesc, s: bytes, p: Progress)
    requires |p.m| == |d.fields| && s != []
    ensures DecodeAll(d, s, p) == match DecodeOne(d, s, p) case Fail => None case Ok(q, t) => DecodeAll(d, t, q)
  {
    hide DecodeOne;
  }

  lemma KnownOne(d: MsgDesc, tag: nat, wireType: nat, s: bytes, rest: bytes, p: Progress, i: nat)
    requires |p.m| == |d.fields| && tag >= 1 && wireType < 8 && FieldWithTag(d, tag) == Some(i)
    requires V.ReadVarint32(s) == Ok(8 * tag + wireType, rest)
    ensures s != []
    ensures DecodeOne(d, s, p)
         == match DecodeField(d.fields[i], wireType, rest, p.m[i])
            case Fail => Fail
            case Ok(slot, rest') => Ok(Advance(d, p, i, slot), rest')
  {
    assert s != [];
    hide DecodeField, Skip, V.ReadVarint32, IsTail, Advance, FieldWithTag;
  }

  lemma KnownStep(d: MsgDesc, tag: nat, wireType: nat, s: bytes, rest: bytes, t: bytes, p: Progress, i: nat)
    requires |p.m| == |d.fields| && tag >= 1 && wireType < 8 && FieldWithTag(d, tag) == Some(i)
    requires V.ReadVarint32(s) == Ok(8 * tag + wireType, rest)
    ensures DecodeAll(d, s, p)
         == match DecodeField(d.fields[i], wireType, rest, p.m[i])
            case Fail => None
            case Ok(slot, rest') => DecodeAll(d, rest', Advance(d, p, i, slot))
  {
    hide *;
    KnownOne(d, tag, wireType, s, rest, p, i);
    AllFromOne(d, s, p);
  }

  lemma StepIsLocal(d: MsgDesc, tag: nat, wireType: nat, payload: bytes, t: bytes, p: Progress)
    requires |p.m| == |d.fields| && 1 <= tag < 0x2000_0000 && Complete(wireType, payload)
    ensures DecodeAll(d, TagBytes(tag, wireType) + payload + t, p)
         == match StepOn(d, tag, wireType, payload, p) case None => None case Some(q) => DecodeAll(d, t, q)
  {
    assert wireType < 8;
    hide Complete, DecodeField, Skip, DecodeAll, TagBytes, Advance;
    var s := TagBytes(tag, wireType) + payload + t;
    assert s == TagBytes(tag, wireType) + (payload + t);
    ReadLongKey(tag, wireType, payload + t);
    match FieldWithTag(d, tag)
    case None =>
      SkipIsLocal(wireType, payload, t);
      UnknownStep(d, tag, wireType, s, payload + t, t, p);
    case Some(i) =>
      FieldIsLocal(d.fields[i], wireType, payload, t, p.m[i]);
      KnownStep(d, tag, wireType, s, payload + t, t, p, i);
  }

  // ---- the theorem -------------------------------------------------------------------

  /** Two contents that decode alike are alike as the payload of a submessage field. */
  lemma SameContents(d: MsgDesc, tag: nat, i: nat, a: bytes, b: bytes, p: Progress)
    requires |p.m| == |d.fields| && |a| < TWO_32 && |b| < TWO_32
    requires FieldWithTag(d, tag) == Some(i) && d.fields[i].ltype.Submessage?
    requires
      var sub, prev := d.fields[i].ltype.desc, Existing(d.fields[i], p.m[i]);
      prev.VMsg? && |prev.slots| == |sub.fields| ==> DecodeStruct(sub, a, prev.slots) == DecodeStruct(sub, b, prev.slots)
    ensures StepOn(d, tag, WT_STRING, Delimited(a), p) == StepOn(d, tag, WT_STRING, Delimited(b), p)
  {
    var f := d.fields[i];
    assert !f.ltype.Packable() && WireType(f.ltype) == WT_STRING;
    NestedIsComplete(a);
    NestedIsComplete(b);
    hide DecodeStruct, TakeDelimited, Delimited, DefaultItem, Advance, Existing, DecodePacked, DecodeNumber, IsTail, Complete;
    var prev := Existing(f, p.m[i]);
    assert DecodeItem(f.ltype, f.dataSize, Delimited(a), prev) == DecodeItem(f.ltype, f.dataSize, Delimited(b), prev);
    assert DecodeField(f, WT_STRING, Delimited(a), p.m[i]) == DecodeField(f, WT_STRING, Delimited(b), p.m[i]);
  }

  /** Payloads with the same outcome, before tails that decode alike from there. */
  lemma KeptStep(d: MsgDesc, tag: nat, wireType: nat, a: bytes, b: bytes, t: bytes, t': bytes, p: Progress)
    requires |p.m| == |d.fields| && 1 <= tag < 0x2000_0000 && Complete(wireType, a) && Complete(wireType, b)
    requires StepOn(d, tag, wireType, a, p) == StepOn(d, tag, wireType, b, p)
    requires StepOn(d, tag, wireType, a, p).Some?
         ==> DecodeAll(d, t, StepOn(d, tag, wireType, a, p).value) == DecodeAll(d, t', StepOn(d, tag, wireType, a, p).value)
    ensures DecodeAll(d, TagBytes(tag, wireType) + a + t, p) == DecodeAll(d, TagBytes(tag, wireType) + b + t', p)
  {
    hide DecodeAll, StepOn, Complete, TagBytes;
    StepIsLocal(d, tag, wireType, a, t, p);
    StepIsLocal(d, tag, wireType, b, t', p);
  }

  lemma DelimitedShortens(a: bytes, b: bytes)
    requires |a| <= |b| < TWO_32
    ensures |b| <= |Delimited(b)|
    ensures |Delimited(a)| <= |Delimited(b)|
  {
    assert |a| % TWO_64 == |a| && |b| % TWO_64 == |b|;
    hide V.VarintBytes;
    V.VarintLengthMonotone(|a|, |b|);
  }

  lemma {:induction false} StripShortens(d: MsgDesc, doc: seq<Node>)
    requires |Print(doc)| < TWO_32
    ensures |Print(Strip(d, doc))| <= |Print(doc)|
    decreases doc
  {
    if doc != [] {
      var n, rest := doc[0], doc[1..];
      assert Print(doc) == PrintNode(n) + Print(rest);
      StripShortens(d, rest);
      PrintConcat(StripNode(d, n), Strip(d, rest));
      StripNodeShortens(d, n);
      assert Strip(d, doc) == StripNode(d, n) + Strip(d, rest);
      hide *;
    }
  }

  lemma {:induction false} StripNodeShortens(d: MsgDesc, n: Node)
    requires |PrintNode(n)| < TWO_32
    ensures |Print(StripNode(d, n))| <= |PrintNode(n)|
    decreases n
  {
    PrintOne(n);
    var i := FieldWithTag(d, n.tag);
    if i.Some? && n.Nested? && d.fields[i.value].ltype.Submessage? {
      var sub := d.fields[i.value].ltype.desc;
      StripShortens(sub, n.inner);
      var inner := Strip(sub, n.inner);
      PrintOne(Nested(n.tag, inner));
      DelimitedShortens(Print(inner), Print(n.inner));
      hide Print, Strip, Delimited, TagBytes;
    }
  }

  lemma PrintOne(n: Node)
    ensures Print([n]) == PrintNode(n)
  {
    assert [n][1..] == [];
  }

  lemma PrintHead(n: Node, rest: seq<Node>)
    ensures Print([n] + rest) == PrintNode(n) + Print(rest)
  {
    var doc := [n] + rest;
    assert doc[0] == n && doc[1..] == rest;
    hide PrintNode;
  }

  lemma {:induction false} PrintConcat(a: seq<Node>, b: seq<Node>)
    ensures Print(a + b) == Print(a) + Print(b)
  {
    if a == [] {
      assert a + b == b;
    } else {
      hide *;
      var n, rest := a[0], a[1..];
      PrintConcat(rest, b);
      PrintHead(n, rest);
      PrintHead(n, rest + b);
      assert a == [n] + rest && a + b == [n] + (rest + b);
      ConcatAssociative(PrintNode(n), Print(rest), Print(b));
    }
  }

  lemma PrintCons(d: MsgDesc, doc: seq<Node>)
    requires doc != []
    ensures Print(doc) == PrintNode(doc[0]) + Print(doc[1..])
    ensures Print(Strip(d, doc))
         == if StripNode(d, doc[0]) == [] then Print(Strip(d, doc[1..]))
            else PrintNode(StripNode(d, doc[0])[0]) + Print(Strip(d, doc[1..]))
  {
    var k, rest := StripNode(d, doc[0]), Strip(d, doc[1..]);
    hide StripNode, PrintNode;
    if k == [] {
      assert k + rest == rest;
    } else {
      assert |k| == 1 by { StripNodeLength(d, doc[0]); }
      assert k == [k[0]];
      PrintConcat(k, rest);
      PrintOne(k[0]);
    }
  }

  lemma StripNodeLength(d: MsgDesc, n: Node)
    ensures |StripNode(d, n)| == if FieldWithTag(d, n.tag).None? then 0 else 1
    ensures FieldWithTag(d, n.tag).Some? && n.Raw? ==> StripNode(d, n) == [n]
  {
  }

  /**
   * Fields with tags absent from the descriptor, of any number and wire type, between the known fields and
   * inside submessages at any depth, change nothing: the bytes decode exactly as those without them do,
   * to the same struct or to the same refusal.
   */
  lemma {:induction false} UnknownFieldsIgnored(d: MsgDesc, doc: seq<Node>, p: Progress)
    requires WfDoc(d, doc) && |Print(doc)| < TWO_32 && |p.m| == |d.fields|
    ensures DecodeAll(d, Print(doc), p) == DecodeAll(d, Print(Strip(d, doc)), p)
    decreases doc
  {
    if doc == [] {
      return;
    }
    var n, rest := doc[0], doc[1..];
    assert WfNode(d, n) && WfDoc(d, rest);
    PrintCons(d, doc);
    StripNodeLength(d, n);
    var wireType, payload, payload' := WT_STRING, [], [];
    if n.Raw? {
      wireType, payload, payload' := n.wireType, n.payload, n.payload;
    } else {
      payload := Delimited(Print(n.inner));
      NestedIsComplete(Print(n.inner));
    }
    assert PrintNode(n) == TagBytes(n.tag, wireType) + payload;
    assert Complete(wireType, payload);
    hide WfDoc, WfNode, DecodeAll, StepOn, Complete, Delimited, TagBytes, Strip, StripNode, Print;
    var q := StepOn(d, n.tag, wireType, payload, p);
    if q.Some? {
      UnknownFieldsIgnored(d, rest, q.value);
    }
    var i := FieldWithTag(d, n.tag);
    if i.None? {
      StepIsLocal(d, n.tag, wireType, payload, Print(rest), p);
    } else {
      if n.Nested? {
        payload' := StripPayload(d, i.value, n, p);
      }
      KeptStep(d, n.tag, wireType, payload, payload', Print(rest), Print(Strip(d, rest)), p);
    }
  }

  /** The payload of a submessage, and the same without unknown fields inside. */
  lemma {:induction false} StripPayload(d: MsgDesc, i: nat, n: Node, p: Progress) returns (payload: bytes)
    requires n.Nested? && WfNode(d, n) && |Print(n.inner)| < TWO_32 && |p.m| == |d.fields|
    requires FieldWithTag(d, n.tag) == Some(i)
    ensures |StripNode(d, n)| == 1 && PrintNode(StripNode(d, n)[0]) == TagBytes(n.tag, WT_STRING) + payload
    ensures Complete(WT_STRING, payload)
    ensures StepOn(d, n.tag, WT_STRING, Delimited(Print(n.inner)), p) == StepOn(d, n.tag, WT_STRING, payload, p)
    decreases n
  {
    var sub, prev := d.fields[i].ltype.desc, Existing(d.fields[i], p.m[i]);
    var inner := Strip(sub, n.inner);
    payload := Delimited(Print(inner));
    StripShortens(sub, n.inner);
    NestedIsComplete(Print(inner));
    if prev.VMsg? && |prev.slots| == |sub.fields| {
      UnknownFieldsIgnored(sub, n.inner, Progress(prev.slots, {}));
    }
    hide Print, Strip, DecodeAll, StepOn, Delimited, Complete;
    SameContents(d, n.tag, i, Print(n.inner), Print(inner), p);
  }

  // ---- what the encoder writes is such a tree ------------------------------------------

  ghost function ItemNode(f: FieldDesc, v: Value): Node
    requires ItemOk(f.ltype, f.dataSize, v) && EncodeItem(f.ltype, f.dataSize, v).Some?
    decreases f, 2
  {
    if f.ltype.Submessage? then Nested(f.tag, StructDoc(f.ltype.desc, v.slots))
    else Raw(f.tag, WireType(f.ltype), EncodeItem(f.ltype, f.dataSize, v).value)
  }

  ghost function ItemNodes(f: FieldDesc, items: seq<Value>): seq<Node>
    requires forall k :: 0 <= k < |items| ==> ItemOk(f.ltype, f.dataSize, items[k])
    requires EncodeTagged(f, items).Some?
    decreases f, 3, |items|
  {
    if items == [] then [] else [ItemNode(f, items[0])] + ItemNodes(f, items[1..])
  }

  ghost function FieldDoc(f: FieldDesc, slot: seq<Value>): seq<Node>
    requires SlotOk(f, slot) && EncodeField(f, slot).Some?
    decreases f, 4
  {
    if f.htype.Repeated? && f.ltype.Packable() && slot != []
    then [Raw(f.tag, WT_STRING, Delimited(EncodeBare(f, slot).value))]
    else ItemNodes(f, slot)
  }

  ghost function DocFrom(d: MsgDesc, m: Slots, i: nat): seq<Node>
    requires StructOk(d, m) && i <= |m| && EncodeFrom(d, m, i).Some?
    decreases d, 5, |m| - i
  {
    if i == |m| then []
    else
      assert SlotOk(d.fields[i], m[i]);
      FieldDoc(d.fields[i], m[i]) + DocFrom(d, m, i + 1)
  }

  /** The tree of the bytes that the encoder writes for m. */
  ghost function StructDoc(d: MsgDesc, m: Slots): seq<Node>
    requires StructOk(d, m) && EncodeStruct(d, m).Some?
    decreases d, 6
  {
    DocFrom(d, m, 0)
  }

  /** A tree in which nothing is unknown. */
  ghost predicate Pure(d: MsgDesc, doc: seq<Node>) {
    WfDoc(d, doc) && Strip(d, doc) == doc
  }

  lemma {:induction false} PureConcat(d: MsgDesc, a: seq<Node>, b: seq<Node>)
    requires Pure(d, a) && Pure(d, b)
    ensures Pure(d, a + b)
  {
    hide WfNode, StripNode;
    if a == [] {
      assert a + b == b;
    } else {
      var c := a + b;
      assert c[0] == a[0] && c[1..] == a[1..] + b;
      StripLength(d, a[1..]);
      StripNodeShort(d, a[0]);
      assert StripNode(d, a[0]) + Strip(d, a[1..]) == [a[0]] + a[1..];
      assert StripNode(d, a[0]) == [a[0]] && Strip(d, a[1..]) == a[1..] by {
        assert (StripNode(d, a[0]) + Strip(d, a[1..]))[|StripNode(d, a[0])|..] == Strip(d, a[1..]);
        assert (StripNode(d, a[0]) + Strip(d, a[1..]))[..|StripNode(d, a[0])|] == StripNode(d, a[0]);
      }
      PureConcat(d, a[1..], b);
      assert Strip(d, c) == [a[0]] + Strip(d, c[1..]);
    }
  }

  lemma StripNodeShort(d: MsgDesc, n: Node)
    ensures |StripNode(d, n)| <= 1
  {
  }

  lemma {:induction false} StripLength(d: MsgDesc, doc: seq<Node>)
    ensures |Strip(d, doc)| <= |doc|
    decreases |doc|
  {
    if doc != [] {
      StripLength(d, doc[1..]);
      StripNodeShort(d, doc[0]);
      hide StripNode;
    }
  }

  lemma PureEmpty(d: MsgDesc)
    ensures Pure(d, [])
  {
  }

  lemma PureSingle(d: MsgDesc, n: Node)
    requires WfNode(d, n) && StripNode(d, n) == [n]
    ensures Pure(d, [n])
  {
    hide WfNode, StripNode;
    var doc := [n];
    assert doc[0] == n && doc[1..] == [];
    PureEmpty(d);
    assert WfDoc(d, doc[1..]) && Strip(d, doc[1..]) == [];
    assert WfDoc(d, doc);
    assert Strip(d, doc) == [n] + [];
  }

  lemma ItemIsComplete(t: LType, dataSize: nat, v: Value)
    requires SizeAllowed(t, dataSize) && dataSize < 0x1_0000 && !t.Submessage?
    requires ItemOk(t, dataSize, v) && EncodeItem(t, dataSize, v).Some?
    ensures Complete(WireType(t), EncodeItem(t, dataSize, v).value)
  {
    if !t.Packable() {
      NestedIsComplete(if t.String? then Text(v.b) else v.b);
    }
  }

  lemma {:induction false} ItemNodeOk(d: MsgDesc, i: nat, v: Value)
    requires WfDesc(d) && i < |d.fields|
    requires ItemOk(d.fields[i].ltype, d.fields[i].dataSize, v)
    requires EncodeItem(d.fields[i].ltype, d.fields[i].dataSize, v).Some?
    requires |EncodeItem(d.fields[i].ltype, d.fields[i].dataSize, v).value| < TWO_32
    ensures PrintNode(ItemNode(d.fields[i], v))
         == TagBytes(d.fields[i].tag, WireType(d.fields[i].ltype)) + EncodeItem(d.fields[i].ltype, d.fields[i].dataSize, v).value
    ensures Pure(d, [ItemNode(d.fields[i], v)])
    decreases d.fields[i], 2
  {
    var f := d.fields[i];
    assert WfField(f);
    FieldWithTagIs(d, i);
    var n := ItemNode(f, v);
    if f.ltype.Submessage? {
      StructDocOk(f.ltype.desc, v.slots);
    } else {
      ItemIsComplete(f.ltype, f.dataSize, v);
    }
    hide EncodeItem, EncodeStruct, StructDoc, ItemOk, StructOk, Print, Strip, WfDoc, Complete, WfDesc;
    assert WfNode(d, n);
    assert StripNode(d, n) == [n];
    PureSingle(d, n);
  }

  lemma {:induction false} ItemNodesOk(d: MsgDesc, i: nat, items: seq<Value>)
    requires WfDesc(d) && i < |d.fields|
    requires forall k :: 0 <= k < |items| ==> ItemOk(d.fields[i].ltype, d.fields[i].dataSize, items[k])
    requires EncodeTagged(d.fields[i], items).Some? && |EncodeTagged(d.fields[i], items).value| < TWO_32
    ensures Print(ItemNodes(d.fields[i], items)) == EncodeTagged(d.fields[i], items).value
    ensures Pure(d, ItemNodes(d.fields[i], items))
    decreases d.fields[i], 3, |items|
  {
    hide ItemOk, WfDesc, PrintNode, ItemNode, Pure, EncodeItem;
    if items == [] {
      PureEmpty(d);
    } else {
      ItemNodeOk(d, i, items[0]);
      ItemNodesOk(d, i, items[1..]);
      var n, rest := ItemNode(d.fields[i], items[0]), ItemNodes(d.fields[i], items[1..]);
      PureConcat(d, [n], rest);
      PrintConcat([n], rest);
      PrintOne(n);
    }
  }

  lemma FieldDocOk(d: MsgDesc, i: nat, slot: seq<Value>)
    requires WfDesc(d) && i < |d.fields| && SlotOk(d.fields[i], slot)
    requires EncodeField(d.fields[i], slot).Some? && |EncodeField(d.fields[i], slot).value| < TWO_32
    ensures Print(FieldDoc(d.fields[i], slot)) == EncodeField(d.fields[i], slot).value
    ensures Pure(d, FieldDoc(d.fields[i], slot))
    decreases d.fields[i], 4
  {
    var f := d.fields[i];
    assert WfField(f);
    FieldWithTagIs(d, i);
    if f.htype.Repeated? && f.ltype.Packable() && slot != [] {
      var b := EncodeBare(f, slot).value;
      NestedIsComplete(b);
      PrintOne(Raw(f.tag, WT_STRING, Delimited(b)));
      PureSingle(d, Raw(f.tag, WT_STRING, Delimited(b)));
    } else {
      ItemNodesOk(d, i, slot);
    }
  }

  lemma {:induction false} DocFromOk(d: MsgDesc, m: Slots, i: nat)
    requires WfDesc(d) && StructOk(d, m) && i <= |m|
    requires EncodeFrom(d, m, i).Some? && |EncodeFrom(d, m, i).value| < TWO_32
    ensures Print(DocFrom(d, m, i)) == EncodeFrom(d, m, i).value
    ensures Pure(d, DocFrom(d, m, i))
    decreases d, 5, |m| - i
  {
    hide ItemOk, WfField, Pure, PrintNode, FieldDoc, EncodeField;
    if i == |m| {
      PureEmpty(d);
    } else {
      assert SlotOk(d.fields[i], m[i]);
      FieldDocOk(d, i, m[i]);
      DocFromOk(d, m, i + 1);
      PureConcat(d, FieldDoc(d.fields[i], m[i]), DocFrom(d, m, i + 1));
      PrintConcat(FieldDoc(d.fields[i], m[i]), DocFrom(d, m, i + 1));
    }
  }

  lemma {:induction false} StructDocOk(d: MsgDesc, m: Slots)
    requires WfDesc(d) && StructOk(d, m)
    requires EncodeStruct(d, m).Some? && |EncodeStruct(d, m).value| < TWO_32
    ensures Print(StructDoc(d, m)) == EncodeStruct(d, m).value
    ensures Pure(d, StructDoc(d, m))
    decreases d, 6
  {
    DocFromOk(d, m, 0);
  }

  /**
   * Take any tree that becomes the encoding of m when unknown fields are removed at every level:
   * its bytes decode to m.
   */
  lemma PaddedEncodingDecodes(d: MsgDesc, m: Slots, doc: seq<Node>)
    requires WfDesc(d) && StructOk(d, m) && EncodeStruct(d, m).Some?
    requires WfDoc(d, doc) && |Print(doc)| < TWO_32 && Strip(d, doc) == StructDoc(d, m)
    requires |EncodeStruct(d, m).value| < TWO_32
    ensures DecodeStruct(d, Print(doc), DefaultStruct(d)) == Some(StructMeaning(d, m))
  {
    hide EncodeStruct, StructOk, WfDoc, StructDoc, StructMeaning, DecodeAll, WfDesc;
    UnknownFieldsIgnored(d, doc, Progress(DefaultStruct(d), {}));
    StructDocOk(d, m);
    RoundTrip.ShortStruct(d, m);
    RoundTrip.StructRoundTrip(d, m);
  }
}
