/** Bounds on what the encoder writes for any struct at all, also with undeclared enum values. */
module AnyValues {
  import opened Bytes
  import opened Descriptor
  import opened Wire
  import opened Generator
  import opened SizeBound

  // ---- message types whose announced size covers every value ----------------------------

  predicate ItemCovered(t: ProtoType, s: IntSize)
    decreases t, 0
  {
    match t
    case ENUM(values) => EnumCovers(values, s)
    case BYTES(n) => n % 2 == 0
    case MESSAGE(msg) => Covered(msg)
    case _ => true
  }

  predicate EntryCovered(e: Entry)
    decreases e, 2
  {
    match e
    case Single(f) => ItemCovered(f.proto, f.intSize)
    case OneOf(members) => forall k :: 0 <= k < |members| ==> ItemCovered(members[k].proto, members[k].intSize)
  }

  /** At every depth, bytes fields have an even max_size and enums cover all values of their C type. */
  predicate Covered(msg: Message)
    decreases msg, 3
  {
    forall j :: 0 <= j < |msg.entries| ==> EntryCovered(msg.entries[j])
  }

  lemma {:induction false} ItemCoveredInRange(f: Field, h: HType, v: Value)
    requires WfProto(f, h) && ItemCovered(f.proto, f.intSize) && ItemOk(LTypeOf(f.proto), DataSize(f), v)
    ensures ItemInRange(f.proto, f.intSize, v)
    decreases f, 0
  {
    if f.proto.MESSAGE? {
      CoveredInRange(f.proto.msg, v.slots);
    }
  }

  lemma SlotOfCompiled(f: Field, h: HType, d: MsgDesc, m: Slots)
    requires WfDesc(d) && StructOk(d, m) && CompileField(f, h) in d.fields
    ensures forall k :: 0 <= k < |SlotOf(d, m, f.tag)| ==> ItemOk(LTypeOf(f.proto), DataSize(f), SlotOf(d, m, f.tag)[k])
  {
    var x := CompileField(f, h);
    var i :| 0 <= i < |d.fields| && d.fields[i] == x;
    WeightAt(d, m, i);
    hide StructOk, WfDesc, LTypeOf;
  }

  lemma {:induction false} FieldCoveredInRange(f: Field, h: HType, d: MsgDesc, m: Slots)
    requires WfDesc(d) && StructOk(d, m) && CompileField(f, h) in d.fields
    requires WfProto(f, h) && ItemCovered(f.proto, f.intSize)
    ensures FieldInRange(f, SlotOf(d, m, f.tag))
    decreases f, 1
  {
    SlotOfCompiled(f, h, d, m);
    var slot := SlotOf(d, m, f.tag);
    forall k | 0 <= k < |slot| ensures ItemInRange(f.proto, f.intSize, slot[k]) {
      ItemCoveredInRange(f, h, slot[k]);
    }
  }

  lemma {:induction false} EntryCoveredInRange(e: Entry, j: nat, d: MsgDesc, m: Slots)
    requires WfDesc(d) && StructOk(d, m) && WfEntry(e, j) && EntryCovered(e)
    requires forall x :: x in CompileEntry(e, j) ==> x in d.fields
    ensures EntryInRange(e, d, m)
    decreases e, 2
  {
    match e
    case Single(f) =>
      assert CompileEntry(e, j)[0] == CompileField(f, RuleOf(f.rules));
      FieldCoveredInRange(f, RuleOf(f.rules), d, m);
    case OneOf(members) =>
      forall k | 0 <= k < |members| ensures FieldInRange(members[k], SlotOf(d, m, members[k].tag)) {
        assert CompileEntry(e, j)[k] == CompileField(members[k], Oneof(j));
        FieldCoveredInRange(members[k], Oneof(j), d, m);
      }
  }

  lemma {:induction false} CompiledEntryIn(msg: Message, j: nat, i: nat)
    requires j <= i < |msg.entries|
    ensures forall x :: x in CompileEntry(msg.entries[i], i) ==> x in CompileFrom(msg, j)
    decreases i - j
  {
    if j < i {
      CompiledEntryIn(msg, j + 1, i);
    }
  }

  lemma {:induction false} CoveredInRange(msg: Message, m: Slots)
    requires WfMessage(msg) && Covered(msg) && StructOk(Compile(msg), m)
    ensures StructInRange(msg, m)
    decreases msg, 3
  {
    var d := Compile(msg);
    CompiledWf(msg);
    SortKeeps(CompileFrom(msg, 0));
    forall j | 0 <= j < |msg.entries| ensures EntryInRange(msg.entries[j], d, m) {
      CompiledEntryIn(msg, 0, j);
      EntryCoveredInRange(msg.entries[j], j, d, m);
    }
  }

  /**
   * If every bytes field has an even max_size and every enum covers all values of its C type, at every depth, the
   * announced size bounds whatever the encoder writes for the message type.
   */
  lemma CoveredBound(msg: Message, m: Slots)
    requires WfMessage(msg) && Covered(msg) && StructOk(Compile(msg), m) && EncodeStruct(Compile(msg), m).Some?
    ensures |EncodeStruct(Compile(msg), m).value| <= MessageSize(msg, 0)
  {
    CoveredInRange(msg, m);
    hide *;
    MessageBound(msg, m);
  }

  // ---- the same descriptor, with every value covered --------------------------------------------

  /** A type of the same C type: for an enum without negative values an integer, for bytes the size with its padding. */
  function Widened(t: ProtoType, s: IntSize): ProtoType
    decreases t, 0
  {
    match t
    case ENUM(values) => if HasNegative(values) then t else if s.IS_64? then UINT64 else UINT32
    case BYTES(n) => BYTES(n + n % 2)
    case MESSAGE(msg) => MESSAGE(WidenedMessage(msg))
    case _ => t
  }

  function WidenedField(f: Field): Field
    decreases f, 1
  {
    f.(proto := Widened(f.proto, f.intSize))
  }

  function WidenedEntry(e: Entry): Entry
    decreases e, 2
  {
    match e
    case Single(f) => Single(WidenedField(f))
    case OneOf(members) => OneOf(seq(|members|, k requires 0 <= k < |members| => WidenedField(members[k])))
  }

  function WidenedMessage(msg: Message): (w: Message)
    ensures |w.entries| == |msg.entries|
    ensures forall j :: 0 <= j < |msg.entries| ==> w.entries[j] == WidenedEntry(msg.entries[j])
    decreases msg, 3
  {
    Message(seq(|msg.entries|, j requires 0 <= j < |msg.entries| => WidenedEntry(msg.entries[j])))
  }

  lemma {:induction false} WidenedLType(t: ProtoType, s: IntSize)
    ensures LTypeOf(Widened(t, s)) == LTypeOf(t)
    ensures !t.MESSAGE? ==> Datatype(Widened(t, s), s).1 == Datatype(t, s).1
    ensures t.MESSAGE? <==> Widened(t, s).MESSAGE?
    decreases t, 0
  {
    if t.MESSAGE? {
      WidenedCompiles(t.msg);
    }
  }

  lemma {:induction false} WidenedFieldCompiles(f: Field, h: HType)
    ensures CompileField(WidenedField(f), h) == CompileField(f, h)
    decreases f, 1
  {
    WidenedLType(f.proto, f.intSize);
  }

  lemma {:induction false} WidenedEntryCompiles(e: Entry, j: nat)
    ensures CompileEntry(WidenedEntry(e), j) == CompileEntry(e, j)
    decreases e, 2
  {
    match e
    case Single(f) => WidenedFieldCompiles(f, RuleOf(f.rules));
    case OneOf(members) =>
      forall k | 0 <= k < |members| ensures CompileEntry(WidenedEntry(e), j)[k] == CompileEntry(e, j)[k] {
        WidenedFieldCompiles(members[k], Oneof(j));
      }
  }

  lemma {:induction false} WidenedFromCompiles(msg: Message, j: nat)
    requires j <= |msg.entries|
    ensures CompileFrom(WidenedMessage(msg), j) == CompileFrom(msg, j)
    decreases msg, 3, |msg.entries| - j
  {
    if j < |msg.entries| {
      WidenedEntryCompiles(msg.entries[j], j);
      WidenedFromCompiles(msg, j + 1);
    }
  }

  lemma {:induction false} WidenedCompiles(msg: Message)
    ensures Compile(WidenedMessage(msg)) == Compile(msg)
    decreases msg, 4
  {
    WidenedFromCompiles(msg, 0);
  }

  lemma {:induction false} WidenedFieldWf(f: Field, h: HType)
    requires WfProto(f, h)
    ensures WfProto(WidenedField(f), h) && ItemCovered(WidenedField(f).proto, f.intSize)
    decreases f, 1
  {
    WidenedFieldCompiles(f, h);
    if f.proto.MESSAGE? {
      WidenedWf(f.proto.msg);
    }
  }

  lemma {:induction false} WidenedEntryWf(e: Entry, j: nat)
    requires WfEntry(e, j)
    ensures WfEntry(WidenedEntry(e), j) && EntryCovered(WidenedEntry(e))
    decreases e, 2
  {
    match e
    case Single(f) => WidenedFieldWf(f, RuleOf(f.rules));
    case OneOf(members) =>
      forall k | 0 <= k < |members|
        ensures WfProto(WidenedField(members[k]), Oneof(j))
        ensures ItemCovered(WidenedField(members[k]).proto, members[k].intSize)
      {
        WidenedFieldWf(members[k], Oneof(j));
      }
  }

  lemma {:induction false} WidenedWf(msg: Message)
    requires WfMessage(msg)
    ensures WfMessage(WidenedMessage(msg)) && Covered(WidenedMessage(msg))
    decreases msg, 3
  {
    forall j | 0 <= j < |msg.entries|
      ensures WfEntry(WidenedEntry(msg.entries[j]), j) && EntryCovered(WidenedEntry(msg.entries[j]))
    {
      WidenedEntryWf(msg.entries[j], j);
    }
    WidenedFromCompiles(msg, 0);
  }

  /**
   * Whatever the values are, the encoder writes no more than the size that the generator would announce if enums were
   * integers and bytes fields had the padding of their structs as part of their size.
   */
  lemma AnyValueBound(msg: Message, m: Slots)
    requires WfMessage(msg) && StructOk(Compile(msg), m) && EncodeStruct(Compile(msg), m).Some?
    ensures |EncodeStruct(Compile(msg), m).value| <= MessageSize(WidenedMessage(msg), 0)
  {
    hide *;
    WidenedCompiles(msg);
    WidenedWf(msg);
    CoveredBound(WidenedMessage(msg), m);
  }
}
