/** The encoder sees of a struct only what it means: the texts of its strings, not what follows them. */
module Meanings {
  import opened Bytes
  import opened Descriptor
  import opened Wire
  import RoundTrip

  lemma {:induction false} TextOfText(b: bytes)
    ensures Text(Text(b)) == Text(b)
  {
    if b != [] && b[0] != 0 {
      TextOfText(b[1..]);
      assert ([b[0]] + Text(b[1..]))[1..] == Text(b[1..]);
    }
  }

  lemma {:induction false} ItemMeaning(t: LType, dataSize: nat, v: Value)
    requires ItemOk(t, dataSize, v)
    ensures ItemOk(t, dataSize, Meaning(t, v))
    ensures EncodeItem(t, dataSize, Meaning(t, v)) == EncodeItem(t, dataSize, v)
    decreases t, 2
  {
    if t.String? {
      TextOfText(v.b);
    } else if t.Submessage? {
      EncodesMeaning(t.desc, v.slots);
    }
  }

  lemma SlotMeaningAt(f: FieldDesc, items: seq<Value>, k: nat)
    requires k < |items|
    ensures SlotMeaning(f, items)[k] == Meaning(f.ltype, items[k])
    ensures SlotMeaning(f, items)[1..] == SlotMeaning(f, items[1..])
  {
  }

  ghost predicate AllOk(f: FieldDesc, items: seq<Value>) {
    forall k :: 0 <= k < |items| ==> ItemOk(f.ltype, f.dataSize, items[k])
  }

  lemma {:induction false} ItemsMeaning(f: FieldDesc, items: seq<Value>)
    requires AllOk(f, items)
    ensures AllOk(f, SlotMeaning(f, items))
    ensures EncodeTagged(f, SlotMeaning(f, items)) == EncodeTagged(f, items)
    decreases f, 3, |items|
  {
    if items != [] {
      ItemMeaning(f.ltype, f.dataSize, items[0]);
      SlotMeaningAt(f, items, 0);
      assert AllOk(f, items[1..]);
      ItemsMeaning(f, items[1..]);
      AllOkCons(f, SlotMeaning(f, items));
      hide Meaning, SlotMeaning, EncodeItem, ItemOk;
    }
  }

  lemma AllOkCons(f: FieldDesc, items: seq<Value>)
    requires items != [] && ItemOk(f.ltype, f.dataSize, items[0]) && AllOk(f, items[1..])
    ensures AllOk(f, items)
  {
    forall k | 0 <= k < |items| ensures ItemOk(f.ltype, f.dataSize, items[k]) {
      if k > 0 {
        assert items[k] == items[1..][k - 1];
      }
    }
  }

  lemma {:induction false} FieldMeaning(f: FieldDesc, slot: seq<Value>)
    requires SlotOk(f, slot)
    ensures SlotOk(f, SlotMeaning(f, slot))
    ensures EncodeField(f, SlotMeaning(f, slot)) == EncodeField(f, slot)
    decreases f, 4
  {
    if f.ltype.Packable() {
      RoundTrip.NumberMeaning(f, slot);
    } else {
      assert AllOk(f, slot);
      ItemsMeaning(f, slot);
      assert AllOk(f, SlotMeaning(f, slot));
    }
  }

  lemma {:induction false} FieldsMeaning(d: MsgDesc, m: Slots, i: nat)
    requires StructOk(d, m) && StructOk(d, StructMeaning(d, m)) && i <= |m|
    ensures EncodeFrom(d, StructMeaning(d, m), i) == EncodeFrom(d, m, i)
    decreases d, 5, |m| - i
  {
    if i < |m| {
      assert SlotOk(d.fields[i], m[i]);
      FieldMeaning(d.fields[i], m[i]);
      FieldsMeaning(d, m, i + 1);
      FromStep(d, m, i);
      FromStep(d, StructMeaning(d, m), i);
      assert StructMeaning(d, m)[i] == SlotMeaning(d.fields[i], m[i]);
    }
  }

  lemma FromStep(d: MsgDesc, m: Slots, i: nat)
    requires StructOk(d, m) && i < |m|
    ensures SlotOk(d.fields[i], m[i])
    ensures EncodeFrom(d, m, i) == Join(EncodeField(d.fields[i], m[i]), EncodeFrom(d, m, i + 1))
  {
    assert SlotOk(d.fields[i], m[i]);
  }

  lemma StillAStruct(d: MsgDesc, m: Slots)
    requires StructOk(d, m)
    requires forall i :: 0 <= i < |m| ==> SlotOk(d.fields[i], SlotMeaning(d.fields[i], m[i]))
    ensures StructOk(d, StructMeaning(d, m))
  {
    var r := StructMeaning(d, m);
    forall i | 0 <= i < |m| ensures |r[i]| == |m[i]| && SlotOk(d.fields[i], r[i]) {
    }
  }

  /** Encoding a struct and encoding what it means give the same bytes. */
  lemma {:induction false} EncodesMeaning(d: MsgDesc, m: Slots)
    requires StructOk(d, m)
    ensures StructOk(d, StructMeaning(d, m))
    ensures EncodeStruct(d, StructMeaning(d, m)) == EncodeStruct(d, m)
    decreases d, 6
  {
    forall i | 0 <= i < |m| ensures SlotOk(d.fields[i], SlotMeaning(d.fields[i], m[i])) {
      assert SlotOk(d.fields[i], m[i]);
      FieldMeaning(d.fields[i], m[i]);
    }
    StillAStruct(d, m);
    FieldsMeaning(d, m, 0);
  }
}
