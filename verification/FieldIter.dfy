/** The field iterator of pb_common.c over the packed descriptor words. */
module FieldIter {
  import opened Bytes
  import opened Descriptor
  import opened FieldInfo
  import Wire

  /** largest_tag: the macros keep the tag of the last entry. */
  function LargestTag(d: MsgDesc): nat {
    if d.fields == [] then 0 else d.fields[|d.fields| - 1].tag
  }

  class Iter {
    const desc: MsgDesc
    var index: nat
    var fieldInfoIndex: nat
    var requiredFieldIndex: nat
    var submessageIndex: nat
    var loaded: Loaded
    var submsgDesc: Option<MsgDesc>

    /** The running indices are the prefix sums over the fields before this one. */
    ghost predicate Placed()
      reads this
    {
      && WfDesc(desc)
      && index < |desc.fields|
      && fieldInfoIndex == WordsBefore(desc, index)
      && requiredFieldIndex == Wire.RequiredBefore(desc, index)
      && submessageIndex == SubmessagesBefore(desc, index)
    }

    /** Placed, and the values of that field have been read. */
    ghost predicate AtField()
      reads this
    {
      && Placed()
      && loaded == Entry(desc.fields[index])
      && submsgDesc == (var t := desc.fields[index].ltype; if t.Submessage? then Some(t.desc) else None)
    }

    /**
     * The field as the decoder and the encoder take it: from the loaded values alone, except for the number of its
     * union, which stands for an offset. It is the field that was declared.
     */
    function Current(): (f: FieldDesc)
      requires AtField()
      reads this
      ensures f == desc.fields[index]
    {
      var declared := desc.fields[index];
      TypeByteTells(declared);
      FieldDesc(loaded.tag, OccurrenceOf(loaded.type_, if declared.htype.Oneof? then declared.htype.union else 0),
                KindOf(loaded.type_, submsgDesc).value, loaded.dataSize, loaded.arraySize, loaded.dataOffset, loaded.sizeOffset,
                declared.width)
    }

    /** The iterator of a message without fields. */
    ghost predicate AtNothing()
      reads this
    {
      desc.fields == [] && index == 0 && loaded.tag == 0
    }

    ghost predicate Valid()
      reads this
    {
      WfDesc(desc) && (AtField() || AtNothing())
    }

    /** pb_field_iter_begin. */
    constructor (d: MsgDesc)
      requires WfDesc(d)
      ensures desc == d && Valid() && index == 0 && (d.fields != [] ==> AtField())
    {
      desc := d;
      index, fieldInfoIndex, requiredFieldIndex, submessageIndex := 0, 0, 0, 0;
      loaded := Loaded(0, 0, 0, 0, 0, 0);
      submsgDesc := None;
      new;
      var _ := LoadDescriptorValues();
    }

    method LoadDescriptorValues() returns (ok: bool)
      requires WfDesc(desc)
      requires index < |desc.fields| ==> Placed()
      modifies this`loaded, this`submsgDesc
      ensures ok <==> index < |desc.fields|
      ensures ok ==> AtField()
      ensures !ok ==> loaded == old(loaded) && submsgDesc == old(submsgDesc)
    {
      if index >= |desc.fields| {
        return false;
      }
      EntryAt(desc, index);
      hide WfDesc, FieldInfoWords, Unpack, WordsBefore, Entry, Wire.RequiredBefore, TypeCode;
      loaded := Unpack(FieldInfoWords(desc), fieldInfoIndex);
      if loaded.type_ % 0x10 == 8 {
        SubmessageAt(desc, |desc.fields|, index);
        submsgDesc := Some(SubmessageInfo(desc, |desc.fields|)[submessageIndex]);
      } else {
        submsgDesc := None;
      }
      return true;
    }

    /** One field on, from the last to the first; an index past the end restarts as well. */
    method AdvanceIterator()
      requires WfDesc(desc) && desc.fields != []
      requires Placed() || index >= |desc.fields|
      modifies this`index, this`fieldInfoIndex, this`requiredFieldIndex, this`submessageIndex
      ensures Placed()
      ensures index == if old(index) + 1 >= |desc.fields| then 0 else old(index) + 1
    {
      PrefixStart(desc);
      hide FieldInfoWords, WordsBefore, Wire.RequiredBefore, SubmessagesBefore, SaysRequired, SaysSubmessage, DescriptorLen, WfDesc;
      index := index + 1;
      if index >= |desc.fields| {
        index, fieldInfoIndex, submessageIndex, requiredFieldIndex := 0, 0, 0, 0;
      } else {
        HeaderAt(desc, index - 1);
        PrefixStep(desc, index - 1);
        var prevDescriptor := FieldInfoWords(desc)[fieldInfoIndex];
        fieldInfoIndex := fieldInfoIndex + DescriptorLen(prevDescriptor);
        requiredFieldIndex := requiredFieldIndex + if SaysRequired(prevDescriptor) then 1 else 0;
        submessageIndex := submessageIndex + if SaysSubmessage(prevDescriptor) then 1 else 0;
      }
    }

    /** pb_field_iter_next: false when it has wrapped around to the first field. */
    method Next() returns (more: bool)
      requires AtField()
      modifies this
      ensures AtField()
      ensures index == (if old(index) + 1 == |desc.fields| then 0 else old(index) + 1) < |desc.fields|
      ensures more <==> index != 0
    {
      AdvanceIterator();
      var _ := LoadDescriptorValues();
      more := index != 0;
    }

    /** The tag of field j is not the one looked for. */
    ghost predicate RuledOut(tag: nat, j: nat) {
      j < |desc.fields| ==> desc.fields[j].tag != tag
    }

    /**
     * pb_field_iter_find, from whatever field the iterator stands on: true exactly if the tag exists, and then
     * it stands there; otherwise it stands where it stood.
     */
    method Find(tag: nat) returns (found: bool)
      requires Valid() && tag >= 1
      modifies this
      ensures Valid()
      ensures found <==> FieldWithTag(desc, tag).Some?
      ensures found ==> AtField() && index == FieldWithTag(desc, tag).value
      ensures !found ==> index == old(index) && fieldInfoIndex == old(fieldInfoIndex)
      ensures !found ==> requiredFieldIndex == old(requiredFieldIndex) && submessageIndex == old(submessageIndex)
      ensures !found ==> loaded == old(loaded) && submsgDesc == old(submsgDesc)
    {
      hide WfDesc, FieldWithTag, FieldInfoWords, Unpack, WordsBefore, TypeCode, Wire.RequiredBefore, SubmessagesBefore;
      if loaded.tag == tag {
        FieldWithTagIs(desc, index);
        return true;
      }
      if tag > LargestTag(desc) {
        TagsUpToLargest(desc);
        return false;
      }
      var start := index;
      ghost var n := |desc.fields|;
      if tag < loaded.tag {
        LaterTagsLarger(desc, start, tag);
        index := |desc.fields|;
      }
      while true
        invariant WfDesc(desc) && desc.fields != [] && 0 <= start < n == |desc.fields|
        invariant Placed() || index == n
        invariant index <= n
        invariant start <= index < n ==> forall j :: start <= j <= index ==> RuledOut(tag, j)
        invariant index < start || index == n ==> forall j :: start <= j < n ==> RuledOut(tag, j)
        invariant index < start ==> forall j :: 0 <= j <= index ==> RuledOut(tag, j)
        decreases if index >= start then n - index + start + 1 else start - index
      {
        AdvanceIterator();
        assert index < n;
        HeaderAt(desc, index);
        var fieldInfo := FieldInfoWords(desc)[fieldInfoIndex];
        if fieldInfo / 4 % 0x40 == tag % 0x40 {
          var _ := LoadDescriptorValues();
          if loaded.tag == tag {
            FieldWithTagIs(desc, index);
            return true;
          }
        }
        assert RuledOut(tag, index);
        if index == start {
          break;
        }
      }
      assert FieldWithTag(desc, tag).Some? ==> !RuledOut(tag, FieldWithTag(desc, tag).value);
      var _ := LoadDescriptorValues();
      return false;
    }
  }

  /** How many words an entry takes, read off the low two bits of its first word. */
  function DescriptorLen(word: nat): nat {
    if word % 4 == 0 then 1 else if word % 4 == 1 then 2 else if word % 4 == 2 then 4 else 8
  }

  /** The first word of an entry says that the field is required. */
  predicate SaysRequired(word: nat) {
    word / 0x100 % 0x100 / 0x10 % 4 == 0
  }

  /** The first word of an entry says that the field is a submessage. */
  predicate SaysSubmessage(word: nat) {
    word / 0x100 % 0x100 % 0x10 == 8
  }

  lemma PrefixStart(d: MsgDesc)
    ensures WordsBefore(d, 0) == Wire.RequiredBefore(d, 0) == SubmessagesBefore(d, 0) == 0
  {
  }

  lemma PrefixStep(d: MsgDesc, i: nat)
    requires i < |d.fields|
    ensures WordsBefore(d, i + 1) == WordsBefore(d, i) + d.fields[i].width
    ensures Wire.RequiredBefore(d, i + 1) == Wire.RequiredBefore(d, i) + if d.fields[i].htype.Required? then 1 else 0
    ensures SubmessagesBefore(d, i + 1) == SubmessagesBefore(d, i) + if d.fields[i].ltype.Submessage? then 1 else 0
  {
  }

  lemma TypeTells(f: FieldDesc)
    ensures TypeCode(f) % 0x10 == 8 <==> f.ltype.Submessage?
    ensures TypeCode(f) / 0x10 % 4 == 0 <==> f.htype.Required?
  {
  }

  /** What advance_iterator and the quick check of the search read off the first word of an entry. */
  lemma HeaderAt(d: MsgDesc, i: nat)
    requires WfDesc(d) && i < |d.fields|
    ensures forall j :: 0 <= j < |d.fields| ==> Fits(d.fields[j])
    ensures WordsBefore(d, i) < |FieldInfoWords(d)|
    ensures var w := FieldInfoWords(d)[WordsBefore(d, i)];
      && DescriptorLen(w) == d.fields[i].width
      && w / 4 % 0x40 == d.fields[i].tag % 0x40
      && (SaysRequired(w) <==> d.fields[i].htype.Required?)
      && (SaysSubmessage(w) <==> d.fields[i].ltype.Submessage?)
  {
    var f := d.fields[i];
    WordsAt(d, i);
    FirstWord(f);
    TypeTells(f);
    hide WfDesc, FieldInfoWords, Pack, TypeCode, WordsBefore, HighPart;
    assert FieldInfoWords(d)[WordsBefore(d, i) + 0] == Pack(f)[0];
  }

  lemma EntryAt(d: MsgDesc, i: nat)
    requires WfDesc(d) && i < |d.fields|
    ensures forall j :: 0 <= j < |d.fields| ==> Fits(d.fields[j])
    ensures WordsBefore(d, i) + 8 <= |FieldInfoWords(d)|
    ensures Unpack(FieldInfoWords(d), WordsBefore(d, i)) == Entry(d.fields[i])
    ensures Entry(d.fields[i]).type_ % 0x10 == 8 <==> d.fields[i].ltype.Submessage?
  {
    var f := d.fields[i];
    WordsAt(d, i);
    assert WfField(f);
    TypeTells(f);
    hide WfDesc, FieldInfoWords, Pack, TypeCode, WordsBefore, Unpack;
    UnpackPack(f, FieldInfoWords(d), WordsBefore(d, i));
  }

  lemma TagsUpToLargest(d: MsgDesc)
    requires WfDesc(d)
    ensures forall j :: 0 <= j < |d.fields| ==> d.fields[j].tag <= LargestTag(d)
  {
  }

  /** Tags are sorted: past a field with a larger tag, there is no match. */
  lemma LaterTagsLarger(d: MsgDesc, start: nat, tag: nat)
    requires WfDesc(d) && start < |d.fields| && tag < d.fields[start].tag
    ensures forall j :: start <= j < |d.fields| ==> d.fields[j].tag > tag
  {
  }
}
