/** When a message that parses is refused for a missing required field. */
module RequiredFields {
  import opened Bytes
  import opened Descriptor
  import opened Wire
  import V = Varint

  /** The tags at the top level of a message, in order, found without any descriptor. */
  function TagsIn(s: bytes): seq<nat>
    decreases |s|
  {
    if s == [] then []
    else match V.ReadVarint32(s)
      case Fail => []
      case Ok(key, rest) =>
        match Skip(key % 8, rest)
        case Fail => []
        case Ok(_, rest') => [key / 8] + TagsIn(rest')
  }

  /** A field that is decoded takes exactly the bytes that skipping it would take. */
  lemma DecodedLikeSkipped(f: FieldDesc, wireType: nat, s: bytes, slot: seq<Value>)
    requires DecodeField(f, wireType, s, slot).Ok?
    ensures Skip(wireType, s) == Ok((), DecodeField(f, wireType, s, slot).rest)
  {
    hide DecodePacked, DefaultItem, DecodeStruct;
  }

  /** What the required-field bookkeeping holds at the end of the input. */
  ghost function RequiredIn(d: MsgDesc, tags: seq<nat>): set<nat> {
    set i: nat | i < |d.fields| && d.fields[i].htype.Required? && d.fields[i].tag in tags
  }

  /** What one step of the main loop does to the tags ahead and to the bookkeeping. */
  lemma StepSeen(d: MsgDesc, s: bytes, p: Progress) returns (tag: nat)
    requires WfDesc(d) && |p.m| == |d.fields| && s != [] && DecodeOne(d, s, p).Ok?
    ensures var r := DecodeOne(d, s, p);
      && TagsIn(s) == [tag] + TagsIn(r.rest)
      && r.value.seen == p.seen + RequiredIn(d, [tag])
  {
    var key, rest := V.ReadVarint32(s).value, V.ReadVarint32(s).rest;
    tag := key / 8;
    var i := FieldWithTag(d, tag);
    RequiredWithTag(d, tag);
    hide WfDesc, RequiredIn, DecodeField, V.ReadVarint32;
    if i.Some? {
      DecodedLikeSkipped(d.fields[i.value], key % 8, rest, p.m[i.value]);
    }
    hide Skip;
    assert p.seen + {} == p.seen;
  }

  lemma RequiredWithTag(d: MsgDesc, tag: nat)
    requires WfDesc(d)
    ensures RequiredIn(d, [tag])
         == match FieldWithTag(d, tag) case None => {} case Some(i) => if d.fields[i].htype.Required? then {i} else {}
  {
    forall j: nat | j < |d.fields| && d.fields[j].tag == tag ensures FieldWithTag(d, tag) == Some(j) {
      FieldWithTagIs(d, j);
    }
  }

  lemma {:induction false} SeenAreThoseThatOccur(d: MsgDesc, s: bytes, p: Progress)
    requires WfDesc(d) && |p.m| == |d.fields| && DecodeAll(d, s, p).Some?
    ensures DecodeAll(d, s, p).value.seen == p.seen + RequiredIn(d, TagsIn(s))
    decreases |s|
  {
    if s != [] {
      var r := DecodeOne(d, s, p);
      assert DecodeAll(d, s, p) == DecodeAll(d, r.rest, r.value);
      hide DecodeAll, DecodeOne, WfDesc, TagsIn;
      var tag := StepSeen(d, s, p);
      SeenAreThoseThatOccur(d, r.rest, r.value);
      assert RequiredIn(d, TagsIn(s)) == RequiredIn(d, [tag]) + RequiredIn(d, TagsIn(r.rest));
    }
  }

  /**
   * A message whose fields all parse is accepted exactly when the tag of every tracked required field
   * occurs in it, wherever and however often.
   */
  lemma AcceptedIffRequiredOccur(d: MsgDesc, s: bytes, m: Slots)
    requires WfDesc(d) && |m| == |d.fields| && DecodeAll(d, s, Progress(m, {})).Some?
    ensures DecodeStruct(d, s, m).Some?
       <==> forall i :: 0 <= i < |d.fields| && d.fields[i].htype.Required? && RequiredBefore(d, i) < PB_MAX_REQUIRED_FIELDS
              ==> d.fields[i].tag in TagsIn(s)
  {
    SeenAreThoseThatOccur(d, s, Progress(m, {}));
  }

  lemma {:induction false} RequiredBeforeMonotone(d: MsgDesc, i: nat, j: nat)
    requires i < j <= |d.fields| && d.fields[i].htype.Required?
    ensures RequiredBefore(d, i) < RequiredBefore(d, j)
    decreases j
  {
    if i < j - 1 {
      RequiredBeforeMonotone(d, i, j - 1);
    }
  }

  /** With at most 64 required fields, all of them are tracked. */
  lemma AllRequiredTracked(d: MsgDesc, i: nat)
    requires i < |d.fields| && d.fields[i].htype.Required?
    requires RequiredBefore(d, |d.fields|) <= PB_MAX_REQUIRED_FIELDS
    ensures RequiredBefore(d, i) < PB_MAX_REQUIRED_FIELDS
  {
    RequiredBeforeMonotone(d, i, |d.fields|);
  }

  /** With up to 64 required fields, a message that parses is accepted exactly if each of them occurs. */
  lemma AllCheckedUpTo64(d: MsgDesc, s: bytes, m: Slots)
    requires WfDesc(d) && |m| == |d.fields| && DecodeAll(d, s, Progress(m, {})).Some?
    requires RequiredBefore(d, |d.fields|) <= 64
    ensures DecodeStruct(d, s, m).Some? <==> forall i :: 0 <= i < |d.fields| && d.fields[i].htype.Required? ==> d.fields[i].tag in TagsIn(s)
  {
    AcceptedIffRequiredOccur(d, s, m);
    forall i | 0 <= i < |d.fields| && d.fields[i].htype.Required? ensures RequiredBefore(d, i) < 64 {
      AllRequiredTracked(d, i);
    }
    hide DecodeAll, DecodeStruct, TagsIn, WfDesc, RequiredBefore;
  }

  /** With 65 required fields and more, the decoder accepts messages in which a later one is missing. */
  lemma LaterRequiredNotChecked(d: MsgDesc, i: nat, s: bytes, m: Slots)
    requires WfDesc(d) && |m| == |d.fields| && DecodeAll(d, s, Progress(m, {})).Some?
    requires i < |d.fields| && d.fields[i].htype.Required? && RequiredBefore(d, i) >= PB_MAX_REQUIRED_FIELDS
    requires forall j :: 0 <= j < |d.fields| && j != i ==> d.fields[j].tag in TagsIn(s)
    ensures DecodeStruct(d, s, m).Some?
  {
    AcceptedIffRequiredOccur(d, s, m);
  }
}
