/** A repeated field may arrive in packed pieces and single items, in any mixture. */
module PackedChunks {
  import opened Bytes
  import opened Descriptor
  import opened Wire
  import opened RoundTrip

  datatype Chunk = Pack(items: seq<Value>) | Single(item: Value)
  {
    function Items(): seq<Value> {
      if Pack? then items else [item]
    }
  }

  function AllItems(chunks: seq<Chunk>): seq<Value> {
    if chunks == [] then [] else chunks[0].Items() + AllItems(chunks[1..])
  }

  ghost predicate ChunkOk(f: FieldDesc, c: Chunk) {
    match c
    case Pack(items) =>
      && (forall k :: 0 <= k < |items| ==> ItemOk(f.ltype, f.dataSize, items[k]))
      && EncodeBare(f, items).Some? && |EncodeBare(f, items).value| < TWO_32
    case Single(item) =>
      ItemOk(f.ltype, f.dataSize, item)
  }

  /** A packed piece is one length-prefixed run of bare items; a single item has its own wire type. */
  function ChunkWireType(f: FieldDesc, c: Chunk): nat {
    if c.Pack? then WT_STRING else WireType(f.ltype)
  }

  ghost function ChunkPayload(f: FieldDesc, c: Chunk): bytes
    requires ChunkOk(f, c) && f.ltype.Packable()
  {
    match c
    case Pack(items) => Delimited(EncodeBare(f, items).value)
    case Single(item) => EncodeItem(f.ltype, f.dataSize, item).value
  }

  ghost function PrintChunk(f: FieldDesc, c: Chunk): bytes
    requires ChunkOk(f, c) && f.ltype.Packable()
  {
    TagBytes(f.tag, ChunkWireType(f, c)) + ChunkPayload(f, c)
  }

  ghost function PrintChunks(f: FieldDesc, chunks: seq<Chunk>): bytes
    requires f.ltype.Packable() && forall k :: 0 <= k < |chunks| ==> ChunkOk(f, chunks[k])
  {
    if chunks == [] then [] else PrintChunk(f, chunks[0]) + PrintChunks(f, chunks[1..])
  }

  lemma ChunkField(f: FieldDesc, c: Chunk, t: bytes, slot: seq<Value>)
    requires SizeAllowed(f.ltype, f.dataSize) && f.htype.Repeated? && f.ltype.Packable() && ChunkOk(f, c)
    requires |slot| <= f.arraySize
    ensures DecodeField(f, ChunkWireType(f, c), ChunkPayload(f, c) + t, slot)
         == if |slot| + |c.Items()| <= f.arraySize then Ok(slot + c.Items(), t) else Fail
  {
    match c
    case Pack(items) =>
      var b := EncodeBare(f, items).value;
      PackedRoundTrip(f, items, slot);
      DelimitedRoundTrip(b, t);
      hide DecodePacked, EncodeBare, ItemOk, DecodeItem;
    case Single(item) =>
      NumberRoundTrip(f.ltype, f.dataSize, item, t);
  }

  /** One chunk: its items are appended, or the whole decoding is refused. */
  lemma ChunkStep(d: MsgDesc, i: nat, c: Chunk, t: bytes, p: Progress)
    requires WfDesc(d) && i < |d.fields| == |p.m|
    requires d.fields[i].htype.Repeated? && d.fields[i].ltype.Packable() && ChunkOk(d.fields[i], c)
    requires |p.m[i]| <= d.fields[i].arraySize
    ensures DecodeAll(d, PrintChunk(d.fields[i], c) + t, p)
         == if |p.m[i]| + |c.Items()| <= d.fields[i].arraySize
            then DecodeAll(d, t, p.(m := p.m[i := p.m[i] + c.Items()])) else None
  {
    var f := d.fields[i];
    assert WfField(f);
    ChunkField(f, c, t, p.m[i]);
    hide ChunkOk, DecodeField, DecodeAll, WfField, WfDesc, ChunkPayload, TagBytes;
    var wireType, payload := ChunkWireType(f, c), ChunkPayload(f, c);
    if |p.m[i]| + |c.Items()| <= f.arraySize {
      var slot := p.m[i] + c.Items();
      KnownFieldStep(d, i, wireType, payload, t, p, slot);
      StoreIs(d, p.m, i, slot, p.m[i := slot]);
    } else {
      RefusedFieldStep(d, i, wireType, payload + t, p);
      assert PrintChunk(f, c) + t == TagBytes(f.tag, wireType) + (payload + t);
    }
  }

  lemma RefusedFieldStep(d: MsgDesc, i: nat, wireType: nat, rest: bytes, p: Progress)
    requires WfDesc(d) && i < |d.fields| == |p.m| && wireType < 8
    requires DecodeField(d.fields[i], wireType, rest, p.m[i]).Fail?
    ensures DecodeAll(d, TagBytes(d.fields[i].tag, wireType) + rest, p) == None
  {
    var f := d.fields[i];
    assert WfField(f);
    ReadKey(f.tag, wireType, rest);
    FieldWithTagIs(d, i);
    hide DecodeField, WfDesc, TagBytes, Skip;
    var s := TagBytes(f.tag, wireType) + rest;
    assert DecodeOne(d, s, p) == Fail;
  }

  /**
   * However a list is split into packed pieces and single entries, decoding yields the list in order;
   * it is refused exactly when the items would not fit the array.
   */
  lemma {:induction false} ChunksDecode(d: MsgDesc, i: nat, chunks: seq<Chunk>, t: bytes, p: Progress)
    requires WfDesc(d) && i < |d.fields| == |p.m|
    requires d.fields[i].htype.Repeated? && d.fields[i].ltype.Packable()
    requires forall k :: 0 <= k < |chunks| ==> ChunkOk(d.fields[i], chunks[k])
    requires |p.m[i]| <= d.fields[i].arraySize
    ensures DecodeAll(d, PrintChunks(d.fields[i], chunks) + t, p)
         == if |p.m[i]| + |AllItems(chunks)| <= d.fields[i].arraySize
            then DecodeAll(d, t, p.(m := p.m[i := p.m[i] + AllItems(chunks)])) else None
  {
    hide ChunkOk, PrintChunk, DecodeAll, WfDesc;
    var f := d.fields[i];
    if chunks == [] {
      assert [] + t == t;
      assert p.m[i] + AllItems(chunks) == p.m[i];
      assert p.m[i := p.m[i]] == p.m;
    } else {
      var c, rest := chunks[0], chunks[1..];
      assert PrintChunks(f, chunks) + t == PrintChunk(f, c) + (PrintChunks(f, rest) + t);
      assert AllItems(chunks) == c.Items() + AllItems(rest);
      ChunkStep(d, i, c, PrintChunks(f, rest) + t, p);
      if |p.m[i]| + |c.Items()| <= f.arraySize {
        var q := p.(m := p.m[i := p.m[i] + c.Items()]);
        ChunksDecode(d, i, rest, t, q);
        assert q.m[i] + AllItems(rest) == p.m[i] + AllItems(chunks);
        assert q.m[i := q.m[i] + AllItems(rest)] == p.m[i := p.m[i] + AllItems(chunks)];
      }
    }
  }
}
