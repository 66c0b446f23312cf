/** The two objects together: what an Encoder appends, a Decoder reads back. */
module Messages {
  import opened Bytes
  import opened Buffers
  import opened Wire
  import opened Bounds
  import opened Value
  import opened Forms
  import opened Reading
  import opened Codec
  import opened Encoders
  import opened Decoders

  /** Encodes v and decodes it again from the bytes and whatever follows them, with the
      dictionary and the interning mode of the encoder. A numerically equal value comes back
      exactly when the value is within the decoder's limits, every reference in its form is safe
      and no float of it reverts; the value itself, where types are kept, exactly when it is
      within the limits and every reference is safe. The decoder then stands behind the bytes. */
  method ThereAndBack(e: Encoder, v: Value, dict: Dict, rest: bytes, sized: bool,
                      registered: (int, bytes) -> bool, wild: int)
      returns (d: Decoder, data: bytes, r: Option<Value>, ghost w: Wire)
    requires e.Valid() && Encodable(v) && e.Lists(dict) && ExtsKnown(Mode(false, e.intern, registered), v)
    modifies e`out, e`buf, e`dict, e`appended
    ensures e.Valid() && d.Valid() && fresh(d) && d.input == data + rest
    ensures Written(e.Settings(), v, w, dict, [], data) && e.Lists(Learned(e.intern, w, dict))
    ensures
      var fits := Within(v, DEFAULT_DEPTH_LIMIT + 1, if sized then MAX_LEN else SLICE_ALLOC_LIMIT);
      var safe := Safe(e.intern, w, dict, None);
      && (r.Some? && Alike(v, r.value) <==> fits && safe && FloatsHold(e.Settings(), v))
      && (KeepsTypes(e.Settings()) ==> (r == Some(v) <==> fits && safe))
      && (r.Some? ==> d.pos == |data|)
      && (r.Some? && Steady(e.intern, w, dict) ==> d.dict == Learned(e.intern, w, dict))
  {
    hide Encodable, Encodes, ExtsKnown, Within, Alike, Learned, Lost, Safe, FloatsHold, DecodeTopAt, DecodeAt, Emit,
      Encoder.Lists;
    var ok;
    ok, data, w := e.Append(NilBuffer, v, dict);
    d := new Decoder(data + rest, sized, registered, wild);
    d.dict, d.intern := dict, e.intern;
    RoundTrip(d.CurrentMode(), e.Settings(), v, w, [], rest, d.Here(), dict);
    assert [] + Emit(w) == Emit(w) && [] + Emit(w) + rest == data + rest;
    r := d.DecodeInterface();
  }
}
