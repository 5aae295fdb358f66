// nanopb end to end: encode into a buffer, and decode what is there.

module PbTransfers {
  import opened Basics
  import opened PbVarint
  import opened PbSchemas
  import opened PbEncoding
  import PbDecoding
  import opened PbDecodeIsMerge
  import opened PbReaders
  import opened PbTheorems
  import opened PbOutputs
  import opened PbInputs

  /** From one message struct through a buffer into another one, for a reader that may know fewer fields:
      it works exactly if the message can be encoded, fits into the buffer and fits into the reader's
      struct, and then the reader sees every field that it knows. */
  method Transfer(buffer: array<Byte>, w: Schema, r: Schema, m: Slots) returns (ok: bool, x: Slots)
    requires Good(w) && Good(r) && Reduced(w, r) && TypedFrom(w, 0, m) && buffer.Length < TWO63
    modifies buffer
    ensures ok <==> EncodesFrom(w, 0, m) && |Encode(w, m)| <= buffer.Length && Room(w, r, m)
    ensures ok ==> Shows(w, r, m, x)
  {
    hide Good, Reduced, TypedFrom, EncodesFrom, EncodeFrom, Room, Shows, PbDecoding.Decode;
    var size;
    x := [];
    ok, size := EncodeInto(buffer, buffer.Length, w, m);
    if !ok { return; }
    var stream := new IStream(buffer[..size], 0, size);
    assert buffer[..size][0..size] == Encode(w, m);
    ReaderSees(w, r, m);
    ok, x := stream.Decode(r);
  }
}
