/**
 The two streams together: what a message is after it has been encoded into a buffer and decoded from it again.
 */
module PbExchange {
  import opened Basics
  import opened Coding
  import opened PbSchema
  import opened PbDecode
  import opened PbEvolution
  import opened PbRoundTrip
  import PbEncode
  import PbInput

  datatype Outcome = NotEncoded | NotDecoded | Received(message: Message)

  /**
   `pb_encode` into a buffer by a writer, then `pb_decode` of what was written by a reader with a schema of its own.
   Encoding fails exactly when an array limit is not kept or the buffer is too small, decoding exactly when something
   does not fit the reader or a required field of it is missing; else it gets its own version of the message.
   */
  method Exchange(ws: seq<Field>, rs: seq<Field>, m: Message, bufferSize: nat) returns (r: Outcome)
    requires SchemaOk(ws) && SchemaOk(rs) && Agree(rs, ws) && TypedMessage(ws, m) && |EncodeMessage(ws, m, 0)| < TWO_32
    ensures r.NotEncoded? <==> !LegalMessage(ws, m, false) || bufferSize < |EncodeMessage(ws, m, 0)|
    ensures r.NotDecoded? ==> !Accepts(rs, ws, m)
    ensures r.Received? ==> Accepts(rs, ws, m) && r.message == ConvertedMessage(rs, ws, m)
  {
    var ostream := new PbEncode.OStream(false, bufferSize);
    var ok := ostream.Encode(ws, m);
    if !ok {
      return NotEncoded;
    }
    assert [] + EncodeMessage(ws, m, 0) == EncodeMessage(ws, m, 0);
    MessageRead(rs, ws, m);
    var istream := new PbInput.IStream(ostream.output);
    hide *;
    var decoded := istream.DecodeMessage(rs);
    r := match decoded case None => NotDecoded case Some(message) => Received(message);
  }

  /** With one schema, decoding fails exactly when a string fills its array; else the message comes back. */
  method EncodeAndDecode(fs: seq<Field>, m: Message, bufferSize: nat) returns (r: Outcome)
    requires SchemaOk(fs) && TypedMessage(fs, m) && |EncodeMessage(fs, m, 0)| < TWO_32
    ensures r.NotEncoded? <==> !LegalMessage(fs, m, false) || bufferSize < |EncodeMessage(fs, m, 0)|
    ensures r.NotDecoded? ==> !LegalMessage(fs, m, true)
    ensures r.Received? ==> LegalMessage(fs, m, true) && r.message == RestoredMessage(fs, m)
  {
    SelfAgree(fs);
    SelfMessage(fs, m);
    hide *;
    r := Exchange(fs, fs, m, bufferSize);
  }
}
