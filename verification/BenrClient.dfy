/** Writer and reader together, as a program would use them. */
module BenrClient {
  import opened ByteString
  import opened BencodeTree
  import opened Ben
  import opened BenrIter
  import opened BenrCode
  import opened BenrRoundTrip

  /**
   * Writes a value, adds whatever follows it in the buffer, and walks what is there with the
   * iterators. The value comes back whole if it holds no zero byte; with nothing behind it,
   * it comes back only then.
   */
  method WriteThenWalk(t: Tree, trail: Bytes) returns (back: Option<Tree>)
    requires Emittable(t) && |Emitted(t) + trail| < SIZE_MAX
    ensures NulFree(t) ==> back == Some(t)
    ensures trail == [] ==> (back == Some(t) <==> NulFree(t))
  {
    hide Emitted, Encode, ReadValue, Work, NulFree;
    var d := new DarrayChar();
    d.Write(t);
    var mem := d.bytes + trail;
    assert mem == Emitted(t) + trail;
    var b := BenrInit(mem, 0, |mem|);
    ghost var moved;
    back, moved := WalkValue(mem, b);
    if NulFree(t) {
      RoundTrip(t, trail);
    }
    if trail == [] {
      assert mem == Emitted(t);
      RoundTripIffNulFree(t);
    }
  }
}
