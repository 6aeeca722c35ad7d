/** A message from the client's `sendMessage` to the server's pipeline in
    `ClientHandler.run`: what survives the simulated one-bit error. */
module EndToEnd {
  import opened Wrappers
  import opened Messages
  import opened HammingUtil
  import opened Crypto
  import opened ChatClient
  import opened ChatServer

  /** The ciphertext of the message `sendMessage` writes for the typed text. */
  function CiphertextSent(client: Client, fullOriginalText: string, nextInt: nat -> nat): Bytes
    requires IsDraw(nextInt) && client.Outgoing(fullOriginalText, nextInt).Some?
  {
    client.encrypt(client.stringToBytes(Parse(fullOriginalText).1)).value
  }

  /** The index `simulateError` flipped in that message. */
  function FlippedIndex(client: Client, fullOriginalText: string, nextInt: nat -> nat): nat
    requires IsDraw(nextInt) && client.Outgoing(fullOriginalText, nextInt).Some?
  {
    ErrorIndex(Encoded(BitsOfBytes(CiphertextSent(client, fullOriginalText, nextInt))), nextInt)
  }

  /** The flip lands in a block position that correction repairs: 0, 1, 4,
      5 or 6 of its block of seven. */
  predicate Repairable(j: nat)
  {
    j % 7 != 2 && j % 7 != 3
  }

  /** Every message the client writes gets through steps A to C of the
      server's loop. A non-empty ciphertext is always flagged as corrected;
      the bytes handed to `decrypt` are the ciphertext sent exactly when it
      is empty or the flip was in a repairable position. A flip at position
      2 or 3 of its block is "corrected" into a second wrong bit, and
      decryption is given other bytes. */
  lemma DeliveredCiphertext(client: Client, fullOriginalText: string, nextInt: nat -> nat)
    requires IsDraw(nextInt) && client.Outgoing(fullOriginalText, nextInt).Some?
    ensures var e := client.Outgoing(fullOriginalText, nextInt).value;
      var c := CiphertextSent(client, fullOriginalText, nextInt);
      && Routable(e)
      && Corrected(e.erroredHammingBinary.value).detected == (c != [])
      && (Ciphertext(e) == c <==> c == [] || Repairable(FlippedIndex(client, fullOriginalText, nextInt)))
  {
    var e := client.Outgoing(fullOriginalText, nextInt).value;
    var c := CiphertextSent(client, fullOriginalText, nextInt);
    var bits := BitsOfBytes(c);
    var s := Encoded(bits);
    DecodeEncode(bits);
    DecodeEncodeBytes(c);
    EncodedLength(bits);
    assert e.erroredHammingBinary == SimulateError(Some(s), ErrorIndex(s, nextInt));
    if c == [] {
      assert s == [] && e.erroredHammingBinary.value == [];
      CorrectCodewords(s);
      BytesRoundTrip(c);
    } else {
      var j := ErrorIndex(s, nextInt);
      assert e.erroredHammingBinary.value == FlipAt(s, j);
      FlipOutcome(c, j);
    }
  }

  /** A flip at index `j` of the encoding of ciphertext `c`, corrected,
      decoded and packed into bytes, gives `c` back exactly when the flip
      is in a repairable position. */
  lemma FlipOutcome(c: Bytes, j: nat)
    requires c != [] && j < |Encoded(BitsOfBytes(c))|
    ensures var t := Corrected(FlipAt(Encoded(BitsOfBytes(c)), j));
      && t.detected
      && Decoded(t.text).Success? && ToBytes(Decoded(t.text).value).Success?
      && (ToBytes(Decoded(t.text).value).value == c <==> Repairable(j))
  {
    var bits := BitsOfBytes(c);
    var s := Encoded(bits);
    DecodeEncode(bits);
    DecodeEncodeBytes(c);
    assert DecodeBlocks(s) == bits;
    var b, r := j / 7, j % 7;
    assert j == 7 * b + r;
    SingleFlipOutcome(s, b, r);
    if Repairable(j) {
      BytesRoundTrip(c);
    } else {
      MisrepairedBytes(c, 4 * b);
    }
  }

  /** One flipped bit in the bits of `c` packs into whole bytes other than
      `c`. */
  lemma MisrepairedBytes(c: Bytes, i: nat)
    requires i < |BitsOfBytes(c)|
    ensures ToBytes(FlipAt(BitsOfBytes(c), i)).Success?
    ensures ToBytes(FlipAt(BitsOfBytes(c), i)).value != c
  {
    var bits := BitsOfBytes(c);
    var d := FlipAt(bits, i);
    FlipAtElsewhere(bits, i);
    BitsRoundTrip(d);
    assert BitsOfBytes(ToBytes(d).value) != bits;
  }

  /** With a cipher pair that round-trips and a text encoding that
      round-trips the content, a message whose flip is repairable arrives
      with the content the user typed as its final text. */
  lemma ContentDelivered(client: Client, server: Server, fullOriginalText: string, nextInt: nat -> nat)
    requires IsDraw(nextInt) && client.Outgoing(fullOriginalText, nextInt).Some?
    requires forall m :: client.encrypt(m).Success? ==> server.decrypt(client.encrypt(m).value) == Success(m)
    requires server.bytesToString(client.stringToBytes(Parse(fullOriginalText).1)) == Parse(fullOriginalText).1
    requires Repairable(FlippedIndex(client, fullOriginalText, nextInt))
    ensures var e := client.Outgoing(fullOriginalText, nextInt).value;
      && Routable(e)
      && Processed(e, server.decrypt, server.bytesToString).finalText == Parse(fullOriginalText).1
  {
    DeliveredCiphertext(client, fullOriginalText, nextInt);
  }
}
