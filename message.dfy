/** The chat message record threaded through the pipeline
    (`com.somnath.common.Message`). */
module Messages {
  import opened Wrappers
  import opened JavaLang

  /** The serialised state of a `Message`: every field except the transient
      `expanded` flag, which `ObjectOutputStream` does not write. A `None`
      string is a Java `null`. */
  datatype Envelope = Envelope(
    sender: Option<string>,
    recipient: Option<string>,
    fullOriginalText: Option<string>,
    contentToEncrypt: Option<string>,
    encryptedContentBase64: Option<string>,
    hammingEncodedBinary: Option<string>,
    erroredHammingBinary: Option<string>,
    correctedHammingBinary: Option<string>,
    finalDecryptedContent: Option<string>,
    errorDetected: bool,
    errorCorrected: bool)

  /** The state the four-argument constructor leaves: the other strings
      `null`, both flags false. */
  function Created(sender: Option<string>, fullOriginalText: Option<string>,
                   recipient: Option<string>, contentToEncrypt: Option<string>): Envelope
  {
    Envelope(sender, recipient, fullOriginalText, contentToEncrypt,
             None, None, None, None, None, false, false)
  }

  /** `isPrivateMessage()`: a recipient that is not `null` and not blank
      after `trim()`. */
  predicate IsPrivate(e: Envelope)
  {
    e.recipient.Some? && Trim(e.recipient.value) != []
  }

  /** A message is private exactly when it names a recipient containing a
      character above U+0020; a `null` recipient means the whole group. */
  lemma PrivateIffVisibleRecipient(e: Envelope)
    ensures IsPrivate(e) <==>
      e.recipient.Some? && exists i :: 0 <= i < |e.recipient.value| && !IsTrimmed(e.recipient.value[i])
    ensures e.recipient.None? ==> !IsPrivate(e)
  {
    if e.recipient.Some? {
      TrimEmptyIff(e.recipient.value);
    }
  }

  /** Java string concatenation of a possibly-`null` string. */
  function Show(s: Option<string>): string
  {
    match s
    case None => "null"
    case Some(v) => v
  }

  function ShowBool(b: bool): string
  {
    if b then "true" else "false"
  }

  /** The recipient as `toString` prints it: `GROUP` for `null`. */
  function RecipientLabel(r: Option<string>): string
  {
    match r
    case None => "GROUP"
    case Some(v) => v
  }

  /** `toString()` of a message in state `e` with the given `expanded` flag:
      the text before the recipient, the recipient, the text after it. */
  function Render(e: Envelope, expanded: bool): string
  {
    "Message{sender='" + Show(e.sender) + "', recipient='"
      + RecipientLabel(e.recipient)
      + RenderTail(e, expanded)
  }

  function RenderTail(e: Envelope, expanded: bool): string
  {
    "', finalDecryptedContent='" + Show(e.finalDecryptedContent) + "'"
      + ", errorDetected=" + ShowBool(e.errorDetected)
      + ", expanded=" + ShowBool(expanded)
      + "}"
  }

  /** Two strings that differ only in one middle part are different. */
  lemma MiddleDiffers(p: string, a: string, b: string, q: string)
    requires a != b
    ensures p + a + q != p + b + q
  {
    if |a| == |b| {
      assert (p + a + q)[|p|..|p| + |a|] == a;
      assert (p + b + q)[|p|..|p| + |b|] == b;
    } else {
      assert |p + a + q| != |p + b + q|;
    }
  }

  /** A group message prints exactly like a message addressed to a user
      called `GROUP`, and differently from one addressed to anyone else. */
  lemma RenderGroup(e: Envelope, expanded: bool, name: string)
    requires e.recipient.None?
    ensures Render(e, expanded) == Render(e.(recipient := Some("GROUP")), expanded)
    ensures name != "GROUP" ==> Render(e, expanded) != Render(e.(recipient := Some(name)), expanded)
  {
    var p := "Message{sender='" + Show(e.sender) + "', recipient='";
    var q := RenderTail(e, expanded);
    if name != "GROUP" {
      MiddleDiffers(p, "GROUP", name, q);
    }
  }

  /** A chat message. The fields change one at a time through the setters;
      `Wire()` is what is serialised. */
  class Message {
    var sender: Option<string>
    var recipient: Option<string>
    var fullOriginalText: Option<string>
    var contentToEncrypt: Option<string>
    var encryptedContentBase64: Option<string>
    var hammingEncodedBinary: Option<string>
    var erroredHammingBinary: Option<string>
    var correctedHammingBinary: Option<string>
    var finalDecryptedContent: Option<string>
    var errorDetected: bool
    var errorCorrected: bool
    var expanded: bool

    function Wire(): Envelope
      reads this
    {
      Envelope(sender, recipient, fullOriginalText, contentToEncrypt,
               encryptedContentBase64, hammingEncodedBinary, erroredHammingBinary,
               correctedHammingBinary, finalDecryptedContent, errorDetected, errorCorrected)
    }

    /** The client's constructor: the four given fields, nothing else set. */
    constructor (sender: Option<string>, fullOriginalText: Option<string>,
                 recipient: Option<string>, contentToEncrypt: Option<string>)
      ensures Wire() == Created(sender, fullOriginalText, recipient, contentToEncrypt)
      ensures !expanded
    {
      this.sender := sender;
      this.fullOriginalText := fullOriginalText;
      this.recipient := recipient;
      this.contentToEncrypt := contentToEncrypt;
      encryptedContentBase64 := None;
      hammingEncodedBinary := None;
      erroredHammingBinary := None;
      correctedHammingBinary := None;
      finalDecryptedContent := None;
      errorDetected := false;
      errorCorrected := false;
      expanded := false;
    }

    /** A message as `ObjectInputStream.readObject` rebuilds it from its
        serialised state; the transient `expanded` flag takes its default. */
    constructor FromWire(e: Envelope)
      ensures Wire() == e && !expanded
    {
      sender, recipient, fullOriginalText, contentToEncrypt := e.sender, e.recipient, e.fullOriginalText, e.contentToEncrypt;
      encryptedContentBase64, hammingEncodedBinary := e.encryptedContentBase64, e.hammingEncodedBinary;
      erroredHammingBinary, correctedHammingBinary := e.erroredHammingBinary, e.correctedHammingBinary;
      finalDecryptedContent, errorDetected, errorCorrected := e.finalDecryptedContent, e.errorDetected, e.errorCorrected;
      expanded := false;
    }

    predicate IsPrivateMessage()
      reads this
    {
      IsPrivate(Wire())
    }

    function ToString(): string
      reads this
    {
      Render(Wire(), expanded)
    }

    method SetSender(sender: Option<string>)
      modifies this
      ensures Wire() == old(Wire()).(sender := sender) && expanded == old(expanded)
    {
      this.sender := sender;
    }

    method SetEncryptedContentBase64(encryptedContentBase64: Option<string>)
      modifies this
      ensures Wire() == old(Wire()).(encryptedContentBase64 := encryptedContentBase64)
      ensures expanded == old(expanded)
    {
      this.encryptedContentBase64 := encryptedContentBase64;
    }

    method SetContentToEncrypt(contentToEncrypt: Option<string>)
      modifies this
      ensures Wire() == old(Wire()).(contentToEncrypt := contentToEncrypt)
      ensures expanded == old(expanded)
    {
      this.contentToEncrypt := contentToEncrypt;
    }

    method SetFullOriginalText(fullOriginalText: Option<string>)
      modifies this
      ensures Wire() == old(Wire()).(fullOriginalText := fullOriginalText)
      ensures expanded == old(expanded)
    {
      this.fullOriginalText := fullOriginalText;
    }

    method SetRecipient(recipient: Option<string>)
      modifies this
      ensures Wire() == old(Wire()).(recipient := recipient) && expanded == old(expanded)
    {
      this.recipient := recipient;
    }

    /** Only the UI's expand/collapse toggle changes `expanded`, and it leaves
        the serialised state alone. */
    method SetExpanded(expanded: bool)
      modifies this
      ensures this.expanded == expanded && Wire() == old(Wire())
    {
      this.expanded := expanded;
    }

    /** A second setter, under a misspelt name, for the same field as
        `SetEncryptedContentBase64`. */
    method SetEncryptedContentBase66(encryptedContentBase64: Option<string>)
      modifies this
      ensures Wire() == old(Wire()).(encryptedContentBase64 := encryptedContentBase64)
      ensures expanded == old(expanded)
    {
      this.encryptedContentBase64 := encryptedContentBase64;
    }

    method SetHammingEncodedBinary(hammingEncodedBinary: Option<string>)
      modifies this
      ensures Wire() == old(Wire()).(hammingEncodedBinary := hammingEncodedBinary)
      ensures expanded == old(expanded)
    {
      this.hammingEncodedBinary := hammingEncodedBinary;
    }

    method SetErroredHammingBinary(erroredHammingBinary: Option<string>)
      modifies this
      ensures Wire() == old(Wire()).(erroredHammingBinary := erroredHammingBinary)
      ensures expanded == old(expanded)
    {
      this.erroredHammingBinary := erroredHammingBinary;
    }

    method SetCorrectedHammingBinary(correctedHammingBinary: Option<string>)
      modifies this
      ensures Wire() == old(Wire()).(correctedHammingBinary := correctedHammingBinary)
      ensures expanded == old(expanded)
    {
      this.correctedHammingBinary := correctedHammingBinary;
    }

    method SetFinalDecryptedContent(finalDecryptedContent: Option<string>)
      modifies this
      ensures Wire() == old(Wire()).(finalDecryptedContent := finalDecryptedContent)
      ensures expanded == old(expanded)
    {
      this.finalDecryptedContent := finalDecryptedContent;
    }

    method SetErrorDetected(errorDetected: bool)
      modifies this
      ensures Wire() == old(Wire()).(errorDetected := errorDetected) && expanded == old(expanded)
    {
      this.errorDetected := errorDetected;
    }

    method SetErrorCorrected(errorCorrected: bool)
      modifies this
      ensures Wire() == old(Wire()).(errorCorrected := errorCorrected) && expanded == old(expanded)
    {
      this.errorCorrected := errorCorrected;
    }
  }
}
