/** The chat client (`com.somnath.client.Client`): how a line typed by the
    user becomes the `Message` written to the server, and the small
    comparison helper `findFirstDifference`. */
module ChatClient {
  import opened Wrappers
  import opened JavaLang
  import opened Messages
  import opened HammingUtil
  import opened Crypto

  // ---------------------------------------------------------------------
  // The pattern ^@(\w+)\s+(.*) under Matcher.matches()
  // ---------------------------------------------------------------------

  /** `\w` of `java.util.regex` without flags: ASCII letters, digits and
      '_'. */
  predicate IsWordChar(c: char)
  {
    ('a' <= c <= 'z') || ('A' <= c <= 'Z') || ('0' <= c <= '9') || c == '_'
  }

  /** `\s` without flags: space, tab, newline, vertical tab, form feed and
      carriage return. */
  predicate IsSpaceChar(c: char)
  {
    c == ' ' || c == '\t' || c == '\n' || c == '\U{000B}' || c == '\U{000C}' || c == '\r'
  }

  /** The line terminators that `.` does not match without `DOTALL`. */
  predicate IsLineTerminator(c: char)
  {
    c == '\n' || c == '\r' || c == '\U{0085}' || c == '\U{2028}' || c == '\U{2029}'
  }

  /** Every character of `s` is one that `.` matches. */
  predicate SingleLine(s: string)
  {
    forall i :: 0 <= i < |s| ==> !IsLineTerminator(s[i])
  }

  /** The two classes the pattern repeats. */
  datatype CharClass = Word | Space

  predicate InClass(c: char, k: CharClass)
  {
    match k
    case Word => IsWordChar(c)
    case Space => IsSpaceChar(c)
  }

  predicate AllIn(s: string, k: CharClass)
  {
    forall i :: 0 <= i < |s| ==> InClass(s[i], k)
  }

  /** The length of the longest prefix of `s` made of characters of the
      class: how far a greedy `X+` or `X*` runs. */
  function Span(s: string, k: CharClass): (n: nat)
    ensures n <= |s| && AllIn(s[..n], k)
    ensures n < |s| ==> !InClass(s[n], k)
  {
    if s != [] && InClass(s[0], k) then 1 + Span(s[1..], k) else 0
  }

  /** What `matches()` of `^@(\w+)\s+(.*)` on `t` yields: groups 1 and 2, or
      `None` when the whole of `t` does not match. Group 1 has to be the
      whole run of word characters, since a word character cannot start
      `\s+`; the greedy `\s+` takes the whole run of spaces after it, and
      a line terminator left after that defeats every shorter choice too. */
  function MatchPrivate(t: string): Option<(string, string)>
  {
    if t == [] || t[0] != '@' then None else MatchMention(t[1..])
  }

  /** `(\w+)\s+(.*)` matched against the text after the '@'. */
  function MatchMention(u: string): Option<(string, string)>
  {
    var n := Span(u, Word);
    var rest := u[n..];
    var g := Span(rest, Space);
    if n == 0 || g == 0 || !SingleLine(rest[g..]) then None
    else Some((u[..n], rest[g..]))
  }

  /** `t` reads as '@', a name of word characters, a gap of spaces and a
      body on one line: one way for the whole pattern to match `t`. */
  predicate PrivateForm(t: string, name: string, gap: string, body: string)
  {
    t != [] && t[0] == '@' && MentionForm(t[1..], name, gap, body)
  }

  predicate MentionForm(u: string, name: string, gap: string, body: string)
  {
    && u == name + gap + body
    && name != [] && AllIn(name, Word)
    && gap != [] && AllIn(gap, Space)
    && SingleLine(body)
  }

  /** A span over a prefix of class characters runs on into what follows. */
  lemma {:induction false} SpanAppend(a: string, b: string, k: CharClass)
    requires AllIn(a, k)
    ensures Span(a + b, k) == |a| + Span(b, k)
  {
    if a != [] {
      assert (a + b)[1..] == a[1..] + b;
      SpanAppend(a[1..], b, k);
    } else {
      assert a + b == b;
    }
  }

  /** When the pattern matches, its groups give a way for it to match. */
  lemma MatchSound(t: string)
    requires MatchPrivate(t).Some?
    ensures exists gap :: PrivateForm(t, MatchPrivate(t).value.0, gap, MatchPrivate(t).value.1)
  {
    var u := t[1..];
    MentionSound(u);
    var (name, body) := MatchMention(u).value;
    var gap := u[|name|..|u| - |body|];
    assert PrivateForm(t, name, gap, body);
  }

  lemma MentionSound(u: string)
    requires MatchMention(u).Some?
    ensures var (name, body) := MatchMention(u).value;
      |name| + |body| <= |u| && MentionForm(u, name, u[|name|..|u| - |body|], body)
  {
    var n := Span(u, Word);
    var rest := u[n..];
    var g := Span(rest, Space);
    assert rest[..g] == u[n..|u| - |rest[g..]|];
    assert u == u[..n] + rest[..g] + rest[g..];
  }

  /** Whenever the pattern can match `t`, `MatchPrivate` finds the same
      name, and as group 2 the body without the spaces that the greedy
      `\s+` takes from its front. So the name is fixed by `t`. */
  lemma MatchComplete(t: string, name: string, gap: string, body: string)
    requires PrivateForm(t, name, gap, body)
    ensures MatchPrivate(t) == Some((name, body[Span(body, Space)..]))
  {
    assert t[1..] == name + (gap + body);
    MentionComplete(name, gap + body, gap, body);
  }

  lemma MentionComplete(name: string, rest: string, gap: string, body: string)
    requires rest == gap + body
    requires name != [] && AllIn(name, Word) && gap != [] && AllIn(gap, Space) && SingleLine(body)
    ensures MatchMention(name + rest) == Some((name, body[Span(body, Space)..]))
  {
    var u := name + rest;
    NameSpan(name, rest);
    assert u[..|name|] == name && u[|name|..] == rest;
    SpanAppend(gap, body, Space);
    var k := Span(body, Space);
    assert rest[|gap| + k..] == body[k..];
    SingleLineSuffix(body, k);
  }

  /** The word run of '@name gap...' stops where the gap starts. */
  lemma NameSpan(name: string, rest: string)
    requires AllIn(name, Word) && rest != [] && IsSpaceChar(rest[0])
    ensures Span(name + rest, Word) == |name|
  {
    SpanAppend(name, rest, Word);
  }

  lemma SingleLineSuffix(s: string, k: nat)
    requires SingleLine(s) && k <= |s|
    ensures SingleLine(s[k..])
  {
    forall i | 0 <= i < |s| - k ensures !IsLineTerminator(s[k..][i]) {
      assert s[k..][i] == s[k + i];
    }
  }

  // ---------------------------------------------------------------------
  // Parsing a typed line
  // ---------------------------------------------------------------------

  /** The recipient (`None` for the whole group) and the content that
      `sendMessage` takes from the typed text: the trimmed text is matched
      against the pattern; on a match the recipient is group 1 and the
      content group 2 trimmed, otherwise the content is the trimmed text. */
  function Parse(fullOriginalText: string): (Option<string>, string)
  {
    var trimmed := Trim(fullOriginalText);
    match MatchPrivate(trimmed)
    case Some((name, body)) => (Some(name), Trim(body))
    case None => (None, trimmed)
  }

  /** A mention with nothing after it does not match, since `\s+` needs a
      space: `"@bob"` goes to the whole group, as the text `"@bob"`. */
  lemma ParseBareMention()
    ensures Parse("@bob") == (None, "@bob")
  {
    assert TrimStart("@bob") == "@bob";
    assert TrimEnd("@bob") == "@bob";
    assert Span("@bob"[1..], Word) == 3 by {
      assert "@bob"[1..] == "bob";
      assert "bob"[1..] == "ob" && "ob"[1..] == "b" && "b"[1..] == [];
    }
  }

  /** The content is empty exactly when the typed text is blank: a private
      message never loses its whole body to trimming, because the trimmed
      text ends with a character that `trim` keeps. */
  lemma ParseEmptyIff(fullOriginalText: string)
    ensures Parse(fullOriginalText).1 == [] <==> Trim(fullOriginalText) == []
  {
    var trimmed := Trim(fullOriginalText);
    TrimShape(fullOriginalText);
    var m := MatchPrivate(trimmed);
    if m.Some? {
      var (name, body) := m.value;
      MatchSound(trimmed);
      assert body == trimmed[|trimmed| - |body|..];
      assert body[|body| - 1] == trimmed[|trimmed| - 1];
      TrimEmptyIff(body);
    }
  }

  /** A parsed recipient makes the message private on the server, and the
      group case keeps the whole trimmed text as content. */
  lemma ParseRecipient(fullOriginalText: string)
    ensures var (recipient, content) := Parse(fullOriginalText);
      && (recipient.Some? ==>
            && recipient.value != [] && AllIn(recipient.value, Word)
            && IsPrivate(Created(None, None, recipient, None)))
      && (recipient.None? ==> content == Trim(fullOriginalText))
  {
    var m := MatchPrivate(Trim(fullOriginalText));
    if m.Some? {
      var name := m.value.0;
      MatchSound(Trim(fullOriginalText));
      NameIsVisible(name);
    }
  }

  /** A name of word characters survives `trim`. */
  lemma NameIsVisible(name: string)
    requires name != [] && AllIn(name, Word)
    ensures Trim(name) != []
  {
    TrimEmptyIff(name);
    assert IsWordChar(name[0]);
  }

  // ---------------------------------------------------------------------
  // The client and sendMessage
  // ---------------------------------------------------------------------

  /** What the client writes to its object stream: its user name once,
      then messages as serialised at the time of writing. */
  datatype Outbound = UsernameObject(name: string) | MessageObject(message: Envelope)

  /** Every draw of `Random.nextInt(bound)` lies below its positive bound. */
  ghost predicate IsDraw(nextInt: nat -> nat)
  {
    forall bound: nat :: 0 < bound ==> nextInt(bound) < bound
  }

  class Client {
    const username: string
    /** `socket != null && socket.isConnected()`. */
    var connected: bool
    /** `outputStream != null`. */
    var streamOpen: bool
    /** `serverPublicKey != null`. */
    var serverKeyReceived: bool
    /** Every object written to `outputStream`, in order. */
    var sent: seq<Outbound>
    /** `RSAUtil.stringToBytes`, the UTF-8 encoding. */
    const stringToBytes: string -> Bytes
    /** `RSAUtil.encrypt` with the server's public key. */
    const encrypt: Cipher
    /** `RSAUtil.bytesToBase64`. */
    const bytesToBase64: Bytes -> string

    /** A client before `startClient`: no socket, no stream, no key. */
    constructor (username: string, stringToBytes: string -> Bytes, encrypt: Cipher, bytesToBase64: Bytes -> string)
      ensures this.username == username && this.stringToBytes == stringToBytes
      ensures this.encrypt == encrypt && this.bytesToBase64 == bytesToBase64
      ensures !connected && !streamOpen && !serverKeyReceived && sent == []
    {
      this.username := username;
      this.stringToBytes := stringToBytes;
      this.encrypt := encrypt;
      this.bytesToBase64 := bytesToBase64;
      connected, streamOpen, serverKeyReceived := false, false, false;
      sent := [];
    }

    predicate CanSend()
      reads this
    {
      connected && streamOpen && serverKeyReceived
    }

    /** The steps of `startClient` that succeed on connecting: the socket
        and the streams are open, the server's key has arrived, and the
        user name is the first object written. */
    method Connect()
      modifies this
      ensures CanSend()
      ensures sent == old(sent) + [UsernameObject(username)]
    {
      connected := true;
      streamOpen := true;
      serverKeyReceived := true;
      sent := sent + [UsernameObject(username)];
    }

    /** The message `sendMessage(fullOriginalText)` writes, if any, when
        `nextInt` gives the draw for the simulated error: nothing for blank
        input or when encryption throws; otherwise the envelope built from
        the parse, carrying the Base64 ciphertext, its Hamming encoding
        and that encoding with one character flipped. */
    function Outgoing(fullOriginalText: string, nextInt: nat -> nat): Option<Envelope>
      requires IsDraw(nextInt)
    {
      var (recipient, content) := Parse(fullOriginalText);
      if content == [] then None
      else match encrypt(stringToBytes(content))
        case Failure(_) => None
        case Success(cipher) =>
          var encoded := Encoded(BitsOfBytes(cipher));
          Some(Created(Some(username), Some(Trim(fullOriginalText)), recipient, Some(content))
            .(encryptedContentBase64 := Some(bytesToBase64(cipher)),
              hammingEncodedBinary := Some(encoded),
              erroredHammingBinary := SimulateError(Some(encoded), ErrorIndex(encoded, nextInt))))
    }

    /** `sendMessage`: when connected with the server's key, the parsed,
        encrypted, encoded and corrupted message is written; otherwise, or
        for blank input, or when encryption throws, nothing is. */
    method SendMessage(fullOriginalText: string, nextInt: nat -> nat)
      requires IsDraw(nextInt)
      modifies this
      ensures connected == old(connected) && streamOpen == old(streamOpen)
      ensures serverKeyReceived == old(serverKeyReceived)
      ensures sent == old(sent) +
        if old(CanSend()) && Outgoing(fullOriginalText, nextInt).Some?
        then [MessageObject(Outgoing(fullOriginalText, nextInt).value)] else []
    {
      if !(connected && streamOpen && serverKeyReceived) {
        return;
      }
      var messageToSend := Compose(fullOriginalText, nextInt);
      if messageToSend.Some? {
        sent := sent + [MessageObject(messageToSend.value.Wire())];
      }
    }

    /** The body of `sendMessage` after the connection check, up to the
        write: the message it builds, or `None` where it returns early or
        encryption throws. */
    method Compose(fullOriginalText: string, nextInt: nat -> nat) returns (messageToSend: Option<Message>)
      requires IsDraw(nextInt)
      ensures messageToSend.None? <==> Outgoing(fullOriginalText, nextInt).None?
      ensures messageToSend.Some? ==> messageToSend.value.Wire() == Outgoing(fullOriginalText, nextInt).value
    {
      var trimmed := Trim(fullOriginalText);
      var recipient: Option<string> := None;
      var contentToEncrypt := trimmed;
      var matcher := MatchPrivate(trimmed);
      if matcher.Some? {
        recipient := Some(matcher.value.0);
        contentToEncrypt := Trim(matcher.value.1);
      }
      assert (recipient, contentToEncrypt) == Parse(fullOriginalText);
      if contentToEncrypt == [] {
        return None;
      }
      var message := new Message(Some(username), Some(trimmed), recipient, Some(contentToEncrypt));
      var encrypted := encrypt(stringToBytes(contentToEncrypt));
      if encrypted.Failure? {
        return None;
      }
      var encryptedBytes := encrypted.value;
      message.SetEncryptedContentBase64(Some(bytesToBase64(encryptedBytes)));
      var encryptedBinary := BytesToBinaryString(encryptedBytes);
      var hammingEncoded := Encode(encryptedBinary);
      message.SetHammingEncodedBinary(Some(hammingEncoded));
      var erroredHamming := SimulateError(Some(hammingEncoded), ErrorIndex(hammingEncoded, nextInt));
      message.SetErroredHammingBinary(erroredHamming);
      messageToSend := Some(message);
    }
  }

  /** `sendMessage` writes nothing exactly for blank input and for content
      that encryption rejects. */
  lemma OutgoingNoneIff(client: Client, fullOriginalText: string, nextInt: nat -> nat)
    requires IsDraw(nextInt)
    ensures client.Outgoing(fullOriginalText, nextInt).None? <==>
      || Trim(fullOriginalText) == []
      || client.encrypt(client.stringToBytes(Parse(fullOriginalText).1)).Failure?
  {
    ParseEmptyIff(fullOriginalText);
  }

  /** The message written carries the user name, the trimmed text, the
      parsed recipient and content; its Hamming field encodes the bits of
      the ciphertext; its errored field differs from that in exactly the
      drawn position, or equals it when the ciphertext is empty; it is
      private exactly when a recipient was parsed; and the fields the
      server fills in are still unset. */
  lemma OutgoingShape(client: Client, fullOriginalText: string, nextInt: nat -> nat)
    requires IsDraw(nextInt)
    requires client.Outgoing(fullOriginalText, nextInt).Some?
    ensures var e := client.Outgoing(fullOriginalText, nextInt).value;
      var (recipient, content) := Parse(fullOriginalText);
      var cipher := client.encrypt(client.stringToBytes(content)).value;
      var encoded := Encoded(BitsOfBytes(cipher));
      var j := ErrorIndex(encoded, nextInt);
      && e.sender == Some(client.username)
      && e.fullOriginalText == Some(Trim(fullOriginalText))
      && e.recipient == recipient && e.contentToEncrypt == Some(content) && content != []
      && e.encryptedContentBase64 == Some(client.bytesToBase64(cipher))
      && e.hammingEncodedBinary == Some(encoded)
      && e.erroredHammingBinary.Some? && |e.erroredHammingBinary.value| == |encoded|
      && (cipher == [] ==> encoded == [] && e.erroredHammingBinary.value == [])
      && (cipher != [] ==> forall k :: 0 <= k < |encoded| ==>
            (e.erroredHammingBinary.value[k] != encoded[k] <==> k == j))
      && (IsPrivate(e) <==> recipient.Some?)
      && e.correctedHammingBinary.None? && e.finalDecryptedContent.None?
      && !e.errorDetected && !e.errorCorrected
  {
    var (recipient, content) := Parse(fullOriginalText);
    ParseRecipient(fullOriginalText);
    var cipher := client.encrypt(client.stringToBytes(content)).value;
    var encoded := Encoded(BitsOfBytes(cipher));
    DecodeEncodeBytes(cipher);
    EncodedLength(BitsOfBytes(cipher));
  }

  /** The message written is consistent with its own `fullOriginalText`:
      parsing the trimmed text it records gives back its recipient and its
      content, because trimming twice is trimming once. */
  lemma OutgoingReparses(client: Client, fullOriginalText: string, nextInt: nat -> nat)
    requires IsDraw(nextInt)
    requires client.Outgoing(fullOriginalText, nextInt).Some?
    ensures var e := client.Outgoing(fullOriginalText, nextInt).value;
      && e.fullOriginalText.Some? && e.contentToEncrypt.Some?
      && Parse(e.fullOriginalText.value) == (e.recipient, e.contentToEncrypt.value)
  {
    TrimIdempotent(fullOriginalText);
  }

  /** The index `simulateError` flips: a draw below the length, taken only
      for a non-empty string. */
  function ErrorIndex(encoded: string, nextInt: nat -> nat): (i: nat)
    requires IsDraw(nextInt)
    ensures encoded != [] ==> i < |encoded|
  {
    if encoded == [] then 0 else nextInt(|encoded|)
  }

  // ---------------------------------------------------------------------
  // findFirstDifference
  // ---------------------------------------------------------------------

  /** `d` is where `s1` and `s2` first differ: the first unequal position
      within the shorter length, else the shorter length when the lengths
      differ, else -1. */
  predicate IsFirstDifference(s1: string, s2: string, d: int)
  {
    if s1 == s2 then d == -1
    else
      && 0 <= d <= |s1| && d <= |s2|
      && s1[..d] == s2[..d]
      && (d == |s1| || d == |s2| || s1[d] != s2[d])
  }

  /** At most one index is the first difference. */
  lemma FirstDifferenceUnique(s1: string, s2: string, d: int, e: int)
    requires IsFirstDifference(s1, s2, d) && IsFirstDifference(s1, s2, e)
    ensures d == e
  {
  }

  method FindFirstDifference(s1: string, s2: string) returns (d: int)
    ensures IsFirstDifference(s1, s2, d)
  {
    var minLength := if |s1| < |s2| then |s1| else |s2|;
    for i := 0 to minLength
      invariant s1[..i] == s2[..i]
    {
      if s1[i] != s2[i] {
        return i;
      }
    }
    if |s1| != |s2| {
      return minLength;
    }
    assert s1 == s1[..minLength] && s2 == s2[..minLength];
    return -1;
  }

  /** A single flipped character is found at its index, which is how the
      client checks where `simulateError` struck. */
  lemma FlipIsFirstDifference(s: string, i: nat)
    requires i < |s|
    ensures IsFirstDifference(s, FlipAt(s, i), i)
  {
    FlipAtElsewhere(s, i);
    assert s[..i] == FlipAt(s, i)[..i];
  }
}
