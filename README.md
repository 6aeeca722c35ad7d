# Encrypted chat with Hamming(7,4): a verified model

This project models the message pipeline of a small Java chat system in
Dafny and proves what it does.

A client parses the line the user typed (`@name body` for a private message,
anything else for the group). It encrypts the content with the server's RSA
public key, turns the ciphertext into a string of '0'/'1' characters, and
encodes that string with a Hamming(7,4) code. It then flips one randomly
chosen character to simulate a transmission error, and writes the `Message`
object to the server.

The server keeps a registry from user names to client handlers. For each
connection it sends its public key, reads a user name, and registers it if
the name is not blank and not taken. It then loops over the incoming
messages. For each one it corrects the errored binary, decodes it, packs it
into bytes, decrypts it (or records a failure marker), and routes it:

- a private message goes to the sender and the recipient;
- a private message to an unknown name goes back to the sender, with a
  server notice;
- a group message goes to every registered handler.

When the session ends, the server removes the session's user name from the
registry.

Files:

- `wrappers.dfy`: `Option` and `Result`.
- `java_lang.dfy`: Java's `^` and `|` on `int`, `Integer.toString`, and
  `String.trim`.
- `message.dfy`: the `Message` record. Its serialised state is
  `Messages.Envelope`. `Messages.Message` is a class whose setters change
  one field each.
- `crypto.dfy`: the shapes of the RSA and encoding helpers. They are
  parameters of the model.
- `hamming_util.dfy`: `HammingUtil`, written as methods with loops. Each
  method is proved equal to a specification function, and lemmas about
  those functions state what the code guarantees.
- `server.dfy`: `Server` and `ClientHandler` as classes. The registry is a
  `map`. Everything written to any client is appended to one delivery log.
- `client.dfy`: the `@name` parser, `Client.sendMessage` and
  `findFirstDifference`.
- `pipeline.dfy`: lemmas that connect what the client writes to what the
  server's pipeline recovers.

What the code does, as proved here:

- A flip at index 2 or 3 of a seven-character block is not repaired. The
  block layout is `p0 p1 p2 d3 d2 d1 d0`, and the syndrome
  `(s2 << 2) | (s1 << 1) | s0` is treated as the 1-based error position.
  The comment in `correctError` says it is one, but it is not in this
  layout:
  - A flip at index 2 gives syndrome 4, so the correction flips index 3.
  - A flip at index 3 gives syndrome 3, so the correction flips index 2.

  The model follows the code:
  - `HammingUtil.CorrectFlippedCodeword` and `HammingUtil.SingleFlipOutcome`
    state this.
  - `EndToEnd.DeliveredCiphertext` shows that the server then decrypts bytes
    other than the ciphertext sent.

  Flips at indices 0, 1, 4, 5 and 6 are repaired.
- Every accepted connection gets a new `ClientHandler`
  (`Server.java` line 40). A session therefore starts with a handler that
  holds no name in the registry, and `Handshake` and `Run` require that.
  Then no handler is ever registered under two names
  (`ChatServer.RegistryStaysInjective`), so a group message reaches each
  registered handler exactly once (`ChatServer.BroadcastReachesEach`).
- The line `"@bob"` does not match the private-message pattern, because
  `\s+` needs at least one space after the name. It is sent to the group
  with the content `"@bob"` (`ChatClient.ParseBareMention`).

## Model

| member | source | states |
|---|---|---|
| JavaLang.TrimShape | src/main/java/com/somnath/common/Message.java:73 | `trim()` keeps a contiguous middle part that starts and ends with a character above U+0020, and drops only characters up to U+0020 |
| JavaLang.TrimEmptyIff | src/main/java/com/somnath/common/Message.java:73 | `s.trim().isEmpty()` holds exactly when every character of `s` is at most U+0020 |
| JavaLang.TrimIdempotent | src/main/java/com/somnath/client/Client.java:126-147 | trimming an already trimmed string changes nothing, so the trimmed text a message records parses as the typed text did |
| Messages.Message.constructor | src/main/java/com/somnath/common/Message.java:53-59 | the four given fields are set; every other string is null; both error flags and `expanded` are false |
| Messages.Message.FromWire | src/main/java/com/somnath/common/Message.java:49 | a deserialised message has exactly the serialised fields; the transient `expanded` starts false |
| Messages.Message.SetSender | src/main/java/com/somnath/common/Message.java:26-28 | only `sender` changes |
| Messages.Message.SetEncryptedContentBase64 | src/main/java/com/somnath/common/Message.java:30-32 | only `encryptedContentBase64` changes |
| Messages.Message.SetContentToEncrypt | src/main/java/com/somnath/common/Message.java:34-36 | only `contentToEncrypt` changes |
| Messages.Message.SetFullOriginalText | src/main/java/com/somnath/common/Message.java:38-40 | only `fullOriginalText` changes |
| Messages.Message.SetRecipient | src/main/java/com/somnath/common/Message.java:42-44 | only `recipient` changes |
| Messages.Message.SetExpanded | src/main/java/com/somnath/common/Message.java:79 | only `expanded` changes, and the serialised state stays the same |
| Messages.Message.SetEncryptedContentBase66 | src/main/java/com/somnath/common/Message.java:84 | the misspelt setter writes `encryptedContentBase64` and nothing else |
| Messages.Message.SetHammingEncodedBinary | src/main/java/com/somnath/common/Message.java:85 | only `hammingEncodedBinary` changes |
| Messages.Message.SetErroredHammingBinary | src/main/java/com/somnath/common/Message.java:86 | only `erroredHammingBinary` changes |
| Messages.Message.SetCorrectedHammingBinary | src/main/java/com/somnath/common/Message.java:89 | only `correctedHammingBinary` changes |
| Messages.Message.SetFinalDecryptedContent | src/main/java/com/somnath/common/Message.java:90 | only `finalDecryptedContent` changes |
| Messages.Message.SetErrorDetected | src/main/java/com/somnath/common/Message.java:91 | only `errorDetected` changes |
| Messages.Message.SetErrorCorrected | src/main/java/com/somnath/common/Message.java:92 | only `errorCorrected` changes |
| Messages.PrivateIffVisibleRecipient | src/main/java/com/somnath/common/Message.java:73 | `isPrivateMessage` holds exactly when the recipient is not null and has a character above U+0020; a null recipient is never private |
| Messages.RenderGroup | src/main/java/com/somnath/common/Message.java:96-105 | `toString` prints a null recipient as `GROUP`: the same text as for a recipient named `GROUP`, and different from any other recipient |
| HammingUtil.BitsOfBytes | src/main/java/com/somnath/common/HammingUtil.java:13-24 | the bit string has exactly eight characters per byte, each '0' or '1' |
| HammingUtil.BitsOfBytesAt | src/main/java/com/somnath/common/HammingUtil.java:15-21 | character `8k + j` is bit `j` of byte `k`, counted from the most significant bit |
| HammingUtil.BytesToBinaryString | src/main/java/com/somnath/common/HammingUtil.java:13-24 | the nested loop appends exactly `BitsOfBytes(bytes)` |
| HammingUtil.BinaryStringToBytes | src/main/java/com/somnath/common/HammingUtil.java:30-46 | throws (`Failure`) when the length is not a multiple of 8; otherwise it returns the bytes packed from each group of eight characters |
| HammingUtil.BytesRoundTrip | src/main/java/com/somnath/common/HammingUtil.java:13-46 | `binaryStringToBytes(bytesToBinaryString(b))` is `b` |
| HammingUtil.BitsRoundTrip | src/main/java/com/somnath/common/HammingUtil.java:30-46 | for a '0'/'1' string of whole bytes, the conversion succeeds and converting back gives the string, so the result has length/8 bytes |
| HammingUtil.PadLength | src/main/java/com/somnath/common/HammingUtil.java:60 | `(4 - n % 4) % 4` is below 4 and brings `n` to a multiple of 4 |
| HammingUtil.Padded | src/main/java/com/somnath/common/HammingUtil.java:60-61 | the padded input is a multiple of 4 long, under 4 longer than the input, and starts with the input |
| HammingUtil.Encode | src/main/java/com/somnath/common/HammingUtil.java:58-87 | the loop appends exactly the specified encoding of the padded input |
| HammingUtil.EncodeBinaryBlock | src/main/java/com/somnath/common/HammingUtil.java:65-84 | a '0'/'1' data block encodes to seven bits forming a codeword `p0 p1 p2 d3 d2 d1 d0` with `p0 = d3^d2^d0`, `p1 = d3^d1^d0` and `p2 = d2^d1^d0` |
| HammingUtil.EncodedLength | src/main/java/com/somnath/common/HammingUtil.java:58-87 | the output is 7/4 times as long as the padded input, so it is `ceil(n/4)*7` long, and it is empty only for empty input |
| HammingUtil.Decode | src/main/java/com/somnath/common/HammingUtil.java:96-120 | throws (`Failure`) unless the length is a multiple of 7; otherwise the loop returns characters 3 to 6 of each block |
| HammingUtil.DecodeEncode | src/main/java/com/somnath/common/HammingUtil.java:58-120 | the encoding of a '0'/'1' string is whole codewords, and decoding it gives the input followed by the padding zeros |
| HammingUtil.DecodeEncodeBytes | src/main/java/com/somnath/common/HammingUtil.java:58-120 | the bits of whole bytes decode back exactly, because no padding is added |
| HammingUtil.AllCodewordsShape | src/main/java/com/somnath/common/HammingUtil.java:58-87 | a string of whole codewords has a length that is a multiple of 7 and contains only '0'/'1' |
| HammingUtil.FlipAt | src/main/java/com/somnath/common/HammingUtil.java:133-135 | the flip keeps the length and changes the chosen character |
| HammingUtil.FlipAtElsewhere | src/main/java/com/somnath/common/HammingUtil.java:133-135 | no other character changes, and a '0'/'1' string stays one |
| HammingUtil.FlipTwice | src/main/java/com/somnath/common/HammingUtil.java:134-135 | flipping the same '0'/'1' character twice restores the string |
| HammingUtil.SimulateError | src/main/java/com/somnath/common/HammingUtil.java:128-137 | null or empty input comes back unchanged; otherwise the length is kept and exactly the drawn position differs |
| HammingUtil.CorrectEachBlock | src/main/java/com/somnath/common/HammingUtil.java:157-210 | the block loop computes exactly the specified block-by-block correction and the any-block flag |
| HammingUtil.CorrectError | src/main/java/com/somnath/common/HammingUtil.java:148-218 | returns the corrected string (the input itself when its length is not a multiple of 7), and sets `errorDetected` and `errorCorrected` both to the detection flag, changing no other field |
| HammingUtil.SyndromeOfBits | src/main/java/com/somnath/common/HammingUtil.java:178-183 | on '0'/'1' blocks the syndrome is 4, 2 and 1 times the three parity mismatches |
| HammingUtil.CodewordIffSyndromeZero | src/main/java/com/somnath/common/HammingUtil.java:178-185 | a '0'/'1' block has syndrome 0 exactly when it is a codeword |
| HammingUtil.CorrectCodeword | src/main/java/com/somnath/common/HammingUtil.java:185-209 | a codeword is left alone and nothing is flagged |
| HammingUtil.CorrectCodewords | src/main/java/com/somnath/common/HammingUtil.java:157-217 | `correctError` on any `encode` output returns it unchanged with both flags false |
| HammingUtil.CorrectFlippedCodeword | src/main/java/com/somnath/common/HammingUtil.java:178-202 | a codeword with one flip is flagged; a flip at index 0, 1, 4, 5 or 6 is undone, while a flip at index 2 or 3 is answered by flipping the other of the two |
| HammingUtil.CorrectSingleFlipBlocks | src/main/java/com/somnath/common/HammingUtil.java:160-210 | in a string of codewords with one flipped character, only that character's block is changed by the correction, as for a single codeword, and the flag is set |
| HammingUtil.SingleFlipOutcome | src/main/java/com/somnath/common/HammingUtil.java:96-218 | after one flip in whole codewords, correction always flags it; decoding gives the original data unless the flip was at index 2 or 3, where the first data bit of that block comes back flipped |
| ChatServer.RegistryStaysInjective | src/main/java/com/somnath/server/Server.java:63-78 | adding a handler that holds no name yet, and removing any name, keep every handler under at most one name |
| ChatServer.Server.constructor | src/main/java/com/somnath/server/Server.java:21-28 | a new server has an empty registry and has sent nothing |
| ChatServer.Server.AddClient | src/main/java/com/somnath/server/Server.java:63-68 | the map gains `username` mapped to the handler, and nothing is sent |
| ChatServer.Server.RemoveClient | src/main/java/com/somnath/server/Server.java:71-78 | a null name leaves the map alone; otherwise exactly that name's entry is removed |
| ChatServer.Server.CreateErrorMessage | src/main/java/com/somnath/server/Server.java:125-131 | a new message with sender `SERVER`, no recipient, and the text as full text, content and final text |
| ChatServer.ErrorNoticeShape | src/main/java/com/somnath/server/Server.java:125-131 | a server notice is not private, all three text fields hold the text, and the pipeline fields are null and false |
| ChatServer.Server.RouteMessage | src/main/java/com/somnath/server/Server.java:91-122 | the registry is unchanged, and the log grows by the routed deliveries for some enumeration of the registry |
| ChatServer.Server.SendPrivate | src/main/java/com/somnath/server/Server.java:94-113 | the private branch appends the sender's copy, then the recipient's copy, nothing (for a message to oneself), or a not-found notice |
| ChatServer.RoutePrivate | src/main/java/com/somnath/server/Server.java:94-113 | the sender always gets the message first; a registered other recipient gets exactly one copy; a message to oneself gives exactly one copy; an unknown name gives the sender the message and then a `User '<name>' not found.` notice |
| ChatServer.Server.SendToAll | src/main/java/com/somnath/server/Server.java:114-121 | the loop appends one copy for each registered name, in the order of iteration |
| ChatServer.Listing | src/main/java/com/somnath/server/Server.java:117 | the iteration order lists every registered name exactly once |
| ChatServer.BroadcastCount | src/main/java/com/somnath/server/Server.java:117-119 | a broadcast over distinct names sends a handler as many copies as it has names in the list, and every copy is the message |
| ChatServer.BroadcastReachesEach | src/main/java/com/somnath/server/Server.java:114-121 | a group message reaches each handler once per registered name, so exactly once each when no handler holds two names (the sender included) and never a handler that holds none |
| ChatServer.ClientHandler.constructor | src/main/java/com/somnath/server/Server.java:144-152 | a new handler has no user name |
| ChatServer.ClientHandler.SendMessage | src/main/java/com/somnath/server/Server.java:271-283 | exactly one delivery of the message to this handler is logged |
| ChatServer.ClientHandler.Handshake | src/main/java/com/somnath/server/Server.java:166-197 | the key is sent first. A non-string or blank name registers nothing. A trimmed name already in use gets one "already in use" notice and no registration. Otherwise the map gains the trimmed name mapped to this handler, which is new to the registry, so no handler ends up under two names |
| ChatServer.SessionEnd | src/main/java/com/somnath/server/Server.java:173-266 | teardown undoes an accepted registration exactly; for a refused duplicate it deletes the existing holder's entry; with no name it leaves the map alone |
| ChatServer.RemoveAdded | src/main/java/com/somnath/server/Server.java:63-78 | removing a name just added to a map that lacked it gives the map back |
| ChatServer.ClientHandler.ProcessMessage | src/main/java/com/somnath/server/Server.java:209-244 | succeeds exactly when steps A to C do not throw. Then the message records the corrected binary, equal flags and the decrypted text or failure marker, and it is routed exactly once. Otherwise nothing is sent |
| ChatServer.ProcessedShape | src/main/java/com/somnath/server/Server.java:209-244 | the pipeline keeps every client field, sets both flags to the same value, and ends with decrypted text, `[DECRYPTION FAILED]` or `[DECRYPTION ERROR]` |
| ChatServer.TurnsSnoc | src/main/java/com/somnath/server/Server.java:201-245 | handling one more message appends exactly that message's turn to the deliveries of the messages before it |
| ChatServer.ClientHandler.ReceiveMessage | src/main/java/com/somnath/server/Server.java:201-245 | one read message goes through the pipeline; the loop carries on exactly when it gets through steps A to C; the registry is unchanged; the log grows by exactly that message's turn: nothing for a message that does not get through, otherwise the recorded message routed over some enumeration of the registry |
| ChatServer.ClientHandler.MessageLoop | src/main/java/com/somnath/server/Server.java:201-245 | the loop handles a prefix of the input in order; every handled message got through steps A to C; it stops early only at a message that does not; the registry is unchanged; the log grows by exactly the turns of the handled messages, one after the other, each routed over an enumeration of the registry |
| ChatServer.ClientHandler.Run | src/main/java/com/somnath/server/Server.java:160-268 | the whole session: the first write is the public key. The handshake decides admission. A refused session writes only its handshake replies. An accepted one writes the key and then exactly the turns of the messages it handles, routed over the registry with its own name added. Teardown leaves the map as `removeClient(username)` does after the handshake, and a registry with no handler under two names keeps that property |
| ChatClient.Span | src/main/java/com/somnath/client/Client.java:28 | the greedy run of a character class: all of it is in the class, and the next character is not |
| ChatClient.MatchSound | src/main/java/com/somnath/client/Client.java:125-136 | when `matches()` succeeds, the text is '@', the word of group 1, one or more spaces, and group 2 on one line |
| ChatClient.MatchComplete | src/main/java/com/somnath/client/Client.java:125-136 | whenever the text can match the pattern, `matches()` succeeds with that same name, and group 2 is the body without its leading spaces |
| ChatClient.ParseBareMention | src/main/java/com/somnath/client/Client.java:125-136 | `"@bob"` does not match, so it is a group message with the content `"@bob"` |
| ChatClient.ParseEmptyIff | src/main/java/com/somnath/client/Client.java:125-142 | the parsed content is empty exactly when the typed text is blank; a private message never has an empty body |
| ChatClient.ParseRecipient | src/main/java/com/somnath/client/Client.java:125-136 | a parsed recipient is a non-empty word and makes the message private on the server; otherwise the content is the whole trimmed text |
| ChatClient.OutgoingReparses | src/main/java/com/somnath/client/Client.java:125-147 | the message written records the trimmed typed text, and parsing that text gives back the message's own recipient and content |
| ChatClient.Client.constructor | src/main/java/com/somnath/client/Client.java:30-35 | a new client has no socket, no stream and no server key, and has written nothing |
| ChatClient.Client.Connect | src/main/java/com/somnath/client/Client.java:38-55 | after a successful connection the socket, stream and key are present, and the user name is written |
| ChatClient.Client.SendMessage | src/main/java/com/somnath/client/Client.java:118-187 | nothing is written without a socket, stream and key, for blank input, or when encryption throws; otherwise exactly the built message is written |
| ChatClient.Client.Compose | src/main/java/com/somnath/client/Client.java:125-167 | the parse, the empty-content guard and the step-by-step build produce exactly the specified outgoing message |
| ChatClient.OutgoingNoneIff | src/main/java/com/somnath/client/Client.java:139-186 | no message is written exactly when the trimmed input is empty or encryption throws |
| ChatClient.OutgoingShape | src/main/java/com/somnath/client/Client.java:147-167 | the message has the user name as sender, the trimmed text, and the parsed recipient and non-empty content. Its Hamming field is `encode(bytesToBinaryString(ciphertext))`. Its errored field differs from that in exactly the drawn position (or is equal, for an empty ciphertext). It is private exactly when a recipient was parsed. The server-side fields are unset |
| ChatClient.ErrorIndex | src/main/java/com/somnath/common/HammingUtil.java:133 | the drawn index is below the length of a non-empty string |
| ChatClient.FindFirstDifference | src/main/java/com/somnath/client/Client.java:190-199 | returns the first differing index within the shorter length; if one string is a strict prefix of the other, the shorter length; -1 if they are equal |
| ChatClient.FlipIsFirstDifference | src/main/java/com/somnath/client/Client.java:190-199 | for a one-character flip, the first difference is the flipped index |
| EndToEnd.DeliveredCiphertext | src/main/java/com/somnath/client/Client.java:150-167 | every message the client writes gets through the server's steps A to C. A non-empty ciphertext is always flagged. The server decrypts the ciphertext sent exactly when it is empty or the flip was at index 0, 1, 4, 5 or 6 of its block |
| EndToEnd.FlipOutcome | src/main/java/com/somnath/server/Server.java:209-219 | correcting, decoding and packing an encoded ciphertext with one flip gives the ciphertext back exactly when the flip is at a repairable index |
| EndToEnd.MisrepairedBytes | src/main/java/com/somnath/common/HammingUtil.java:30-46 | one wrong bit in the bits of whole bytes packs into other bytes |
| EndToEnd.ContentDelivered | src/main/java/com/somnath/server/Server.java:222-225 | with a matching RSA key pair and a round-tripping text encoding, a message whose flip is repairable arrives with exactly the content the user typed |

## Left out

- Sockets, object streams, the `ServerSocket.accept` loop, and the client's
  `listenForMessages` and `closeClient` are network I/O. Writing to a
  stream is modelled as appending to a log: the server's `deliveries` and
  the client's `sent`. Reading is modelled as a parameter: the handshake's
  first object and the message loop's `inbox`.
- `startClient` is modelled only by the state its successful path leaves
  (`Client.Connect`). Its failures and the receive loop are not modelled.
- Threads and `Collections.synchronizedMap` are not modelled. Each session
  runs alone on the shared server, so the race between `containsKey` and
  `addClient`, and the iteration over `values()` while another thread
  changes the map, are not modelled.
- RSA, Base64 and UTF-8 (`RSAUtil`) are library code. They are constant
  function parameters (`encrypt`, `decrypt`, `stringToBytes`,
  `bytesToString`, `bytesToBase64`). Decryption reports either bad padding
  or another failure. The server's public key is the token
  `ServerPublicKey`.
- `java.util.Random` is a parameter `nextInt` whose draws lie below their
  bound. Successive sends may use different draws.
- The iteration order of a `HashMap` is not determined by the source. The
  broadcast is proved for every order that lists each name once, and the
  order used is a ghost result.
- The message loop's input is the sequence `inbox` of messages read before
  the stream ends (`EOFException`, `SocketException`), a `null` is read, or
  an object that is not a `Message` arrives (`ClassCastException`). The
  reason the stream ended is not modelled, only that the loop stops and
  teardown follows.
- A message whose `erroredHammingBinary` is `null` (`NullPointerException`
  in `correctError`), or whose correction does not decode to whole bytes
  (`IllegalArgumentException` from `decode` or `binaryStringToBytes`), is
  not `Routable`. The loop stops at it and teardown follows, as when the
  exception leaves `run()`.
- A first object that is not a `String` throws nothing. It is the
  handshake input `None`: the session is refused without a reply and
  teardown leaves the registry alone.
- `ChatClient.Client.SendMessage`: an `IOException` from `writeObject` is
  caught and logged in the source. The model always completes the write.
- `HammingUtil.SimulateError` is modelled as a function, not as the source's
  in-place `StringBuilder.setCharAt` (a single step with no loop).
- Strings are sequences of Unicode scalar values, not of UTF-16 code units.
  A character outside the Basic Multilingual Plane is one element in the
  model but two `char`s in Java, and an unpaired surrogate cannot be
  written in the model at all. For such characters `length()`, `charAt`
  and `c - '0'` differ from the model. One example is a bit string of
  thirteen '0's followed by U+1F600. It is 14 long and decodes in the
  model, but in Java it is 15 long and `decode` throws. A client only
  sends '0' and '1', so this only matters for corrupted input.
- Java `int` overflow is not modelled, because nothing here can overflow:
  `c - '0'` and the syndrome stay far below 2^31. The `(byte)` cast in
  `binaryStringToBytes` is modelled.
- Console logging, `broadcastStatusMessage` (it only logs) and the UI status
  calls (`controller.displayStatus`) are not modelled.
- The getters of `Message` are not modelled. The class fields are read
  directly.
- The JavaFX user interface (`ChatController`, `AppLauncher`) and the
  `export.py` script are not part of this model.
