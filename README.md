# ZMQSocketWrapper in Dafny

This project models the core of `ZMQSocketWrapper`, the Java base class that
Micro-Manager's pycro-manager bridge uses for its ZeroMQ sockets. The class
does three things, and the model covers each of them.

- **Port table.** A static map from port number to wrapper. A new wrapper
  claims the lowest port from 4827 upward that is not yet a key.
  `close` removes the wrapper's own port. The model is the class
  `PortRegistry.PortTable`, with a `map<int, EndpointId>` field and a `while`
  loop. `PortRegistry.SocketWrapper` holds one wrapper's identity and port.
- **Sending.** `recurseBinaryData` walks a JSON message depth first and
  collects every `byte[]` value. Object keys are visited in iterator order
  and array elements by index. `sendMessage` then sends the message text in
  ISO-8859-1. After it, each collected array follows as two frames: a
  four-byte tag frame, then the payload. Every frame but the last carries
  the "more" flag.
- **Receiving.** `receiveMessage` parses the first frame as a JSON object.
  It then walks the remaining frames two at a time: a tag frame read as an
  `int`, then a payload. Each payload is put back with `insertByteBuffer`.
  That walk replaces string children that contain '@' and whose text after
  the first character parses to the tag.

The message is the datatype `Json.J`. Its leaves are strings, numbers,
booleans, null and raw byte arrays (`Blob`). A message is a value here.
Where the Java code mutates a tree or a list in place, the model's methods
return the new tree or list. The identity hash code that tags each array is
the parameter `tagOf`, indexed by the array's position in the depth-first
order. The JSON library's `toString` and parser are the parameters `toText`
and `parse`. The platform byte order is the parameter `order`.

The central theorem is `Codec.RoundTrip`. It has four conditions:

- the tags are pairwise distinct;
- no ordinary string holds '@';
- every char of the message text is Latin-1, so the text survives the
  ISO-8859-1 encoding at :110-112 and the decoding at :165;
- parsing the text that `toString` writes gives back the message with each
  array replaced by its placeholder `"@" + tag`, and with every object's
  members in the same order.

Under these conditions, receiving what `sendMessage` sent gives back the
original message, with every array in its original place. The theorem does
not cover a parser that returns the members of an object in another order
(see "## Left out").

Some behaviours of the code are worth stating on their own:

- Reinsertion does not stop at the first match. The `return` at :137 and
  :152 ends only the walk of the container that holds the match, so
  enclosing containers keep scanning (`Reinsertion.MatchEndsOnlyItsContainer`).
- A string counts as a placeholder as soon as it contains '@' (:133 and
  :148), and `Integer.parseInt` then reads it from the second character
  (:134 and :149). An ordinary string such as `"a@b"` therefore makes the
  receiver throw (`Reinsertion.LooseAtTest`).
- A tag that matches no placeholder is ignored silently: the walk finds
  nothing and the message is returned unchanged (`Reinsertion.InsertUnmatched`).
- Tags come from `System.identityHashCode` (:115 and :119), so they are
  distinct only if the JVM makes them so. The round trip takes distinct tags
  as a hypothesis.

## Model

All source cells refer to
`java/src/main/java/org/micromanager/internal/zmq/ZMQSocketWrapper.java`.

| member | source | states |
|---|---|---|
| PortRegistry.LowestFree | java/src/main/java/org/micromanager/internal/zmq/ZMQSocketWrapper.java:47-51 | the scan result is at or above its start, is not a key, and every port between the start and it is a key |
| PortRegistry.LowestFreeUnique | java/src/main/java/org/micromanager/internal/zmq/ZMQSocketWrapper.java:47-51 | any port with those three properties is the one the scan finds, so the lowest free port is unique |
| PortRegistry.PortTable.constructor | java/src/main/java/org/micromanager/internal/zmq/ZMQSocketWrapper.java:28-29 | the static table starts empty |
| PortRegistry.PortTable.NextPortNumber | java/src/main/java/org/micromanager/internal/zmq/ZMQSocketWrapper.java:47-54 | returns a port >= 4827 that was not taken, every port from 4827 below it was taken, and the new table is the old one plus port mapped to the caller |
| PortRegistry.PortTable.Remove | java/src/main/java/org/micromanager/internal/zmq/ZMQSocketWrapper.java:64 | the new table is the old one without that key; an absent key changes nothing |
| PortRegistry.SocketWrapper.constructor | java/src/main/java/org/micromanager/internal/zmq/ZMQSocketWrapper.java:37-45 | a new wrapper holds the lowest free port at or above 4827, and the table maps that port to the wrapper |
| PortRegistry.SocketWrapper.Close | java/src/main/java/org/micromanager/internal/zmq/ZMQSocketWrapper.java:62-65 | closing removes exactly the wrapper's own port; every other entry keeps its owner |
| PortRegistry.ReleaseThenAllocate | java/src/main/java/org/micromanager/internal/zmq/ZMQSocketWrapper.java:47-54 | after port p is released, the next allocation returns p, unless a lower port was already free |
| PortRegistry.AllocateThenRelease | java/src/main/java/org/micromanager/internal/zmq/ZMQSocketWrapper.java:47-54 | allocating a port and releasing it again restores the table |
| PortRegistry.ReuseAfterClose | java/src/main/java/org/micromanager/internal/zmq/ZMQSocketWrapper.java:37-65 | on an empty table two wrappers get 4827 and 4828; after the first closes, a third gets 4827 back |
| Extraction.RecurseBinaryData | java/src/main/java/org/micromanager/internal/zmq/ZMQSocketWrapper.java:73-95 | appends exactly the byte arrays of an object or array, in depth-first order (keys in iterator order, elements by index); any other value adds nothing |
| Extraction.CollectFromObject | java/src/main/java/org/micromanager/internal/zmq/ZMQSocketWrapper.java:74-84 | the key loop appends the byte arrays of the members in key order |
| Extraction.CollectFromArray | java/src/main/java/org/micromanager/internal/zmq/ZMQSocketWrapper.java:85-93 | the index loop appends the byte arrays of the elements in index order |
| Extraction.StructureOnlyHasNoBlobs | java/src/main/java/org/micromanager/internal/zmq/ZMQSocketWrapper.java:110-112 | the message as written in the text frame, with placeholders for its arrays, holds no byte array |
| Extraction.HideDone | java/src/main/java/org/micromanager/internal/zmq/ZMQSocketWrapper.java:176-186 | once every array of a subtree is back in place, the subtree is the original |
| Extraction.HideOutside | java/src/main/java/org/micromanager/internal/zmq/ZMQSocketWrapper.java:176-186 | putting back array n leaves every subtree that does not hold array n as it was |
| TagCodec.EncodeTag | java/src/main/java/org/micromanager/internal/zmq/ZMQSocketWrapper.java:114-115 | `putInt` into a four-byte buffer yields exactly four bytes |
| TagCodec.DecodeTag | java/src/main/java/org/micromanager/internal/zmq/ZMQSocketWrapper.java:177-178 | reading an int succeeds exactly when the frame has at least four bytes; a shorter frame is a buffer underflow |
| TagCodec.BytesRoundTrip | java/src/main/java/org/micromanager/internal/zmq/ZMQSocketWrapper.java:114-115 | the four big-endian bytes of an unsigned 32-bit value read back as that value |
| TagCodec.ValueRoundTrip | java/src/main/java/org/micromanager/internal/zmq/ZMQSocketWrapper.java:177-178 | any four bytes read as a 32-bit value and written again give the same bytes |
| TagCodec.DecodeEncode | java/src/main/java/org/micromanager/internal/zmq/ZMQSocketWrapper.java:114-115 | in either byte order, the receiver reads back exactly the int the sender wrote |
| TagCodec.EncodeDecode | java/src/main/java/org/micromanager/internal/zmq/ZMQSocketWrapper.java:177-178 | every four-byte frame is the encoding of the int read from it |
| JavaInt.ParseInt | java/src/main/java/org/micromanager/internal/zmq/ZMQSocketWrapper.java:134 | accepts an optional leading '+' or '-' followed by at least one ASCII digit, with the value in `int` range (down to -2^31 only with '-'); the value is the signed digit value; anything else is `None`, the NumberFormatException |
| PortRegistry.SocketWrapper.GetPort | java/src/main/java/org/micromanager/internal/zmq/ZMQSocketWrapper.java:56-58 | returns the port the wrapper claimed, which is never below the master port 4827 |
| JavaInt.DigitsRoundTrip | java/src/main/java/org/micromanager/internal/zmq/ZMQSocketWrapper.java:134 | the decimal digits of a natural number have that number as their value |
| JavaInt.ParseDecimal | java/src/main/java/org/micromanager/internal/zmq/ZMQSocketWrapper.java:134 | `Integer.parseInt` of the decimal text of any int gives that int back |
| Reinsertion.InsertByteBuffer | java/src/main/java/org/micromanager/internal/zmq/ZMQSocketWrapper.java:127-161 | the walk over an object or array gives the tree described by `Insert` or raises its exception; any other value is left alone |
| Reinsertion.InsertIntoObject | java/src/main/java/org/micromanager/internal/zmq/ZMQSocketWrapper.java:128-144 | the key loop: a matching string member becomes the payload and ends this loop; a bad '@' string raises NumberFormatException |
| Reinsertion.InsertIntoArray | java/src/main/java/org/micromanager/internal/zmq/ZMQSocketWrapper.java:145-159 | the index loop, with the same rules for elements |
| Reinsertion.InsertUnmatched | java/src/main/java/org/micromanager/internal/zmq/ZMQSocketWrapper.java:127-161 | a tag that no '@' string names leaves the tree unchanged, unless some '@' string does not parse, which raises NumberFormatException |
| Reinsertion.LooseAtTest | java/src/main/java/org/micromanager/internal/zmq/ZMQSocketWrapper.java:133-134 | an ordinary string "a@b" passes the '@' test, fails to parse, and the receiver throws |
| Reinsertion.MatchEndsOnlyItsContainer | java/src/main/java/org/micromanager/internal/zmq/ZMQSocketWrapper.java:135-140 | a match ends only the walk of its own container; the enclosing array goes on and replaces a later "@7" too |
| InsertShape.InsertOnlyReplaces | java/src/main/java/org/micromanager/internal/zmq/ZMQSocketWrapper.java:127-161 | a successful walk changes only string children that name the tag, each into the payload; all other leaves, every key and every length stay |
| InsertShape.ReplacedSelf | java/src/main/java/org/micromanager/internal/zmq/ZMQSocketWrapper.java:127-161 | a step of `InsertShape.InsertOnlyReplaces`: the `Replaced` relation is reflexive, so a tree left alone by the walk is a valid outcome of it |
| Restoration.PlaceholderParses | java/src/main/java/org/micromanager/internal/zmq/ZMQSocketWrapper.java:133-134 | a placeholder "@" + tag passes the '@' test and parses back to its tag |
| Restoration.HiddenUnmatched | java/src/main/java/org/micromanager/internal/zmq/ZMQSocketWrapper.java:133-134 | in a partly restored message every '@' string parses, and a tag that no still-hidden array carries is named by no '@' string |
| Restoration.InsertRestores | java/src/main/java/org/micromanager/internal/zmq/ZMQSocketWrapper.java:127-161 | with distinct tags, inserting payload n under its tag puts array n back and changes nothing else |
| Codec.Latin1Encode | java/src/main/java/org/micromanager/internal/zmq/ZMQSocketWrapper.java:110 | ISO-8859-1 encoding writes one byte per char |
| Codec.Latin1Decode | java/src/main/java/org/micromanager/internal/zmq/ZMQSocketWrapper.java:165 | ISO-8859-1 decoding reads one char per byte |
| Codec.Latin1TextRoundTrip | java/src/main/java/org/micromanager/internal/zmq/ZMQSocketWrapper.java:110-112 | text survives encoding and decoding if and only if all its chars are Latin-1 |
| Codec.Latin1BytesRoundTrip | java/src/main/java/org/micromanager/internal/zmq/ZMQSocketWrapper.java:165 | every byte sequence survives decoding and encoding |
| Codec.SendMessage | java/src/main/java/org/micromanager/internal/zmq/ZMQSocketWrapper.java:101-122 | the frames sent are the text frame, then a tag frame and a payload frame per collected array, as `Frames` lays them out |
| Codec.SendBlobs | java/src/main/java/org/micromanager/internal/zmq/ZMQSocketWrapper.java:113-120 | the loop and the final pair emit the tag and payload frames of a non-empty list of arrays |
| Codec.BlobFramesLength | java/src/main/java/org/micromanager/internal/zmq/ZMQSocketWrapper.java:113-120 | two frames per array |
| Codec.TagFrameAt | java/src/main/java/org/micromanager/internal/zmq/ZMQSocketWrapper.java:114-115 | frame 2m after the text is the tag of array m, with "more" set |
| Codec.PayloadFrameAt | java/src/main/java/org/micromanager/internal/zmq/ZMQSocketWrapper.java:116-120 | frame 2m+1 after the text is the bytes of array m, with "more" set unless it is the last array |
| Codec.BlobFramesMore | java/src/main/java/org/micromanager/internal/zmq/ZMQSocketWrapper.java:113-120 | every tag and payload frame but the last has "more" set, and the last has not |
| Codec.FramesLaw | java/src/main/java/org/micromanager/internal/zmq/ZMQSocketWrapper.java:109-121 | k arrays give 1 + 2k frames; frame 0 is the text; frame 2i+1 is the tag of array i and frame 2i+2 its bytes; all frames but the last have "more"; with k = 0 the single text frame has no "more" |
| Codec.TagFramesDecode | java/src/main/java/org/micromanager/internal/zmq/ZMQSocketWrapper.java:114-115 | every tag frame the sender writes reads back as its tag |
| Codec.ReceiveMessage | java/src/main/java/org/micromanager/internal/zmq/ZMQSocketWrapper.java:163-187 | the message returned, or the exception raised, for the frames of one unit is the one `Receive` describes |
| Codec.ReceiveErrors | java/src/main/java/org/micromanager/internal/zmq/ZMQSocketWrapper.java:167-179 | a first frame that does not parse raises an exception, and so does an odd number of continuation frames |
| Codec.OddPairsFail | java/src/main/java/org/micromanager/internal/zmq/ZMQSocketWrapper.java:176-179 | walking an odd number of frames in pairs always ends in an exception |
| Codec.PayloadsStep | java/src/main/java/org/micromanager/internal/zmq/ZMQSocketWrapper.java:176-179 | a step of `Codec.RoundTrip`: the continuation frames start with the tag and the bytes of the next array |
| Codec.InsertPairsStep | java/src/main/java/org/micromanager/internal/zmq/ZMQSocketWrapper.java:176-185 | a step of `Codec.RoundTrip`: a decodable tag followed by a payload that inserts cleanly moves the loop on by two frames |
| Codec.PairsChain | java/src/main/java/org/micromanager/internal/zmq/ZMQSocketWrapper.java:176-186 | when each pair turns one tree into the next, the receive loop ends at the last tree |
| Codec.PairsRestore | java/src/main/java/org/micromanager/internal/zmq/ZMQSocketWrapper.java:176-186 | with distinct tags, payload n turns the message with n arrays restored into the one with n + 1 restored |
| Codec.RoundTrip | java/src/main/java/org/micromanager/internal/zmq/ZMQSocketWrapper.java:101-187 | receiving what was sent gives back the original message, every array in place, given distinct tags, no '@' in ordinary strings, message text that is all Latin-1, and a parser that reads back the printed tree (arrays as placeholders, members in the same order) |

## Left out

- Socket transport: the `ZContext`, the sockets, `initialize`, and the calls `send`, `sendMore`, `recv` and `hasReceiveMore` are not modelled. A send yields its frame list. A receive is given the frames of one unit.
- Codec.ReceiveMessage: when the first frame does not parse, Java throws before draining the rest of the unit from the socket. The model has no socket, so those leftover frames are not modelled.
- `socket_.close()` in `close` is transport and not modelled; only the table update is.
- JSON text: `toString` and `new JSONObject(text)` belong to an external library and are the parameters `toText` and `parse`. The code that writes a `byte[]` as `"@" + hash` is in that library. `Codec.RoundTrip` states it as a hypothesis on `parse` and `toText`.
- Codec.RoundTrip: assumes that parsing the sent text returns each object's members in the order `toString` printed them. `JSONObject` does not promise an iteration order, and reinsertion at :127-161 matches by tag, so Java would restore every array even if the order changed. Objects here are ordered member sequences, so the theorem's `== Ok(json)` does not cover a reordered parse.
- Numbers are kept as `real` values. Their text form is part of the JSON library and is not modelled.
- `System.identityHashCode` is the parameter `tagOf`. Nothing makes tags distinct; `Codec.RoundTrip` requires it.
- `ByteOrder.nativeOrder()` is the parameter `order`, the same on both sides.
- Charset: ISO-8859-1 is modelled one char per byte, with chars above U+00FF written as '?'. Dafny chars are Unicode scalar values, not Java's UTF-16 code units.
- JavaInt.ParseInt accepts only the ASCII digits '0' to '9'. Java's `Integer.parseInt` also accepts other Unicode decimal digits.
- Aliasing: the tree is a value. The same `JSONObject` or `byte[]` reachable twice, and in-place updates seen through another reference, are not modelled.
- Exceptions are `Fault` values. Java wraps the parse failure in a `RuntimeException`; the model does not distinguish the wrapper. `JSONException` from `get` cannot arise in the model.
- Objects are key sequences in iterator order. A real `JSONObject` has no duplicate keys; the model does not require that.
- Port numbers are unbounded integers. The Java loop never checks the 65535 port limit or `int` overflow. Both would need over 60000 live wrappers.
- Concurrency: `synchronized`, `ConcurrentHashMap` and `volatile` are not modelled. The port table is sequential.
