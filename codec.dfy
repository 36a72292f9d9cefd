/** One message unit on the wire (`sendMessage`, `receiveMessage`). Frame 0
    is the ISO-8859-1 text of the message; each extracted blob follows as a
    four-byte tag frame and a payload frame. Every frame but the last is
    sent with the "more" flag. The socket calls themselves are not modelled:
    a send yields its frames, a receive is given the frames of one unit. */
module Codec {
  import opened Json
  import opened TagCodec
  import opened Extraction
  import opened Reinsertion
  import Restoration

  /** A frame as handed to the socket: its bytes and whether more follow. */
  type Frame = (Bytes, bool)

  /** `getBytes(ISO_8859_1)`: one byte per char; a char above U+00FF has no
      Latin-1 byte and is written as '?'. */
  function Latin1Encode(s: string): (b: Bytes)
    ensures |b| == |s|
  {
    seq(|s|, i requires 0 <= i < |s| => if s[i] as int < 0x100 then s[i] as int as Byte else '?' as int as Byte)
  }

  /** `new String(bytes, ISO_8859_1)`: byte `b` becomes char U+00bb. */
  function Latin1Decode(b: Bytes): (s: string)
    ensures |s| == |b|
  {
    seq(|b|, i requires 0 <= i < |b| => b[i] as int as char)
  }

  predicate IsLatin1(s: string) { forall i :: 0 <= i < |s| ==> s[i] as int < 0x100 }

  /** Text survives the round trip through the wire bytes exactly when every
      char of it is a Latin-1 char. */
  lemma Latin1TextRoundTrip(s: string)
    ensures Latin1Decode(Latin1Encode(s)) == s <==> IsLatin1(s)
  {
    if !IsLatin1(s) {
      var i :| 0 <= i < |s| && s[i] as int >= 0x100;
      assert Latin1Decode(Latin1Encode(s))[i] == '?';
    }
  }

  /** Every byte sequence survives the round trip through text. */
  lemma Latin1BytesRoundTrip(b: Bytes)
    ensures Latin1Encode(Latin1Decode(b)) == b
  {
  }

  /** The tag frame of the blob with depth-first index `i`: its tag written
      by `putInt` in the given order. */
  function TagFrames(tagOf: nat -> Int32, order: ByteOrder): nat -> Bytes
  {
    (i: nat) => EncodeTag(tagOf(i), order)
  }

  /** The tag and payload frames of blobs `i` onward, blob `i` preceded by
      `tagFrame(i)`; only the very last payload frame is sent without "more". */
  function BlobFrames(blobs: seq<Bytes>, tagFrame: nat -> Bytes, i: nat): seq<Frame>
    decreases |blobs| - i
  {
    if i >= |blobs| then []
    else [(tagFrame(i), true), (blobs[i], i < |blobs| - 1)] + BlobFrames(blobs, tagFrame, i + 1)
  }

  /** The frames of one message unit, given its text frame and its blobs. */
  function Frames(text: Bytes, blobs: seq<Bytes>, tagFrame: nat -> Bytes): seq<Frame>
  {
    [(text, blobs != [])] + BlobFrames(blobs, tagFrame, 0)
  }

  function Payloads(frames: seq<Frame>): (r: seq<Bytes>)
    ensures |r| == |frames|
    ensures forall k :: 0 <= k < |frames| ==> r[k] == frames[k].0
  {
    seq(|frames|, k requires 0 <= k < |frames| => frames[k].0)
  }

  lemma {:induction false} BlobFramesLength(blobs: seq<Bytes>, tagFrame: nat -> Bytes, i: nat)
    requires i <= |blobs|
    ensures |BlobFrames(blobs, tagFrame, i)| == 2 * (|blobs| - i)
    decreases |blobs| - i
  {
    if i < |blobs| {
      BlobFramesLength(blobs, tagFrame, i + 1);
    }
  }

  /** Frame `2 m` of the blob frames from blob `i` on is the tag frame of
      blob `i + m`, sent with "more". */
  lemma {:induction false} TagFrameAt(blobs: seq<Bytes>, tagFrame: nat -> Bytes, i: nat, m: nat)
    requires i + m < |blobs|
    ensures 2 * m < |BlobFrames(blobs, tagFrame, i)|
            && BlobFrames(blobs, tagFrame, i)[2 * m] == (tagFrame(i + m), true)
    decreases m
  {
    BlobFramesLength(blobs, tagFrame, i);
    if m > 0 {
      TagFrameAt(blobs, tagFrame, i + 1, m - 1);
    }
  }

  /** Frame `2 m + 1` is the bytes of blob `i + m`, with "more" unless it is
      the last blob. */
  lemma {:induction false} PayloadFrameAt(blobs: seq<Bytes>, tagFrame: nat -> Bytes, i: nat, m: nat)
    requires i + m < |blobs|
    ensures 2 * m + 1 < |BlobFrames(blobs, tagFrame, i)|
            && BlobFrames(blobs, tagFrame, i)[2 * m + 1] == (blobs[i + m], i + m < |blobs| - 1)
    decreases m
  {
    BlobFramesLength(blobs, tagFrame, i);
    if m > 0 {
      PayloadFrameAt(blobs, tagFrame, i + 1, m - 1);
    }
  }

  lemma AppendAssoc<T>(a: seq<T>, b: seq<T>, c: seq<T>)
    ensures a + (b + c) == (a + b) + c
  {
  }

  /** Every blob frame but the last one has "more" set, and the last one
      has not. */
  lemma BlobFramesMore(blobs: seq<Bytes>, tagFrame: nat -> Bytes)
    ensures var fs := BlobFrames(blobs, tagFrame, 0);
            |fs| == 2 * |blobs| && (forall k :: 0 <= k < |fs| - 1 ==> fs[k].1) && (fs != [] ==> !fs[|fs| - 1].1)
  {
    var fs := BlobFrames(blobs, tagFrame, 0);
    BlobFramesLength(blobs, tagFrame, 0);
    forall k | 0 <= k < |fs| - 1
      ensures fs[k].1
    {
      if k % 2 == 0 {
        TagFrameAt(blobs, tagFrame, 0, k / 2);
      } else {
        PayloadFrameAt(blobs, tagFrame, 0, k / 2);
      }
    }
    if fs != [] {
      PayloadFrameAt(blobs, tagFrame, 0, |blobs| - 1);
    }
  }

  /** The frame-count law and the place of every frame: 1 + 2k frames for k
      blobs; frame 0 is the text; frame 2i+1 is the tag frame of blob i and
      frame 2i+2 its bytes; every frame but the last has "more" set. */
  lemma FramesLaw(text: Bytes, blobs: seq<Bytes>, tagFrame: nat -> Bytes)
    ensures var fs := Frames(text, blobs, tagFrame);
      && |fs| == 1 + 2 * |blobs|
      && fs[0].0 == text
      && (forall i :: 0 <= i < |blobs| ==> fs[2 * i + 1] == (tagFrame(i), true))
      && (forall i :: 0 <= i < |blobs| ==> fs[2 * i + 2].0 == blobs[i])
      && (forall k :: 0 <= k < |fs| - 1 ==> fs[k].1)
      && !fs[|fs| - 1].1
  {
    var fs := Frames(text, blobs, tagFrame);
    var tail := BlobFrames(blobs, tagFrame, 0);
    BlobFramesLength(blobs, tagFrame, 0);
    assert fs == [(text, blobs != [])] + tail;
    forall i | 0 <= i < |blobs|
      ensures fs[2 * i + 1] == (tagFrame(i), true) && fs[2 * i + 2].0 == blobs[i]
    {
      TagFrameAt(blobs, tagFrame, 0, i);
      PayloadFrameAt(blobs, tagFrame, 0, i);
      assert fs[2 * i + 1] == tail[2 * i] && fs[2 * i + 2] == tail[2 * i + 1];
    }
    BlobFramesMore(blobs, tagFrame);
    forall k | 0 <= k < |fs| - 1
      ensures fs[k].1
    {
      if k > 0 {
        assert fs[k] == tail[k - 1];
      }
    }
  }

  /** `sendMessage`: extract the blobs, then emit the text frame and, for
      each blob, its tag frame and payload frame. `toText` stands for the
      JSON library's `toString` and `tagOf(i)` for the identity hash code of
      the `i`-th extracted array. */
  method SendMessage(json: J, toText: J -> string, tagOf: nat -> Int32, order: ByteOrder)
    returns (frames: seq<Frame>)
    requires json.Obj?
    ensures frames == Frames(Latin1Encode(toText(json)), Collected(json), TagFrames(tagOf, order))
  {
    var byteData := RecurseBinaryData([], json);
    assert byteData == Collected(json);
    var text := Latin1Encode(toText(json));
    if |byteData| == 0 {
      frames := [(text, false)];
    } else {
      var rest := SendBlobs(byteData, tagOf, order);
      frames := [(text, true)] + rest;
    }
  }

  /** The loop of `sendMessage` over a non-empty list of blobs: every blob
      but the last is followed by "more", the last one ends the unit. */
  method SendBlobs(blobs: seq<Bytes>, tagOf: nat -> Int32, order: ByteOrder) returns (frames: seq<Frame>)
    requires |blobs| > 0
    ensures frames == BlobFrames(blobs, TagFrames(tagOf, order), 0)
  {
    ghost var tagFrame := TagFrames(tagOf, order);
    frames := [];
    var i := 0;
    while i < |blobs| - 1
      invariant 0 <= i <= |blobs| - 1
      invariant frames + BlobFrames(blobs, tagFrame, i) == BlobFrames(blobs, tagFrame, 0)
    {
      var step := [(EncodeTag(tagOf(i), order), true), (blobs[i], true)];
      assert step == [(tagFrame(i), true), (blobs[i], true)];
      AppendAssoc(frames, step, BlobFrames(blobs, tagFrame, i + 1));
      frames := frames + step;
      i := i + 1;
    }
    var last := [(EncodeTag(tagOf(i), order), true), (blobs[i], false)];
    assert last == [(tagFrame(i), true), (blobs[i], false)];
    assert BlobFrames(blobs, tagFrame, i + 1) == [];
    assert BlobFrames(blobs, tagFrame, i) == last + [];
    frames := frames + last;
  }

  /** Reinsert the (tag, payload) pairs of the continuation frames in order:
      frames 0 and 1, then 2 and 3, and so on. A tag frame shorter than four
      bytes underflows; a tag frame with nothing after it is an index error. */
  function InsertPairs(json: J, cont: seq<Bytes>, order: ByteOrder): Result<J>
    decreases |cont|
  {
    if cont == [] then Ok(json)
    else
      match DecodeTag(cont[0], order)
      case Err(e) => Err(e)
      case Ok(hash) =>
        if |cont| < 2 then Err(IndexOutOfBounds)
        else
          match Insert(json, hash, cont[1])
          case Err(e) => Err(e)
          case Ok(json') => InsertPairs(json', cont[2..], order)
  }

  /** What `receiveMessage` returns, or the exception it throws, for the
      frames of one unit. `parse` stands for the JSON library's object
      parser, which fails on text that is not a JSON object. */
  function Receive(frames: seq<Bytes>, parse: string -> Option<J>, order: ByteOrder): Result<J>
    requires |frames| >= 1
  {
    match parse(Latin1Decode(frames[0]))
    case Some(json) => if json.Obj? then InsertPairs(json, frames[1..], order) else Err(JsonSyntax)
    case None => Err(JsonSyntax)
  }

  /** `receiveMessage`: parse the first frame, then walk the rest two at a time. */
  method ReceiveMessage(frames: seq<Bytes>, parse: string -> Option<J>, order: ByteOrder)
    returns (r: Result<J>)
    requires |frames| >= 1
    ensures r == Receive(frames, parse, order)
  {
    var message := Latin1Decode(frames[0]);
    var parsed := parse(message);
    if parsed.None? || !parsed.value.Obj? {
      return Err(JsonSyntax);
    }
    var json := parsed.value;
    var byteData := frames[1..];
    var i := 0;
    while i < |byteData|
      invariant 0 <= i <= |byteData|
      invariant InsertPairs(parsed.value, byteData, order) == InsertPairs(json, byteData[i..], order)
    {
      var hash := DecodeTag(byteData[i], order);
      if hash.Err? {
        return Err(hash.fault);
      }
      if i + 1 >= |byteData| {
        return Err(IndexOutOfBounds);
      }
      var value := byteData[i + 1];
      var inserted := InsertByteBuffer(json, hash.value, value);
      if inserted.Err? {
        return Err(inserted.fault);
      }
      assert byteData[i..][2..] == byteData[i + 2..];
      json := inserted.value;
      i := i + 2;
    }
    assert byteData[i..] == [];
    return Ok(json);
  }

  /** The receive errors: a first frame that is not a JSON object, and an
      odd number of continuation frames, whatever else they hold. */
  lemma ReceiveErrors(frames: seq<Bytes>, parse: string -> Option<J>, order: ByteOrder)
    requires |frames| >= 1
    ensures parse(Latin1Decode(frames[0])).None? ==> Receive(frames, parse, order) == Err(JsonSyntax)
    ensures |frames| % 2 == 0 ==> Receive(frames, parse, order).Err?
  {
    var json := parse(Latin1Decode(frames[0]));
    if json.Some? && json.value.Obj? {
      if |frames| % 2 == 0 {
        OddPairsFail(json.value, frames[1..], order);
      }
    }
  }

  lemma {:induction false} OddPairsFail(json: J, cont: seq<Bytes>, order: ByteOrder)
    requires |cont| % 2 == 1
    ensures InsertPairs(json, cont, order).Err?
    decreases |cont|
  {
    if DecodeTag(cont[0], order).Ok? && |cont| >= 2 {
      var next := Insert(json, DecodeTag(cont[0], order).value, cont[1]);
      if next.Ok? {
        OddPairsFail(next.value, cont[2..], order);
      }
    }
  }

  /** The payloads of the blob frames from blob `n` on start with the tag
      frame and the bytes of blob `n`. */
  lemma PayloadsStep(blobs: seq<Bytes>, tagFrame: nat -> Bytes, n: nat)
    requires n < |blobs|
    ensures var cont := Payloads(BlobFrames(blobs, tagFrame, n));
            |cont| >= 2 && cont[0] == tagFrame(n) && cont[1] == blobs[n]
            && cont[2..] == Payloads(BlobFrames(blobs, tagFrame, n + 1))
  {
    var fs := BlobFrames(blobs, tagFrame, n);
    var tail := BlobFrames(blobs, tagFrame, n + 1);
    assert fs[2..] == tail;
  }

  /** One step of the receive loop: a decodable tag frame followed by a
      payload that inserts cleanly. */
  lemma InsertPairsStep(json: J, cont: seq<Bytes>, order: ByteOrder, hash: Int32, next: J)
    requires |cont| >= 2 && DecodeTag(cont[0], order) == Ok(hash)
    requires Insert(json, hash, cont[1]) == Ok(next)
    ensures InsertPairs(json, cont, order) == InsertPairs(next, cont[2..], order)
  {
  }

  /** Pairwise distinct tags: the tag of blob `n` is no other blob's tag. */
  lemma DistinctFrom(tagOf: nat -> Int32, count: nat, n: nat)
    requires n < count
    requires forall a, b :: 0 <= a < b < count ==> tagOf(a) != tagOf(b)
    ensures forall g :: 0 <= g < count && g != n ==> tagOf(g) != tagOf(n)
  {
    forall g | 0 <= g < count && g != n
      ensures tagOf(g) != tagOf(n)
    {
      if g < n {
        assert tagOf(g) != tagOf(n);
      } else if n < g {
        assert tagOf(n) != tagOf(g);
      }
    }
  }

  /** The receive loop over the blob frames from blob `start` on passes
      through `trees(start)`, `trees(start + 1)`, ... whenever tag frame `k`
      reads back as `tagOf(k)` and inserting blob `k` under it turns
      `trees(k)` into `trees(k + 1)`. */
  lemma {:induction false} PairsChain(blobs: seq<Bytes>, tagFrame: nat -> Bytes, tagOf: nat -> Int32, order: ByteOrder,
                                      trees: nat -> J, start: nat)
    requires start <= |blobs|
    requires forall k :: start <= k < |blobs| ==> DecodeTag(tagFrame(k), order) == Ok(tagOf(k))
    requires forall k :: start <= k < |blobs| ==> Insert(trees(k), tagOf(k), blobs[k]) == Ok(trees(k + 1))
    ensures InsertPairs(trees(start), Payloads(BlobFrames(blobs, tagFrame, start)), order) == Ok(trees(|blobs|))
    decreases |blobs| - start
  {
    var cont := Payloads(BlobFrames(blobs, tagFrame, start));
    if start == |blobs| {
      assert cont == [];
    } else {
      PayloadsStep(blobs, tagFrame, start);
      InsertPairsStep(trees(start), cont, order, tagOf(start), trees(start + 1));
      PairsChain(blobs, tagFrame, tagOf, order, trees, start + 1);
    }
  }

  /** Every tag frame reads back as the tag it was written from. */
  lemma TagFramesDecode(tagOf: nat -> Int32, order: ByteOrder)
    ensures forall k: nat :: DecodeTag(TagFrames(tagOf, order)(k), order) == Ok(tagOf(k))
  {
    forall k: nat
      ensures DecodeTag(TagFrames(tagOf, order)(k), order) == Ok(tagOf(k))
    {
      DecodeEncode(tagOf(k), order);
    }
  }

  /** With pairwise distinct tags, inserting blob `n` into the message whose
      first `n` blobs are back gives the message whose first `n + 1` are. */
  lemma PairsRestore(j: J, tagOf: nat -> Int32)
    requires j.Obj? && Parses(j) == []
    requires forall a, b :: 0 <= a < b < |Collected(j)| ==> tagOf(a) != tagOf(b)
    ensures forall n :: 0 <= n < |Collected(j)| ==>
              Insert(Hide(j, tagOf, n, 0), tagOf(n), Collected(j)[n]) == Ok(Hide(j, tagOf, n + 1, 0))
  {
    forall n | 0 <= n < |Collected(j)|
      ensures Insert(Hide(j, tagOf, n, 0), tagOf(n), Collected(j)[n]) == Ok(Hide(j, tagOf, n + 1, 0))
    {
      DistinctFrom(tagOf, |Collected(j)|, n);
      Restoration.InsertRestores(j, tagOf, n, 0, Collected(j)[n]);
    }
  }

  /** Send then receive gives the message back, every blob at its place,
      provided the tags are pairwise distinct, no ordinary string of the
      message holds '@', and the JSON library writes each blob as its
      placeholder string. */
  lemma RoundTrip(json: J, toText: J -> string, parse: string -> Option<J>, tagOf: nat -> Int32, order: ByteOrder)
    requires json.Obj? && Parses(json) == []
    requires forall a, b :: 0 <= a < b < |Collected(json)| ==> tagOf(a) != tagOf(b)
    requires IsLatin1(toText(json))
    requires parse(toText(json)) == Some(Hide(json, tagOf, 0, 0))
    ensures Receive(Payloads(Frames(Latin1Encode(toText(json)), Collected(json), TagFrames(tagOf, order))), parse, order)
         == Ok(json)
  {
    var text := Latin1Encode(toText(json));
    var blobs := Collected(json);
    var tagFrame := TagFrames(tagOf, order);
    var frames := Payloads(Frames(text, blobs, tagFrame));
    Latin1TextRoundTrip(toText(json));
    assert Frames(text, blobs, tagFrame) == [(text, blobs != [])] + BlobFrames(blobs, tagFrame, 0);
    assert frames[1..] == Payloads(BlobFrames(blobs, tagFrame, 0));
    var trees := (n: nat) => Hide(json, tagOf, n, 0);
    PairsRestore(json, tagOf);
    TagFramesDecode(tagOf, order);
    PairsChain(blobs, tagFrame, tagOf, order, trees, 0);
    HideDone(json, tagOf, |blobs|, 0);
  }
}
