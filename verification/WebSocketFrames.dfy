/** The bytes of a WebSocket frame (sections 5.2 to 5.4 of RFC 6455): what the framer writes, what
    the parser recognises, and why the one undoes the other however the bytes are cut up. */
module WebSocketFrames {
  import opened Words

  const DATA_FRAME_MAX_LEN: nat := 65520
  const WS_CONTINUE_FRAME: Byte := 0

  /** The fixed masking key of the framer. */
  const MASK: seq<Byte> := [0x1a, 0x2b, 0x3c, 0x4d]

  // ---------------------------------------------------------------- masking

  /** Exclusive or of the low bits. */
  function XorBits(a: nat, b: nat, width: nat): nat {
    if width == 0 then 0
    else (if a % 2 == b % 2 then 0 else 1) + 2 * XorBits(a / 2, b / 2, width - 1)
  }

  lemma {:induction false} XorBitsBound(a: nat, b: nat, width: nat)
    ensures XorBits(a, b, width) < Pow2(width)
  {
    if width > 0 {
      XorBitsBound(a / 2, b / 2, width - 1);
    }
  }

  lemma {:induction false} XorBitsTwice(a: nat, b: nat, width: nat)
    requires a < Pow2(width)
    ensures XorBits(XorBits(a, b, width), b, width) == a
  {
    if width > 0 {
      assert XorBits(a, b, width) / 2 == XorBits(a / 2, b / 2, width - 1);
      XorBitsTwice(a / 2, b / 2, width - 1);
    }
  }

  lemma Pow2Of8()
    ensures Pow2(8) == 256
  {
    assert Pow2(4) == 16;
    assert Pow2(6) == 64;
  }

  function Xor(a: Byte, b: Byte): Byte {
    Pow2Of8();
    XorBitsBound(a, b, 8);
    XorBits(a, b, 8)
  }

  /** What `do_mask` makes of its data. */
  function Mask(data: seq<Byte>, key: seq<Byte>): (r: seq<Byte>)
    requires |key| == 4
    ensures |r| == |data|
  {
    if |data| == 0 then []
    else Mask(data[..|data| - 1], key) + [Xor(data[|data| - 1], key[(|data| - 1) % 4])]
  }

  lemma {:induction false} XorBitsAt(a: nat, b: nat, width: nat, k: nat)
    requires k < width
    ensures Bit(XorBits(a, b, width), k) <==> Bit(a, k) != Bit(b, k)
  {
    var rest := XorBits(a / 2, b / 2, width - 1);
    assert XorBits(a, b, width) / 2 == rest && XorBits(a, b, width) % 2 == if a % 2 == b % 2 then 0 else 1;
    if k > 0 {
      XorBitsAt(a / 2, b / 2, width - 1, k - 1);
    }
  }

  /** It is the exclusive or: a bit is set exactly if it is set in one of the two. */
  lemma XorAt(a: Byte, b: Byte, k: nat)
    requires k < 8
    ensures Bit(Xor(a, b), k) <==> Bit(a, k) != Bit(b, k)
  {
    XorBitsAt(a, b, 8, k);
  }

  lemma {:induction false} MaskByXor(data: seq<Byte>, key: seq<Byte>, k: nat)
    requires |key| == 4 && k < |data|
    ensures Mask(data, key)[k] == Xor(data[k], key[k % 4])
  {
    hide Xor;
    if k < |data| - 1 {
      MaskByXor(data[..|data| - 1], key, k);
    }
  }

  /** A bit of byte k changes exactly if it is set in byte k mod 4 of the key (section 5.3 of RFC 6455). */
  lemma MaskAt(data: seq<Byte>, key: seq<Byte>, k: nat, bit: nat)
    requires |key| == 4 && k < |data| && bit < 8
    ensures Bit(Mask(data, key)[k], bit) <==> Bit(data[k], bit) != Bit(key[k % 4], bit)
  {
    hide Mask, Xor, Bit;
    MaskByXor(data, key, k);
    XorAt(data[k], key[k % 4], bit);
  }

  lemma XorTwice(a: Byte, b: Byte)
    ensures Xor(Xor(a, b), b) == a
  {
    Pow2Of8();
    XorBitsTwice(a, b, 8);
  }

  /** Masking is its own inverse. */
  lemma MaskTwice(data: seq<Byte>, key: seq<Byte>)
    requires |key| == 4
    ensures Mask(Mask(data, key), key) == data
  {
    hide Mask, Xor;
    forall k | 0 <= k < |data|
      ensures Mask(Mask(data, key), key)[k] == data[k]
    {
      MaskByXor(data, key, k);
      MaskByXor(Mask(data, key), key, k);
      XorTwice(data[k], key[k % 4]);
    }
  }

  // ---------------------------------------------------------------- one frame

  datatype Frame = Frame(fin: bool, opcode: Byte, payload: seq<Byte>)

  function TwoBytes(n: nat): seq<Byte>
    requires n < 0x1_0000
  {
    [n / 256, n % 256]
  }

  /** The higher half first, as in network byte order. */
  function FourBytes(n: nat): seq<Byte>
    requires n < 0x1_0000_0000
  {
    TwoBytes(n / 0x1_0000) + TwoBytes(n % 0x1_0000)
  }

  function ReadTwoBytes(s: seq<Byte>): nat
    requires |s| == 2
  {
    var a: nat, b: nat := s[0], s[1];
    a * 256 + b
  }

  function ReadFourBytes(s: seq<Byte>): nat
    requires |s| == 4
  {
    ReadTwoBytes(s[..2]) * 0x1_0000 + ReadTwoBytes(s[2..])
  }

  lemma FourBytesRoundTrip(n: nat)
    requires n < 0x1_0000_0000
    ensures ReadFourBytes(FourBytes(n)) == n
  {
    assert FourBytes(n)[..2] == TwoBytes(n / 0x1_0000);
    assert FourBytes(n)[2..] == TwoBytes(n % 0x1_0000);
  }

  /** The length as the second header byte's low seven bits give it. */
  function LengthField(n: nat): Byte {
    if n <= 125 then n else if n <= 0xFFFF then 126 else 127
  }

  /** The length bytes after the second header byte. */
  function ExtendedLength(n: nat): seq<Byte>
    requires n < 0x1_0000_0000
  {
    if n <= 125 then []
    else if n <= 0xFFFF then TwoBytes(n)
    else [0, 0, 0, 0] + FourBytes(n)
  }

  function HeaderBeforeKey(fin: bool, opcode: Byte, length: nat, masked: bool): seq<Byte>
    requires length < 0x1_0000_0000
  {
    [(if fin then 128 else 0) + opcode % 16, (if masked then 128 else 0) + LengthField(length)]
    + ExtendedLength(length)
  }

  /** `generate_websocket_frame_without_fragment`. */
  function EncodeFrame(frame: Frame, masked: bool): seq<Byte>
    requires |frame.payload| < 0x1_0000_0000
  {
    HeaderBeforeKey(frame.fin, frame.opcode, |frame.payload|, masked)
    + (if masked then MASK + Mask(frame.payload, MASK) else frame.payload)
  }

  lemma MaskedLetter()
    ensures Xor(0x41, 0x1a) == 0x5b
  {
    assert XorBits(1, 0, 2) == 1;
    assert XorBits(4, 1, 4) == 5;
    assert XorBits(16, 6, 6) == 22;
  }

  /** A text frame with the letter A, as it goes over the wire. */
  lemma FrameOnTheWire()
    ensures EncodeFrame(Frame(true, 1, [0x41]), true) == [0x81, 0x81, 0x1a, 0x2b, 0x3c, 0x4d, 0x5b]
  {
    MaskedLetter();
    MaskByXor([0x41], MASK, 0);
    hide Xor, Mask;
  }

  // ---------------------------------------------------------------- recognising a frame

  /** What the length bytes at the start of a frame amount to. */
  datatype Length = Short | Unsupported | Known(header: nat, length: nat)

  function ParseLength(t: seq<Byte>): (r: Length)
    requires |t| >= 2
    ensures r.Known? ==> 2 <= r.header <= |t|
  {
    var field := t[1] % 128;
    if field < 126 then Known(2, field)
    else if field == 126 then
      if |t| < 4 then Short else Known(4, ReadTwoBytes(t[2..4]))
    else if |t| < 6 then Short
    else if t[2..6] != [0, 0, 0, 0] then Unsupported
    else if |t| < 10 then Short
    else Known(10, ReadFourBytes(t[6..10]))
  }

  /** What the bytes from the start of a frame on amount to. */
  datatype Outcome = Incomplete | Failed | Complete(length: nat, frame: Frame)

  /** The frame once its length is known: key, then payload. */
  function ParseBody(t: seq<Byte>, header: nat, length: nat): (r: Outcome)
    requires 2 <= header <= |t|
    ensures r.Complete? ==> 2 <= r.length <= |t| && r.frame.fin == (t[0] >= 128) && r.frame.opcode == t[0] % 16
    ensures !r.Failed?
  {
    var masked := t[1] >= 128;
    var start := if masked then header + 4 else header;
    if |t| < start + length then Incomplete
    else
      var body := t[start..start + length];
      Complete(start + length,
               Frame(t[0] >= 128, t[0] % 16, if masked then Mask(body, t[header..start]) else body))
  }

  /** `try_parse_protocol`, as a function of all the bytes from the start of the frame on. */
  function ParseFrame(t: seq<Byte>): (r: Outcome)
    ensures r.Complete? ==> 2 <= r.length <= |t|
    ensures r.Failed? ==> |t| >= 6
  {
    if |t| < 2 then Incomplete
    else if t[1] % 128 == 0 then Complete(2, Frame(t[0] >= 128, t[0] % 16, []))
    else
      match ParseLength(t)
      case Short => Incomplete
      case Unsupported => Failed
      case Known(header, length) => ParseBody(t, header, length)
  }

  lemma LengthIsStable(t: seq<Byte>, more: seq<Byte>)
    requires |t| >= 2 && !ParseLength(t).Short?
    ensures ParseLength(t + more) == ParseLength(t)
  {
    var u := t + more;
    if t[1] % 128 == 126 {
      assert u[2..4] == t[2..4];
    } else if t[1] % 128 == 127 {
      assert u[2..6] == t[2..6];
      if |t| >= 10 {
        assert u[6..10] == t[6..10];
      }
    }
  }

  lemma SliceOfPrefix(t: seq<Byte>, more: seq<Byte>, i: nat, j: nat)
    requires i <= j <= |t|
    ensures (t + more)[i..j] == t[i..j]
  {
  }

  lemma BodyIsStable(t: seq<Byte>, more: seq<Byte>, header: nat, length: nat)
    requires 2 <= header <= |t| && !ParseBody(t, header, length).Incomplete?
    ensures ParseBody(t + more, header, length) == ParseBody(t, header, length)
  {
    hide Mask;
    var u := t + more;
    var start := if t[1] >= 128 then header + 4 else header;
    SliceOfPrefix(t, more, start, start + length);
    SliceOfPrefix(t, more, header, start);
    assert u[0] == t[0] && u[1] == t[1];
  }

  /** More bytes never change a verdict that has been reached. */
  lemma ParseIsStable(t: seq<Byte>, more: seq<Byte>)
    requires !ParseFrame(t).Incomplete?
    ensures ParseFrame(t + more) == ParseFrame(t)
  {
    var u := t + more;
    assert u[0] == t[0] && u[1] == t[1];
    if t[1] % 128 != 0 {
      LengthIsStable(t, more);
      if ParseLength(t).Known? {
        BodyIsStable(t, more, ParseLength(t).header, ParseLength(t).length);
      }
    }
  }

  /** The parser reads the length the framer wrote. */
  lemma LengthOfEncoded(fin: bool, opcode: Byte, n: nat, masked: bool, more: seq<Byte>)
    requires n < 0x1_0000_0000
    ensures ParseLength(HeaderBeforeKey(fin, opcode, n, masked) + more)
         == Known(|HeaderBeforeKey(fin, opcode, n, masked)|, n)
  {
    var head := HeaderBeforeKey(fin, opcode, n, masked);
    var t := head + more;
    assert t[1] == head[1] && t[1] % 128 == LengthField(n);
    if 125 < n <= 0xFFFF {
      assert t[2..4] == TwoBytes(n);
    } else if n > 0xFFFF {
      assert t[2..6] == [0, 0, 0, 0];
      assert t[6..10] == FourBytes(n);
      FourBytesRoundTrip(n);
    }
  }

  function Keyed(head: seq<Byte>, key: seq<Byte>, body: seq<Byte>): seq<Byte> { head + (key + body) }

  lemma KeyAndBody(t: seq<Byte>, head: seq<Byte>, key: seq<Byte>, body: seq<Byte>)
    requires |head| >= 2 && |key| == 4 && t == Keyed(head, key, body)
    ensures |t| == |head| + 4 + |body| && t[0] == head[0] && t[1] == head[1]
    ensures t[|head|..|head| + 4] == key && t[|head| + 4..|head| + 4 + |body|] == body
  {
  }

  lemma MaskedBody(t: seq<Byte>, header: nat, length: nat)
    requires 2 <= header && header + 4 + length <= |t| && t[1] >= 128
    ensures ParseBody(t, header, length)
         == Complete(header + 4 + length,
                     Frame(t[0] >= 128, t[0] % 16,
                           Mask(t[header + 4..header + 4 + length], t[header..header + 4])))
  {
    hide Mask;
  }

  lemma BodyAfterKey(head: seq<Byte>, key: seq<Byte>, body: seq<Byte>)
    requires |head| >= 2 && head[1] >= 128 && |key| == 4
    ensures ParseBody(Keyed(head, key, body), |head|, |body|)
         == Complete(|head| + 4 + |body|, Frame(head[0] >= 128, head[0] % 16, Mask(body, key)))
  {
    hide Mask, ParseBody, Keyed;
    var t := Keyed(head, key, body);
    KeyAndBody(t, head, key, body);
    MaskedBody(t, |head|, |body|);
  }

  lemma BodyWithoutKey(head: seq<Byte>, body: seq<Byte>)
    requires |head| >= 2 && head[1] < 128
    ensures ParseBody(head + body, |head|, |body|)
         == Complete(|head| + |body|, Frame(head[0] >= 128, head[0] % 16, body))
  {
    hide Mask;
    assert (head + body)[|head|..|head| + |body|] == body;
  }

  lemma BodyOfEncoded(head: seq<Byte>, frame: Frame, masked: bool)
    requires |head| >= 2 && frame.opcode < 16
    requires head[0] == (if frame.fin then 128 else 0) + frame.opcode
    requires head[1] >= 128 <==> masked
    ensures var rest := if masked then MASK + Mask(frame.payload, MASK) else frame.payload;
            ParseBody(head + rest, |head|, |frame.payload|) == Complete(|head| + |rest|, frame)
  {
    hide ParseBody, Mask;
    if masked {
      MaskTwice(frame.payload, MASK);
      BodyAfterKey(head, MASK, Mask(frame.payload, MASK));
    } else {
      BodyWithoutKey(head, frame.payload);
    }
  }

  /** A frame with a payload comes back as it was, whatever follows it. */
  lemma ParseOfEncoded(frame: Frame, masked: bool, more: seq<Byte>)
    requires 0 < |frame.payload| < 0x1_0000_0000 && frame.opcode < 16
    ensures ParseFrame(EncodeFrame(frame, masked) + more) == Complete(|EncodeFrame(frame, masked)|, frame)
  {
    hide ParseBody, ParseLength, Mask;
    var n := |frame.payload|;
    var head := HeaderBeforeKey(frame.fin, frame.opcode, n, masked);
    var rest := if masked then MASK + Mask(frame.payload, MASK) else frame.payload;
    var t := EncodeFrame(frame, masked);
    assert t == head + rest;
    assert t[0] == head[0] && t[1] == head[1];
    LengthOfEncoded(frame.fin, frame.opcode, n, masked, rest);
    BodyOfEncoded(head, frame, masked);
    ParseIsStable(t, more);
  }

  /** A frame survives the trip, followed by anything, exactly when it has a payload or no masking key:
      of a masked empty frame the parser leaves the key behind, to be taken for the next frame. */
  lemma FrameRoundTripsExactly(frame: Frame, masked: bool, more: seq<Byte>)
    requires |frame.payload| < 0x1_0000_0000 && frame.opcode < 16
    ensures ParseFrame(EncodeFrame(frame, masked) + more) == Complete(|EncodeFrame(frame, masked)|, frame)
            <==> |frame.payload| > 0 || !masked
  {
    if |frame.payload| > 0 {
      ParseOfEncoded(frame, masked, more);
    } else {
      var t := EncodeFrame(frame, masked) + more;
      assert t[0] == (if frame.fin then 128 else 0) + frame.opcode;
      assert t[1] == if masked then 128 else 0;
    }
  }

  // ---------------------------------------------------------------- messages

  /** The frames `generate_websocket_frame` cuts a message into, from some place in it on. */
  function FragmentsFrom(data: seq<Byte>, opcode: Byte): (frames: seq<Frame>)
    requires |data| > 0
    ensures |frames| > 0
    ensures forall k :: 0 <= k < |frames| ==> 1 <= |frames[k].payload| <= DATA_FRAME_MAX_LEN
    ensures forall k :: 0 <= k < |frames| ==> frames[k].opcode < 16
    decreases |data|
  {
    if |data| <= DATA_FRAME_MAX_LEN then [Frame(true, opcode % 16, data)]
    else [Frame(false, opcode % 16, data[..DATA_FRAME_MAX_LEN])]
         + FragmentsFrom(data[DATA_FRAME_MAX_LEN..], WS_CONTINUE_FRAME)
  }

  function Fragments(data: seq<Byte>, opcode: Byte): seq<Frame> {
    if |data| == 0 then [] else FragmentsFrom(data, opcode)
  }

  function Payloads(frames: seq<Frame>): seq<Byte> {
    if |frames| == 0 then [] else frames[0].payload + Payloads(frames[1..])
  }

  /** Section 5.4 of RFC 6455: the payloads make up the message, only the first frame names the
      opcode and only the last one has FIN set. */
  lemma {:induction false} FragmentsMakeUpTheMessage(data: seq<Byte>, opcode: Byte)
    requires |data| > 0
    ensures var frames := FragmentsFrom(data, opcode);
            && Payloads(frames) == data
            && frames[0].opcode == opcode % 16
            && (forall k :: 0 <= k < |frames| ==> (frames[k].fin <==> k == |frames| - 1))
            && (forall k :: 0 < k < |frames| ==> frames[k].opcode == 0)
            && (forall k :: 0 <= k < |frames| - 1 ==> |frames[k].payload| == 65520)
    decreases |data|
  {
    var frames := FragmentsFrom(data, opcode);
    if |data| <= DATA_FRAME_MAX_LEN {
      assert Payloads(frames) == frames[0].payload + Payloads([]);
    } else {
      var rest := FragmentsFrom(data[DATA_FRAME_MAX_LEN..], WS_CONTINUE_FRAME);
      FragmentsMakeUpTheMessage(data[DATA_FRAME_MAX_LEN..], WS_CONTINUE_FRAME);
      assert frames[1..] == rest;
      assert forall k :: 0 < k < |frames| ==> frames[k] == rest[k - 1];
      assert data[..DATA_FRAME_MAX_LEN] + data[DATA_FRAME_MAX_LEN..] == data;
    }
  }

  function EncodeAll(frames: seq<Frame>): seq<Byte>
    requires forall k :: 0 <= k < |frames| ==> |frames[k].payload| < 0x1_0000_0000
  {
    if |frames| == 0 then [] else EncodeFrame(frames[0], true) + EncodeAll(frames[1..])
  }

  lemma {:induction false} EncodeAllAppends(frames: seq<Frame>, last: Frame)
    requires forall k :: 0 <= k < |frames| ==> |frames[k].payload| < 0x1_0000_0000
    requires |last.payload| < 0x1_0000_0000
    ensures EncodeAll(frames + [last]) == EncodeAll(frames) + EncodeFrame(last, true)
  {
    hide EncodeFrame;
    if |frames| == 0 {
      assert frames + [last] == [last];
      assert EncodeAll([last]) == EncodeFrame(last, true) + EncodeAll([]);
    } else {
      EncodeAllAppends(frames[1..], last);
      assert (frames + [last])[1..] == frames[1..] + [last];
    }
  }

  // ---------------------------------------------------------------- streams

  /** The frames at the start of a stream and the bytes left over. */
  function ParseAll(t: seq<Byte>): (seq<Frame>, seq<Byte>)
    decreases |t|
  {
    match ParseFrame(t)
    case Complete(n, frame) => var (frames, rest) := ParseAll(t[n..]); ([frame] + frames, rest)
    case _ => ([], t)
  }

  /** Frames already recognised do not depend on what arrives later. */
  lemma {:induction false} ParseAllInPieces(a: seq<Byte>, b: seq<Byte>)
    ensures ParseAll(a + b)
         == (ParseAll(a).0 + ParseAll(ParseAll(a).1 + b).0, ParseAll(ParseAll(a).1 + b).1)
    decreases |a|
  {
    hide ParseFrame;
    match ParseFrame(a)
    case Complete(n, frame) =>
      ParseIsStable(a, b);
      assert (a + b)[n..] == a[n..] + b;
      ParseAllInPieces(a[n..], b);
      assert [frame] + (ParseAll(a[n..]).0 + ParseAll(ParseAll(a).1 + b).0)
          == ParseAll(a).0 + ParseAll(ParseAll(a).1 + b).0;
    case _ =>
      assert ParseAll(a) == ([], a);
      assert [] + ParseAll(a + b).0 == ParseAll(a + b).0;
  }

  lemma {:induction false} ParseAllOfEncoded(frames: seq<Frame>)
    requires forall k :: 0 <= k < |frames| ==> 0 < |frames[k].payload| < 0x1_0000_0000 && frames[k].opcode < 16
    ensures ParseAll(EncodeAll(frames)) == (frames, [])
  {
    if |frames| > 0 {
      var first, rest := EncodeFrame(frames[0], true), EncodeAll(frames[1..]);
      ParseOfEncoded(frames[0], true, rest);
      ParseAllOfEncoded(frames[1..]);
      assert (first + rest)[|first|..] == rest;
      assert [frames[0]] + frames[1..] == frames;
    }
  }

  lemma LengthNeedsOnlyTheHeader(t: seq<Byte>, n: nat)
    requires |t| >= 2 && ParseLength(t).Known? && ParseLength(t).header <= n <= |t|
    ensures ParseLength(t[..n]) == ParseLength(t)
  {
    var header := ParseLength(t).header;
    assert t[..n][1] == t[1];
    if header == 4 {
      assert t[..n][2..4] == t[2..4];
    } else if header == 10 {
      assert t[..n][2..6] == t[2..6];
      assert t[..n][6..10] == t[6..10];
    }
  }

  lemma CompleteNeedsOnlyItsBytes(t: seq<Byte>)
    requires ParseFrame(t).Complete?
    ensures ParseFrame(t[..ParseFrame(t).length]) == ParseFrame(t)
  {
    hide Mask;
    var n := ParseFrame(t).length;
    var u := t[..n];
    assert u[0] == t[0] && u[1] == t[1];
    if t[1] % 128 != 0 {
      var header, length := ParseLength(t).header, ParseLength(t).length;
      LengthNeedsOnlyTheHeader(t, n);
      var start := if t[1] >= 128 then header + 4 else header;
      SliceOfPrefix(u, t[n..], start, n);
      SliceOfPrefix(u, t[n..], header, start);
      assert t == u + t[n..];
      assert ParseBody(u, header, length) == ParseBody(t, header, length);
    }
  }

  lemma HeldIsShorter(held: seq<Byte>, chunk: seq<Byte>)
    requires ParseFrame(held).Incomplete? && ParseFrame(held + chunk).Complete?
    ensures |held| < ParseFrame(held + chunk).length
  {
    hide ParseFrame;
    var n := ParseFrame(held + chunk).length;
    if n <= |held| {
      CompleteNeedsOnlyItsBytes(held + chunk);
      assert (held + chunk)[..n] + held[n..] == held;
      ParseIsStable((held + chunk)[..n], held[n..]);
    }
  }

  /** The calls of `try_parse_protocol` on one received chunk: each is handed what the one before
      has not read (`read_count`), until all is read or the stream has failed. Gives the frames and
      the bytes the handle still holds of an unfinished one. */
  function Feed(held: seq<Byte>, chunk: seq<Byte>): (seq<Frame>, seq<Byte>)
    requires ParseFrame(held).Incomplete?
    decreases |chunk|
  {
    if |chunk| == 0 then ([], held)
    else
      match ParseFrame(held + chunk)
      case Complete(n, frame) =>
        HeldIsShorter(held, chunk);
        var (frames, rest) := Feed([], chunk[n - |held|..]);
        ([frame] + frames, rest)
      case _ => ([], held + chunk)
  }

  /** Reading a chunk call by call is parsing the held bytes and the chunk as one stream. */
  lemma {:induction false} FeedIsParseAll(held: seq<Byte>, chunk: seq<Byte>)
    requires ParseFrame(held).Incomplete?
    ensures Feed(held, chunk) == ParseAll(held + chunk)
    decreases |chunk|
  {
    if |chunk| == 0 {
      assert held + chunk == held;
    } else if ParseFrame(held + chunk).Complete? {
      var n := ParseFrame(held + chunk).length;
      HeldIsShorter(held, chunk);
      FeedIsParseAll([], chunk[n - |held|..]);
      assert (held + chunk)[n..] == [] + chunk[n - |held|..];
    }
  }

  /** The frames recognised over a run of received chunks. */
  function Received(held: seq<Byte>, chunks: seq<seq<Byte>>): (seq<Frame>, seq<Byte>)
    requires ParseFrame(held).Incomplete?
    decreases |chunks|
  {
    if |chunks| == 0 then ([], held)
    else
      var (first, rest) := Feed(held, chunks[0]);
      if ParseFrame(rest).Incomplete? then
        var (frames, left) := Received(rest, chunks[1..]);
        (first + frames, left)
      else (first, rest)
  }

  function Joined(chunks: seq<seq<Byte>>): seq<Byte> {
    if |chunks| == 0 then [] else chunks[0] + Joined(chunks[1..])
  }

  lemma {:induction false} ParseAllLeavesNoFrame(t: seq<Byte>)
    ensures !ParseFrame(ParseAll(t).1).Complete?
    decreases |t|
  {
    match ParseFrame(t)
    case Complete(n, _) => ParseAllLeavesNoFrame(t[n..]);
    case _ =>
  }

  /** The cutting into chunks does not show in the frames of a stream that never fails. */
  lemma {:induction false} ChunksDoNotMatter(held: seq<Byte>, chunks: seq<seq<Byte>>)
    requires ParseFrame(held).Incomplete?
    requires ParseFrame(ParseAll(held + Joined(chunks)).1).Incomplete?
    ensures Received(held, chunks) == ParseAll(held + Joined(chunks))
    decreases |chunks|
  {
    hide ParseFrame;
    if |chunks| == 0 {
      assert held + Joined(chunks) == held;
    } else {
      var (first, rest) := Feed(held, chunks[0]);
      FeedIsParseAll(held, chunks[0]);
      ParseAllInPieces(held + chunks[0], Joined(chunks[1..]));
      assert held + Joined(chunks) == held + chunks[0] + Joined(chunks[1..]);
      ParseAllLeavesNoFrame(held + chunks[0]);
      if ParseFrame(rest).Failed? {
        ParseIsStable(rest, Joined(chunks[1..]));
      } else {
        ChunksDoNotMatter(rest, chunks[1..]);
      }
    }
  }

  /** The trip as a whole: whatever the message, its opcode and the cutting of its bytes into chunks,
      the parser gives back the fragments and holds nothing at the end. */
  lemma MessageRoundTrip(data: seq<Byte>, opcode: Byte, chunks: seq<seq<Byte>>)
    requires |data| > 0 && Joined(chunks) == EncodeAll(FragmentsFrom(data, opcode))
    ensures var (frames, left) := Received([], chunks);
            && frames == FragmentsFrom(data, opcode)
            && left == []
            && Payloads(frames) == data
  {
    ParseAllOfEncoded(FragmentsFrom(data, opcode));
    assert [] + Joined(chunks) == Joined(chunks);
    ChunksDoNotMatter([], chunks);
    FragmentsMakeUpTheMessage(data, opcode);
  }
}
