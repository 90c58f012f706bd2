/** The WebSocket framer and incremental parser at work on their buffers. */
module WebSocketHandle {
  import opened Words
  import opened WebSocketFrames
  import opened MemoryBuffer

  /** `do_mask` on the bytes of a buffer from a place to the end. */
  method DoMask(buf: MemBuf, from: nat, key: seq<Byte>)
    requires buf.Valid() && from <= buf.size && |key| == 4
    modifies buf.data
    ensures buf.Contents() == old(buf.Contents())[..from] + Mask(old(buf.Contents())[from..], key)
    ensures forall k, bit | 0 <= k < buf.size - from && 0 <= bit < 8 ::
              Bit(buf.Contents()[from + k], bit)
              <==> Bit(old(buf.Contents())[from + k], bit) != Bit(key[k % 4], bit)
  {
    hide Mask, Xor, Bit;
    ghost var before := buf.Contents();
    ghost var masked := Mask(before[from..], key);
    var length := buf.size - from;
    for i := 0 to length
      invariant forall k :: from <= k < from + i ==> buf.data[k] == masked[k - from]
      invariant forall k :: 0 <= k < buf.size && (k < from || from + i <= k) ==> buf.data[k] == before[k]
    {
      MaskByXor(before[from..], key, i);
      buf.data[from + i] := Xor(buf.data[from + i], key[i % 4]);
    }
    forall k, bit | 0 <= k < length && 0 <= bit < 8
      ensures Bit(buf.Contents()[from + k], bit) <==> Bit(before[from + k], bit) != Bit(key[k % 4], bit)
    {
      MaskAt(before[from..], key, k, bit);
      assert buf.Contents()[from + k] == masked[k] && before[from..][k] == before[from + k];
    }
  }

  /** Fills the header of a frame. */
  method MakeHeader(length: nat, op: Byte, fin: bool, enableMask: bool) returns (header: seq<Byte>)
    requires length < 0x1_0000_0000
    ensures header == HeaderBeforeKey(fin, op, length, enableMask) + if enableMask then MASK else []
    ensures |header| <= 14
  {
    var maskFlag: nat := if enableMask then 128 else 0;
    var first: Byte := (if fin then 128 else 0) + op % 16;
    if length <= 125 {
      header := [first, maskFlag + length];
    } else if length <= 65535 {
      header := [first, maskFlag + 126] + TwoBytes(length);
    } else {
      header := [first, maskFlag + 127] + ([0, 0, 0, 0] + FourBytes(length));
    }
    assert header == HeaderBeforeKey(fin, op, length, enableMask);
    if enableMask {
      header := header + MASK;
    }
  }

  /** Appends one frame to the buffer; the payload is masked where it lies. */
  method GenerateWebsocketFrameWithoutFragment(buf: MemBuf, data: seq<Byte>, op: Byte, fin: bool,
                                               enableMask: bool)
    requires buf.Valid() && |data| < 0x1_0000_0000 && buf.size + |data| + 14 <= MAX_SIZE
    modifies buf, buf.data
    ensures buf.Valid() && (buf.data == old(buf.data) || fresh(buf.data))
    ensures buf.Contents() == old(buf.Contents()) + EncodeFrame(Frame(fin, op, data), enableMask)
  {
    hide Mask, HeaderBeforeKey;
    var header := MakeHeader(|data|, op, fin, enableMask);
    buf.AppendData(header);
    ghost var before := buf.Contents();
    buf.AppendData(data);
    if enableMask {
      assert buf.Contents()[|before|..] == data && buf.Contents()[..|before|] == before;
      DoMask(buf, buf.size - |data|, MASK);
    }
  }

  lemma FrameSize(frame: Frame)
    requires |frame.payload| < 0x1_0000_0000
    ensures |EncodeFrame(frame, true)| <= |frame.payload| + 14
    ensures EncodeFrame(frame.(opcode := frame.opcode % 16), true) == EncodeFrame(frame, true)
  {
    hide Mask;
    var opcode := frame.opcode % 16;
    assert opcode % 16 == opcode;
  }

  /** One round of the fragment loop: the frame for the next piece of the message. */
  method WrapPiece(buf: MemBuf, piece: seq<Byte>, op: Byte, counter: nat, fragNum: nat)
    requires buf.Valid() && |piece| < 0x1_0000_0000 && buf.size + |piece| + 14 <= MAX_SIZE && counter < fragNum
    modifies buf, buf.data
    ensures buf.Valid() && (buf.data == old(buf.data) || fresh(buf.data))
    ensures var frame := Frame(counter == fragNum - 1, if counter == 0 then op else WS_CONTINUE_FRAME, piece);
            buf.Contents() == old(buf.Contents()) + EncodeFrame(frame, true)
  {
    if fragNum == 1 {
      GenerateWebsocketFrameWithoutFragment(buf, piece, op, true, true);
    } else if counter == 0 {
      GenerateWebsocketFrameWithoutFragment(buf, piece, op, false, true);
    } else if counter == fragNum - 1 {
      GenerateWebsocketFrameWithoutFragment(buf, piece, WS_CONTINUE_FRAME, true, true);
    } else {
      GenerateWebsocketFrameWithoutFragment(buf, piece, WS_CONTINUE_FRAME, false, true);
    }
  }

  function FragmentCount(length: nat): nat {
    length / 65520 + if length % 65520 == 0 then 0 else 1
  }

  /** The round with the last piece is the one the count calls last. */
  lemma LastRound(length: nat, counter: nat, start: nat)
    requires start == counter * 65520 < length
    ensures counter < FragmentCount(length)
    ensures counter == FragmentCount(length) - 1 <==> length - start <= DATA_FRAME_MAX_LEN
  {
  }

  function OpcodeOf(op: Byte, counter: nat): Byte {
    if counter == 0 then op else WS_CONTINUE_FRAME
  }

  /** The buffer holds what it did before and the frames in front of the rest of the message. */
  ghost predicate Wrapped(contents: seq<Byte>, before: seq<Byte>, rest: seq<Byte>, op: Byte, all: seq<Frame>) {
    exists done: seq<Frame> ::
      && (forall k :: 0 <= k < |done| ==> |done[k].payload| < 0x1_0000_0000)
      && contents == before + EncodeAll(done)
      && all == done + Fragments(rest, op)
  }

  lemma FirstFragment(rest: seq<Byte>, op: Byte, num: nat)
    requires |rest| > 0 && num == if |rest| > DATA_FRAME_MAX_LEN then DATA_FRAME_MAX_LEN else |rest|
    ensures Fragments(rest, op)
         == [Frame(|rest| == num, op % 16, rest[..num])] + Fragments(rest[num..], WS_CONTINUE_FRAME)
  {
    assert rest[..|rest|] == rest;
  }

  lemma WrapStep(contents: seq<Byte>, before: seq<Byte>, rest: seq<Byte>, op: Byte, all: seq<Frame>, num: nat)
    requires |rest| > 0 && Wrapped(contents, before, rest, op, all)
    requires num == if |rest| > DATA_FRAME_MAX_LEN then DATA_FRAME_MAX_LEN else |rest|
    ensures var bytes := EncodeFrame(Frame(|rest| == num, op, rest[..num]), true);
            |bytes| <= num + 14 && Wrapped(contents + bytes, before, rest[num..], WS_CONTINUE_FRAME, all)
  {
    hide EncodeFrame, EncodeAll, Fragments, FragmentsFrom;
    var done: seq<Frame> :|
      && (forall k :: 0 <= k < |done| ==> |done[k].payload| < 0x1_0000_0000)
      && contents == before + EncodeAll(done)
      && all == done + Fragments(rest, op);
    var frame := Frame(|rest| == num, op % 16, rest[..num]);
    FrameSize(frame.(opcode := op));
    EncodeAllAppends(done, frame);
    FirstFragment(rest, op, num);
    var later := Fragments(rest[num..], WS_CONTINUE_FRAME);
    assert done + ([frame] + later) == done + [frame] + later;
    assert before + EncodeAll(done) + EncodeFrame(frame, true) == before + (EncodeAll(done) + EncodeFrame(frame, true));
  }

  /** Where the fragment loop is, and that there is room for the rest. */
  ghost predicate RoundFits(size: nat, length: nat, haveWrapped: nat, counter: nat, fragNum: nat) {
    && haveWrapped == counter * 65520 < length && counter < fragNum
    && size + (length - haveWrapped) + 14 * (fragNum - counter) <= MAX_SIZE
  }

  lemma FirstRoundFits(size: nat, length: nat)
    requires length > 0 && size + length + 14 * FragmentCount(length) <= MAX_SIZE
    ensures RoundFits(size, length, 0, 0, FragmentCount(length))
  {
  }

  /** One round: wraps the next piece of the message and tells how long it is. */
  method WrapNext(buf: MemBuf, data: seq<Byte>, op: Byte, haveWrapped: nat, counter: nat, fragNum: nat,
                  ghost before: seq<Byte>, ghost all: seq<Frame>) returns (num: nat)
    requires RoundFits(buf.size, |data|, haveWrapped, counter, fragNum) && fragNum == FragmentCount(|data|)
    requires buf.Valid() && haveWrapped <= |data|
    requires Wrapped(buf.Contents(), before, data[haveWrapped..], OpcodeOf(op, counter), all)
    modifies buf, buf.data
    ensures buf.Valid() && (buf.data == old(buf.data) || fresh(buf.data))
    ensures 0 < num <= |data| - haveWrapped && (haveWrapped + num < |data| <==> counter + 1 < fragNum)
    ensures counter + 1 < fragNum ==> RoundFits(buf.size, |data|, haveWrapped + num, counter + 1, fragNum)
    ensures Wrapped(buf.Contents(), before, data[haveWrapped + num..], WS_CONTINUE_FRAME, all)
  {
    hide EncodeFrame, FragmentsFrom, Wrapped, FragmentCount, EncodeAll;
    LastRound(|data|, counter, haveWrapped);
    num := if |data| - haveWrapped > DATA_FRAME_MAX_LEN then DATA_FRAME_MAX_LEN else |data| - haveWrapped;
    ghost var rest := data[haveWrapped..];
    var piece := data[haveWrapped..haveWrapped + num];
    assert piece == rest[..num];
    WrapStep(buf.Contents(), before, rest, OpcodeOf(op, counter), all, num);
    WrapPiece(buf, piece, op, counter, fragNum);
    assert rest[num..] == data[haveWrapped + num..];
  }

  lemma NothingWrapped(before: seq<Byte>, data: seq<Byte>, op: Byte)
    ensures Wrapped(before, before, data[0..], op, Fragments(data, op))
    ensures |data| == 0 ==> before == before + EncodeAll(Fragments(data, op))
  {
    assert data[0..] == data;
    assert before == before + EncodeAll([]);
    assert Fragments(data, op) == [] + Fragments(data, op);
  }

  lemma AllWrapped(contents: seq<Byte>, before: seq<Byte>, rest: seq<Byte>, all: seq<Frame>)
    requires |rest| == 0 && Wrapped(contents, before, rest, WS_CONTINUE_FRAME, all)
    ensures forall k :: 0 <= k < |all| ==> |all[k].payload| < 0x1_0000_0000
    ensures contents == before + EncodeAll(all)
  {
    var done: seq<Frame> :|
      && (forall k :: 0 <= k < |done| ==> |done[k].payload| < 0x1_0000_0000)
      && contents == before + EncodeAll(done)
      && all == done + Fragments(rest, WS_CONTINUE_FRAME);
    assert all == done;
  }

  /** Appends a message, cut into frames of at most DATA_FRAME_MAX_LEN bytes. */
  method GenerateWebsocketFrame(buf: MemBuf, data: seq<Byte>, op: Byte)
    requires buf.Valid() && buf.size + |data| + 14 * FragmentCount(|data|) <= MAX_SIZE
    modifies buf, buf.data
    ensures buf.Valid() && buf.Contents() == old(buf.Contents()) + EncodeAll(Fragments(data, op))
  {
    hide Wrapped, FragmentCount, Fragments, FragmentsFrom, EncodeAll;
    ghost var before, all := buf.Contents(), Fragments(data, op);
    NothingWrapped(before, data, op);
    if |data| == 0 {
      return;
    }
    var haveWrapped := 0;
    var fragNum := FragmentCount(|data|);
    var counter: nat := 0;
    FirstRoundFits(buf.size, |data|);
    hide RoundFits;
    while true
      invariant buf.Valid() && (buf.data == old(buf.data) || fresh(buf.data))
      invariant haveWrapped <= |data| && RoundFits(buf.size, |data|, haveWrapped, counter, fragNum)
      invariant Wrapped(buf.Contents(), before, data[haveWrapped..], OpcodeOf(op, counter), all)
      decreases |data| - haveWrapped
    {
      var num := WrapNext(buf, data, op, haveWrapped, counter, fragNum, before, all);
      haveWrapped := haveWrapped + num;
      counter := counter + 1;
      if !(haveWrapped < |data| && counter < fragNum) {
        break;
      }
    }
    AllWrapped(buf.Contents(), before, data[haveWrapped..], all);
  }

  lemma BufferedPart(held: seq<Byte>, data: seq<Byte>, readCount: nat, from: nat, to: nat)
    requires readCount <= |data|
    requires from <= to <= |held| + readCount
    ensures (held + data[..readCount])[from..to] == (held + data)[from..to]
  {
  }

  lemma UnbufferedPart(held: seq<Byte>, data: seq<Byte>, readCount: nat, from: nat, count: nat)
    requires from <= |held| + readCount && readCount + count <= |data|
    ensures held + data[..readCount] + data[readCount..readCount + count] == held + data[..readCount + count]
    ensures (held + data[..readCount])[from..] + data[readCount..readCount + count]
         == (held + data)[from..|held| + readCount + count]
  {
  }

  datatype ParseState = ParseComplete | ParseFailed | ParseIncomplete

  lemma BodyExtent(t: seq<Byte>, header: nat, length: nat)
    requires 2 <= header <= |t|
    ensures match ParseBody(t, header, length)
            case Complete(n, frame) =>
              n == header + (if t[1] >= 128 then 4 else 0) + length && |frame.payload| == length
            case _ => |t| < header + (if t[1] >= 128 then 4 else 0) + length
  {
  }

  /** The held bytes stop short of where the verdict on the whole falls. */
  ghost predicate Prompt(held: seq<Byte>, data: seq<Byte>) {
    match ParseFrame(held + data)
    case Complete(length, _) => |held| < length
    case Failed => |held| <= 6 && ParseFrame((held + data)[..6]).Failed?
    case Incomplete => true
  }

  /** What is left of the three reserved header bits: the field is three bits wide and the bits are
      stored unshifted. */
  function ReservedBits(first: Byte): nat { first / 16 % 8 * 16 % 8 }

  lemma FirstOfSlice(t: seq<Byte>, i: nat, j: nat)
    requires i < j <= |t|
    ensures |t[i..j]| == j - i && t[i..j][0] == t[i]
  {
  }

  lemma ReservedBitsAreLost(first: Byte)
    ensures ReservedBits(first) == 0
  {
  }

  lemma FailureShowsInSix(t: seq<Byte>)
    ensures |t| >= 6 ==> (ParseFrame(t).Failed? <==> ParseFrame(t[..6]).Failed?)
  {
    assert |t| >= 6 ==> t[..6][2..6] == t[2..6];
  }

  /** The held bytes of an unfinished or failed frame stop short of where the verdict on it falls. */
  lemma HeldIsPrompt(held: seq<Byte>, data: seq<Byte>)
    requires ParseFrame(held).Incomplete? || (ParseFrame(held).Failed? && |held| == 6)
    ensures Prompt(held, data)
  {
    var t := held + data;
    if ParseFrame(held).Failed? {
      ParseIsStable(held, data);
      assert t[..6] == held;
    } else if ParseFrame(t).Complete? {
      HeldIsShorter(held, data);
    } else {
      FailureShowsInSix(t);
      FailureShowsInSix(held);
      assert |held| >= 6 ==> held[..6] == t[..6];
    }
  }

  class WebsocketHandle {
    const protoBuf: MemBuf
    var isEof: bool
    var dfExt: nat
    var kind: Byte
    var hasMask: bool
    var payloadLen: nat
    var mask: seq<Byte>
    var realPayloadLen: nat
    var readCount: nat
    var parseState: ParseState

    constructor (protoBuf: MemBuf)
      requires protoBuf.Valid()
      ensures Valid() && Held() == [] && this.protoBuf == protoBuf
    {
      this.protoBuf := protoBuf;
      isEof, dfExt, kind, hasMask, payloadLen := false, 0, 0, false, 0;
      mask, realPayloadLen, readCount, parseState := [0, 0, 0, 0], 0, 0, ParseComplete;
    }

    /** Between calls the buffer holds the last payload, or the part of a frame read so far, or what
        was read of a frame found to be wrong. */
    ghost predicate Valid()
      reads this, protoBuf, protoBuf.data
    {
      && protoBuf.Valid() && |mask| == 4
      && match parseState
         case ParseComplete => true
         case ParseIncomplete => ParseFrame(protoBuf.Contents()).Incomplete?
         case ParseFailed => protoBuf.size == 6 && ParseFrame(protoBuf.Contents()).Failed?
    }

    /** The bytes held of an unfinished frame. */
    ghost function Held(): seq<Byte>
      requires protoBuf.Valid()
      reads this, protoBuf, protoBuf.data
    {
      if parseState == ParseComplete then [] else protoBuf.Contents()
    }

    /** Reading has come to the given place in the held bytes and the data after them, and what was
        read of the data is in the buffer as well. */
    ghost predicate ReadTo(held: seq<Byte>, data: seq<Byte>, at: nat)
      reads this, protoBuf, protoBuf.data
    {
      && protoBuf.Valid() && at <= |held| + |data| <= MAX_SIZE
      && readCount == (if at < |held| then 0 else at - |held|)
      && protoBuf.Contents() == held + data[..readCount]
    }

    lemma ReadSoFar(held: seq<Byte>, data: seq<Byte>, at: nat)
      requires ReadTo(held, data, at)
      ensures |held| <= at ==> protoBuf.Contents() == (held + data)[..at] && readCount == at - |held|
      ensures (held + data)[..|held| + |data|] == held + data
    {
      if |held| <= at {
        assert held + data[..readCount] == (held + data)[..at];
      }
    }

    /** `read_char_from_buf_or_data`: reads on through the buffer, then through the data. */
    method ReadCharFromBufOrData(data: seq<Byte>, bufRead: nat, readLen: nat, ghost held: seq<Byte>)
      returns (ok: bool, chars: seq<Byte>, next: nat)
      requires ReadTo(held, data, bufRead)
      modifies this`readCount, protoBuf, protoBuf.data
      ensures ok <==> bufRead + readLen <= |held| + |data|
      ensures next == if ok then bufRead + readLen else |held| + |data|
      ensures chars == (held + data)[bufRead..next]
      ensures ReadTo(held, data, next)
      ensures protoBuf.data == old(protoBuf.data) || fresh(protoBuf.data)
    {
      hide MemBuf.Bytes, MemBuf.Contents;
      if bufRead + readLen <= protoBuf.size {
        BufferedPart(held, data, readCount, bufRead, bufRead + readLen);
        return true, protoBuf.Bytes(bufRead, bufRead + readLen), bufRead + readLen;
      }
      var bufAvailable := protoBuf.size - bufRead;
      chars := protoBuf.Bytes(bufRead, protoBuf.size);
      next := bufRead + bufAvailable;
      ok := readCount + readLen - bufAvailable <= |data|;
      var count := if ok then readLen - bufAvailable else |data| - readCount;
      var more := data[readCount..readCount + count];
      UnbufferedPart(held, data, readCount, bufRead, count);
      chars := chars + more;
      protoBuf.AppendData(more);
      readCount := readCount + count;
      next := next + count;
    }

    /** Reads the length bytes after the first two. */
    method ReadLength(data: seq<Byte>, ghost held: seq<Byte>) returns (ok: bool, next: nat)
      requires ReadTo(held, data, 2) && parseState == ParseIncomplete
      requires 0 < payloadLen == (held + data)[1] % 128
      modifies this`readCount, this`realPayloadLen, this`parseState, protoBuf, protoBuf.data
      ensures ReadTo(held, data, next)
      ensures protoBuf.data == old(protoBuf.data) || fresh(protoBuf.data)
      ensures match ParseLength(held + data)
              case Short => !ok && next == |held| + |data| && parseState == ParseIncomplete
              case Unsupported => !ok && next == 6 && parseState == ParseFailed
              case Known(header, length) =>
                ok && next == header && realPayloadLen == length && parseState == ParseIncomplete
    {
      var extenLen;
      if payloadLen < 126 {
        realPayloadLen := payloadLen;
        return true, 2;
      } else if payloadLen == 126 {
        ok, extenLen, next := ReadCharFromBufOrData(data, 2, 2, held);
        if ok {
          realPayloadLen := ReadTwoBytes(extenLen);
        }
      } else {
        ok, extenLen, next := ReadCharFromBufOrData(data, 2, 4, held);
        if !ok {
          return;
        }
        if extenLen != [0, 0, 0, 0] {
          parseState := ParseFailed;
          ok := false;
          return;
        }
        ok, extenLen, next := ReadCharFromBufOrData(data, 6, 4, held);
        if ok {
          realPayloadLen := ReadFourBytes(extenLen);
        }
      }
    }

    /** Reads the masking key, if the frame has one; a part of it that is there is kept. */
    method ReadMask(data: seq<Byte>, bufRead: nat, ghost held: seq<Byte>) returns (ok: bool, next: nat)
      requires ReadTo(held, data, bufRead) && |mask| == 4
      modifies this`readCount, this`mask, protoBuf, protoBuf.data
      ensures ReadTo(held, data, next) && |mask| == 4
      ensures protoBuf.data == old(protoBuf.data) || fresh(protoBuf.data)
      ensures var start := if hasMask then bufRead + 4 else bufRead;
              && (ok <==> start <= |held| + |data|)
              && next == (if ok then start else |held| + |data|)
              && (ok && hasMask ==> mask == (held + data)[bufRead..start])
    {
      if !hasMask {
        return true, bufRead;
      }
      var chars;
      ok, chars, next := ReadCharFromBufOrData(data, bufRead, 4, held);
      mask := chars + mask[|chars|..];
    }

    /** Unmasks the payload where it lies and takes out the header in front of it. */
    method KeepPayload(header: nat)
      requires protoBuf.Valid() && |mask| == 4 && 2 <= header <= protoBuf.size
      modifies protoBuf, protoBuf.data
      ensures protoBuf.Valid() && protoBuf.data == old(protoBuf.data)
      ensures var payload := old(protoBuf.Contents())[header..];
              protoBuf.Contents() == if hasMask then Mask(payload, mask) else payload
    {
      hide Mask;
      if hasMask {
        DoMask(protoBuf, header, mask);
      }
      var zeroMisses := protoBuf.Remove(0, header);
      assert !zeroMisses;
    }

    method ReadPayload(data: seq<Byte>, start: nat, ghost held: seq<Byte>) returns (done: bool)
      requires 2 <= start && ReadTo(held, data, start) && |mask| == 4 && |held| < start + realPayloadLen
      modifies this`readCount, this`parseState, protoBuf, protoBuf.data
      ensures protoBuf.Valid()
      ensures protoBuf.data == old(protoBuf.data) || fresh(protoBuf.data)
      ensures var t, end := held + data, start + realPayloadLen;
              if end <= |t| then
                && done && parseState == ParseComplete && readCount == end - |held|
                && protoBuf.Contents() == if hasMask then Mask(t[start..end], mask) else t[start..end]
              else
                !done && parseState == old(parseState) && readCount == |data| && protoBuf.Contents() == t
    {
      hide Mask;
      var chars, next;
      done, chars, next := ReadCharFromBufOrData(data, start, realPayloadLen, held);
      ReadSoFar(held, data, next);
      if done {
        assert protoBuf.Contents()[start..] == (held + data)[start..next];
        KeepPayload(start);
        parseState := ParseComplete;
      }
    }

    /** Reads key and payload, unmasks the payload in the buffer and takes the header out. */
    method ReadBody(data: seq<Byte>, header: nat, ghost held: seq<Byte>) returns (done: bool)
      requires 2 <= header && ReadTo(held, data, header) && |mask| == 4 && parseState == ParseIncomplete
      requires hasMask == ((held + data)[1] >= 128)
      requires |held| < header + (if hasMask then 4 else 0) + realPayloadLen
      modifies this`readCount, this`mask, this`parseState, protoBuf, protoBuf.data
      ensures protoBuf.Valid() && |mask| == 4
      ensures protoBuf.data == old(protoBuf.data) || fresh(protoBuf.data)
      ensures match ParseBody(held + data, header, realPayloadLen)
              case Complete(length, frame) =>
                && done && parseState == ParseComplete && readCount == length - |held|
                && protoBuf.Contents() == frame.payload
              case _ =>
                && !done && parseState == ParseIncomplete && readCount == |data|
                && protoBuf.Contents() == held + data
    {
      hide Mask;
      var start;
      done, start := ReadMask(data, header, held);
      if !done {
        ReadSoFar(held, data, |held| + |data|);
        return;
      }
      done := ReadPayload(data, start, held);
    }

    /** Reads the first two bytes of a frame. */
    method ReadStart(data: seq<Byte>, ghost held: seq<Byte>) returns (ok: bool)
      requires ReadTo(held, data, 0) && |data| > 0
      modifies this`readCount, this`isEof, this`dfExt, this`kind, this`hasMask, this`payloadLen,
               protoBuf, protoBuf.data
      ensures protoBuf.data == old(protoBuf.data) || fresh(protoBuf.data)
      ensures var t := held + data;
              && dfExt == 0
              && ok == (|t| >= 2)
              && ReadTo(held, data, if ok then 2 else |t|)
              && isEof == (t[0] >= 128) && kind == t[0] % 16
              && (ok ==> hasMask == (t[1] >= 128) && payloadLen == t[1] % 128)
    {
      hide ReservedBits;
      var temp, next;
      ok, temp, next := ReadCharFromBufOrData(data, 0, 1, held);
      FirstOfSlice(held + data, 0, 1);
      isEof := temp[0] >= 128;
      // The reserved bits keep their places in a field three bits wide.
      dfExt := ReservedBits(temp[0]);
      ReservedBitsAreLost(temp[0]);
      kind := temp[0] % 16;
      ok, temp, next := ReadCharFromBufOrData(data, next, 1, held);
      if ok {
        FirstOfSlice(held + data, 1, 2);
        hasMask := temp[0] >= 128;
        payloadLen := temp[0] % 128;
      }
    }

    /** What a call that was given some data leaves behind. */
    ghost predicate Verdict(held: seq<Byte>, data: seq<Byte>, done: bool)
      reads this, protoBuf, protoBuf.data
    {
      var t := held + data;
      && protoBuf.Valid()
      && match ParseFrame(t)
         case Complete(length, frame) =>
           && done && parseState == ParseComplete && readCount == length - |held| > 0
           && isEof == frame.fin && kind == frame.opcode && realPayloadLen == |frame.payload|
           && protoBuf.Contents() == if t[1] % 128 == 0 then t[..2] else frame.payload
         case Incomplete =>
           !done && parseState == ParseIncomplete && readCount == |data| && protoBuf.Contents() == t
         case Failed =>
           !done && parseState == ParseFailed && protoBuf.Contents() == t[..6]
    }

    /** Reads the rest of a frame after its first two bytes. */
    method ReadRest(data: seq<Byte>, ghost held: seq<Byte>) returns (done: bool)
      requires ReadTo(held, data, 2) && |mask| == 4 && parseState == ParseIncomplete
      requires Prompt(held, data)
      requires var t := held + data;
               isEof == (t[0] >= 128) && kind == t[0] % 16
               && hasMask == (t[1] >= 128) && payloadLen == t[1] % 128
      modifies this`readCount, this`realPayloadLen, this`mask, this`parseState, protoBuf, protoBuf.data
      ensures |mask| == 4 && Verdict(held, data, done)
      ensures protoBuf.data == old(protoBuf.data) || fresh(protoBuf.data)
    {
      hide ParseLength, ParseBody;
      if payloadLen == 0 {
        realPayloadLen := 0;
        parseState := ParseComplete;
        ReadSoFar(held, data, 2);
        return true;
      }
      var next;
      done, next := ReadLength(data, held);
      if !done {
        ReadSoFar(held, data, next);
        return;
      }
      BodyExtent(held + data, next, realPayloadLen);
      done := ReadBody(data, next, held);
    }

    /** `try_parse_protocol`: looks for a whole frame in the bytes held and the data after them. */
    method TryParseProtocol(data: seq<Byte>) returns (done: bool)
      requires Valid() && |Held()| + |data| <= MAX_SIZE
      modifies this, protoBuf, protoBuf.data
      ensures Valid()
      ensures |data| == 0 ==>
                && !done && readCount == 0 && parseState == old(parseState)
                && protoBuf.Contents() == old(protoBuf.Contents())
      ensures |data| > 0 ==> Verdict(old(Held()), data, done) && dfExt == 0
      ensures protoBuf.data == old(protoBuf.data) || fresh(protoBuf.data)
    {
      hide ParseLength, ParseBody, Mask;
      readCount := 0;
      if |data| == 0 {
        return false;
      }
      ghost var held := Held();
      HeldIsPrompt(held, data);
      if parseState == ParseComplete {
        protoBuf.Clear(0);
        mask := [0, 0, 0, 0];
      }
      parseState := ParseIncomplete;
      assert held + data[..0] == held;
      done := ReadStart(data, held);
      if !done {
        ReadSoFar(held, data, |held| + |data|);
        return;
      }
      done := ReadRest(data, held);
    }
  }

  lemma EmptyFrame(t: seq<Byte>)
    requires ParseFrame(t).Complete?
    ensures t[1] % 128 == 0 ==> |ParseFrame(t).frame.payload| == 0
  {
  }

  /** One call, and the frame it recognises. */
  method ReceiveNext(handle: WebsocketHandle, data: seq<Byte>) returns (done: bool, frame: Frame, readCount: nat)
    requires handle.Valid() && ParseFrame(handle.Held()).Incomplete?
    requires 0 < |data| && |handle.Held()| + |data| <= MAX_SIZE
    modifies handle, handle.protoBuf, handle.protoBuf.data
    ensures handle.Valid()
    ensures handle.protoBuf.data == old(handle.protoBuf.data) || fresh(handle.protoBuf.data)
    ensures match ParseFrame(old(handle.Held()) + data)
            case Complete(length, f) =>
              done && frame == f && readCount == length - |old(handle.Held())| > 0 && handle.Held() == []
            case Incomplete =>
              !done && handle.parseState == ParseIncomplete && handle.Held() == old(handle.Held()) + data
            case Failed => !done && handle.parseState == ParseFailed
    ensures done ==> 0 < readCount <= |data|
  {
    hide ParseFrame;
    ghost var held := handle.Held();
    done := handle.TryParseProtocol(data);
    frame, readCount := Frame(handle.isEof, handle.kind, []), handle.readCount;
    if done && handle.realPayloadLen > 0 {
      EmptyFrame(held + data);
      frame := frame.(payload := handle.protoBuf.Bytes(0, handle.protoBuf.size));
    }
  }

  lemma FeedStep(held: seq<Byte>, chunk: seq<Byte>)
    requires ParseFrame(held).Incomplete?
    ensures ParseFrame([]).Incomplete?
    ensures |chunk| == 0 ==> Feed(held, chunk) == ([], held)
    ensures |chunk| > 0 ==>
              match ParseFrame(held + chunk)
              case Complete(n, frame) =>
                && |held| < n <= |held| + |chunk|
                && Feed(held, chunk).0 == [frame] + Feed([], chunk[n - |held|..]).0
                && Feed(held, chunk).1 == Feed([], chunk[n - |held|..]).1
              case _ => Feed(held, chunk) == ([], held + chunk)
  {
    assert ParseFrame([]).Incomplete?;
    hide ParseFrame;
    if |chunk| > 0 && ParseFrame(held + chunk).Complete? {
      HeldIsShorter(held, chunk);
    }
  }

  /** What a caller does with a received chunk: calls `try_parse_protocol` on what `read_count` says
      is still unread, and takes each payload before the next call. */
  method ReceiveChunk(handle: WebsocketHandle, chunk: seq<Byte>) returns (frames: seq<Frame>)
    requires handle.Valid() && ParseFrame(handle.Held()).Incomplete?
    requires |handle.Held()| + |chunk| <= MAX_SIZE
    modifies handle, handle.protoBuf, handle.protoBuf.data
    ensures handle.Valid()
    ensures var (recognised, left) := Feed(old(handle.Held()), chunk);
            && frames == recognised
            && (handle.parseState == ParseFailed <==> ParseFrame(left).Failed?)
            && (handle.parseState != ParseFailed ==> handle.Held() == left)
  {
    hide ParseFrame, Feed;
    var rest := chunk;
    frames := [];
    ghost var all, left := Feed(handle.Held(), chunk).0, Feed(handle.Held(), chunk).1;
    assert all == [] + all;
    while true
      invariant handle.Valid() && ParseFrame(handle.Held()).Incomplete?
      invariant |handle.Held()| + |rest| <= MAX_SIZE
      invariant handle.protoBuf.data == old(handle.protoBuf.data) || fresh(handle.protoBuf.data)
      invariant all == frames + Feed(handle.Held(), rest).0 && left == Feed(handle.Held(), rest).1
      decreases |rest|
    {
      FeedStep(handle.Held(), rest);
      if |rest| == 0 {
        assert handle.parseState != ParseFailed;
        return;
      }
      var done, frame, readCount := ReceiveNext(handle, rest);
      if !done {
        return;
      }
      rest := rest[readCount..];
      assert frames + ([frame] + Feed([], rest).0) == frames + [frame] + Feed([], rest).0;
      frames := frames + [frame];
    }
  }
}
