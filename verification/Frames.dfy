/** WebSocket frames, section 5.2 of RFC 6455: `wsReadFrame` and `wsWriteFrame` in blockchain/api/ws.go. */
module Frames {
  import opened Machine
  import opened Masking

  type Byte = uint8

  // ----- the bits of a byte -----

  /** `b & 0x0F`. */
  function Low4(b: Byte): Byte {
    b % 16
  }

  /** `b & 0x7F`. */
  function Low7(b: Byte): Byte {
    if b < 128 then b else b - 128
  }

  /** `b & 0x80 != 0`. */
  predicate HighBit(b: Byte) {
    b >= 128
  }

  /** `0x80 | b`. */
  function SetHighBit(b: Byte): Byte {
    if b < 128 then b + 128 else b
  }

  const MAX_PAYLOAD := 0x10_0000

  datatype Failure = UnexpectedEnd | NotMasked | TooLarge

  datatype Frame = Frame(opcode: Byte, payload: seq<Byte>)

  datatype Reading = Read(frame: Frame) | Failed(reason: Failure)

  // ----- numbers as bytes -----

  function BigEndian(bytes: seq<Byte>): nat {
    if bytes == [] then 0 else BigEndian(bytes[..|bytes| - 1]) * 256 + bytes[|bytes| - 1]
  }

  function ToBigEndian(n: nat, k: nat): (bytes: seq<Byte>)
    ensures |bytes| == k
    decreases k
  {
    if k == 0 then [] else ToBigEndian(n / 256, k - 1) + [n % 256]
  }

  function Capacity(k: nat): nat {
    if k == 0 then 1 else 256 * Capacity(k - 1)
  }

  lemma {:induction false} BigEndianRoundTrip(n: nat, k: nat)
    requires n < Capacity(k)
    ensures BigEndian(ToBigEndian(n, k)) == n
    decreases k
  {
    if k > 0 {
      var bytes := ToBigEndian(n, k);
      BigEndianRoundTrip(n / 256, k - 1);
      assert bytes[..k - 1] == ToBigEndian(n / 256, k - 1);
    }
  }

  lemma {:induction false} BigEndianFits(bytes: seq<Byte>)
    ensures BigEndian(bytes) < Capacity(|bytes|)
  {
    if bytes != [] {
      BigEndianFits(bytes[..|bytes| - 1]);
    }
  }

  lemma Capacities()
    ensures Capacity(2) == 0x1_0000 && Capacity(8) == TWO64
  {
    assert Capacity(4) == 0x1_0000_0000;
  }

  // ----- writing -----

  /** The length field: 7 bits, or a marker and 16 or 64 bits. */
  function LengthField(n: nat): seq<Byte> {
    if n <= 125 then [n]
    else if n <= 65535 then [126] + ToBigEndian(n, 2)
    else [127] + ToBigEndian(n, 8)
  }

  function Header(opcode: Byte, n: nat): seq<Byte> {
    [128 + Low4(opcode)] + LengthField(n)
  }

  /** A frame as the server writes it; opcode 0 is refused. */
  function Written(opcode: Byte, payload: seq<Byte>): Option<seq<Byte>> {
    if opcode == 0 then None else Some(Header(opcode, |payload|) + payload)
  }

  method WriteFrame(opcode: Byte, payload: seq<Byte>) returns (bytes: Option<seq<Byte>>)
    ensures bytes == Written(opcode, payload)
  {
    if opcode == 0 {
      return None;
    }
    var hdr: seq<Byte> := [128 + Low4(opcode)];
    var n := |payload|;
    if n <= 125 {
      hdr := hdr + [n];
    } else if n <= 65535 {
      hdr := hdr + [126];
      hdr := hdr + ToBigEndian(n, 2);
    } else {
      hdr := hdr + [127];
      hdr := hdr + ToBigEndian(n, 8);
    }
    var out := hdr;
    if n > 0 {
      out := out + payload;
    }
    assert hdr == Header(opcode, n);
    assert out == hdr + payload;
    return Some(out);
  }

  // ----- masking, section 5.3 -----

  /** How many bytes follow the second one as the extended length. */
  function ExtendedSize(length7: Byte): nat {
    if length7 == 126 then 2 else if length7 == 127 then 8 else 0
  }

  /** What a client makes of written bytes: the mask bit set, the mask behind the header, the payload masked. */
  function FromClient(bytes: seq<Byte>, mask: seq<Byte>): seq<Byte>
    requires |mask| == 4 && |bytes| >= 2 && |bytes| >= 2 + ExtendedSize(bytes[1])
  {
    var h := 2 + ExtendedSize(bytes[1]);
    [bytes[0], SetHighBit(bytes[1])] + bytes[2..h] + mask + Masked(bytes[h..], mask)
  }

  // ----- reading -----

  datatype Length = Length(n: nat) | NoLength(reason: Failure)

  /** The payload length announced behind a second header byte, and the stream left behind it. */
  function LengthFrom(second: Byte, bytes: seq<Byte>): (Length, seq<Byte>) {
    var length7 := Low7(second);
    var size := ExtendedSize(length7);
    if |bytes| < size then (NoLength(UnexpectedEnd), [])
    else
      var n := if size == 0 then length7 else BigEndian(bytes[..size]);
      (if size == 8 && n > MAX_PAYLOAD then NoLength(TooLarge) else Length(n), bytes[size..])
  }

  /** A mask and a masked payload of n bytes. */
  function PayloadFrom(n: nat, bytes: seq<Byte>): (Option<seq<Byte>>, seq<Byte>) {
    if |bytes| < 4 + n then (None, [])
    else (Some(Masked(bytes[4..4 + n], bytes[..4])), bytes[4 + n..])
  }

  /** The rest of a frame whose two header bytes are known. */
  function ReadBehind(first: Byte, second: Byte, bytes: seq<Byte>): (Reading, seq<Byte>) {
    if !HighBit(second) then (Failed(NotMasked), bytes)
    else
      var (length, body) := LengthFrom(second, bytes);
      if length.NoLength? then (Failed(length.reason), body)
      else
        var (payload, rest) := PayloadFrom(length.n, body);
        (if payload.None? then Failed(UnexpectedEnd) else Read(Frame(Low4(first), payload.value)), rest)
  }

  /** One frame off the front of a stream, and the stream left behind it. */
  function ReadFrom(bytes: seq<Byte>): (Reading, seq<Byte>) {
    if |bytes| < 2 then (Failed(UnexpectedEnd), [])
    else ReadBehind(bytes[0], bytes[1], bytes[2..])
  }

  /** A buffered stream. */
  class Reader {
    var rest: seq<Byte>

    constructor (bytes: seq<Byte>)
      ensures rest == bytes
    {
      rest := bytes;
    }

    /** `io.ReadFull`: all n bytes, or the end of the stream. */
    method ReadFull(n: nat) returns (bytes: Option<seq<Byte>>)
      modifies this
      ensures bytes == if |old(rest)| < n then None else Some(old(rest)[..n])
      ensures rest == if |old(rest)| < n then [] else old(rest)[n..]
    {
      if |rest| < n {
        rest := [];
        return None;
      }
      bytes := Some(rest[..n]);
      rest := rest[n..];
    }

    method ReadLength(second: Byte) returns (length: Length)
      modifies this
      ensures (length, rest) == LengthFrom(second, old(rest))
    {
      var length7 := Low7(second);
      if length7 == 126 {
        var b := ReadFull(2);
        return if b.None? then NoLength(UnexpectedEnd) else Length(BigEndian(b.value));
      } else if length7 == 127 {
        var b := ReadFull(8);
        if b.None? {
          return NoLength(UnexpectedEnd);
        }
        var n := BigEndian(b.value);
        return if n > MAX_PAYLOAD then NoLength(TooLarge) else Length(n);
      }
      return Length(length7);
    }

    method ReadPayload(n: nat) returns (payload: Option<seq<Byte>>)
      modifies this
      ensures (payload, rest) == PayloadFrom(n, old(rest))
    {
      ghost var bytes := rest;
      var mask := ReadFull(4);
      if mask.None? {
        return None;
      }
      var raw := ReadFull(n);
      if raw.None? {
        return None;
      }
      assert raw.value == bytes[4..4 + n];
      var buffer := new Byte[n](i requires 0 <= i < n => raw.value[i]);
      assert buffer[..] == raw.value;
      Unmask(buffer, mask.value);
      return Some(buffer[..]);
    }

    method ReadFrame() returns (reading: Reading)
      modifies this
      ensures (reading, rest) == ReadFrom(old(rest))
    {
      var hdr := ReadFull(2);
      if hdr.None? {
        return Failed(UnexpectedEnd);
      }
      if !HighBit(hdr.value[1]) {
        return Failed(NotMasked);
      }
      var length := ReadLength(hdr.value[1]);
      if length.NoLength? {
        return Failed(length.reason);
      }
      var payload := ReadPayload(length.n);
      return if payload.None? then Failed(UnexpectedEnd) else Read(Frame(Low4(hdr.value[0]), payload.value));
    }
  }

  // ----- one frame there and back -----

  /** The length field survives setting the mask bit, and only lengths over the limit are refused. */
  lemma LengthReads(n: nat, tail: seq<Byte>)
    requires n < TWO64
    ensures
      var field := LengthField(n);
      && |field| == 1 + ExtendedSize(field[0])
      && LengthFrom(SetHighBit(field[0]), field[1..] + tail)
         == (if n > MAX_PAYLOAD then NoLength(TooLarge) else Length(n), tail)
  {
    var field := LengthField(n);
    if n <= 125 {
      assert field[1..] + tail == tail;
    } else {
      var size := if n <= 65535 then 2 else 8;
      Capacities();
      BigEndianRoundTrip(n, size);
      assert field[1..] == ToBigEndian(n, size);
      assert (field[1..] + tail)[..size] == field[1..];
      assert (field[1..] + tail)[size..] == tail;
    }
  }

  datatype Message = Message(opcode: Byte, payload: seq<Byte>, mask: seq<Byte>)

  /** What a client can send: opcode 0 is refused on writing, masks have four bytes, lengths are 64-bit. */
  predicate Sendable(m: Message) {
    m.opcode != 0 && |m.mask| == 4 && |m.payload| < TWO64
  }

  function Expected(m: Message): Frame {
    Frame(Low4(m.opcode), m.payload)
  }

  /** One mebibyte at most. */
  predicate Fits(m: Message) {
    |m.payload| <= 1048576
  }

  function First(m: Message): Byte {
    128 + Low4(m.opcode)
  }

  function Second(m: Message): Byte {
    SetHighBit(LengthField(|m.payload|)[0])
  }

  function Extended(m: Message): seq<Byte> {
    LengthField(|m.payload|)[1..]
  }

  function Body(m: Message): seq<Byte>
    requires Sendable(m)
  {
    m.mask + Masked(m.payload, m.mask)
  }

  /** The bytes of a message on the wire. */
  function Sent(m: Message): seq<Byte>
    requires Sendable(m)
  {
    [First(m), Second(m)] + (Extended(m) + Body(m))
  }

  /** They are the server's own encoding, masked by a client. */
  lemma SentIsWritten(m: Message)
    requires Sendable(m)
    ensures Written(m.opcode, m.payload).Some?
    ensures var bytes := Written(m.opcode, m.payload).value;
      |bytes| >= 2 + ExtendedSize(bytes[1]) && FromClient(bytes, m.mask) == Sent(m)
  {
    FieldSize(|m.payload|);
    ClientInserts([First(m)], LengthField(|m.payload|), m.payload, m.mask);
  }

  lemma FieldSize(n: nat)
    requires n < TWO64
    ensures var field := LengthField(n); |field| == 1 + ExtendedSize(field[0])
  {
  }

  lemma ClientInserts(first: seq<Byte>, field: seq<Byte>, payload: seq<Byte>, mask: seq<Byte>)
    requires |first| == 1 && |mask| == 4 && |field| >= 1 && |field| == 1 + ExtendedSize(field[0])
    ensures FromClient(first + field + payload, mask)
         == [first[0], SetHighBit(field[0])] + (field[1..] + (mask + Masked(payload, mask)))
  {
    var bytes := first + field + payload;
    assert bytes[1] == field[0];
    assert bytes[2..1 + |field|] == field[1..];
    assert bytes[1 + |field|..] == payload;
  }

  lemma BodyReads(m: Message, rest: seq<Byte>)
    requires Sendable(m)
    ensures PayloadFrom(|m.payload|, Body(m) + rest) == (Some(m.payload), rest)
  {
    var n, bytes := |m.payload|, Body(m) + rest;
    MaskTwice(m.payload, m.mask);
    assert bytes[..4] == m.mask;
    assert bytes[4..4 + n] == Masked(m.payload, m.mask);
    assert bytes[4 + n..] == rest;
  }

  lemma BehindReads(m: Message, rest: seq<Byte>)
    requires Sendable(m)
    ensures Fits(m) ==>
      ReadBehind(First(m), Second(m), Extended(m) + (Body(m) + rest)) == (Read(Expected(m)), rest)
    ensures !Fits(m) ==>
      ReadBehind(First(m), Second(m), Extended(m) + (Body(m) + rest)).0 == Failed(TooLarge)
  {
    LengthReads(|m.payload|, Body(m) + rest);
    BodyReads(m, rest);
  }

  /** Reading what a client sent gives its message back and stops right behind it, exactly when it fits. */
  lemma RoundTrip(m: Message, rest: seq<Byte>)
    requires Sendable(m)
    ensures Fits(m) ==> ReadFrom(Sent(m) + rest) == (Read(Expected(m)), rest)
    ensures !Fits(m) ==> ReadFrom(Sent(m) + rest).0 == Failed(TooLarge)
    ensures m.opcode < 16 ==> Expected(m) == Frame(m.opcode, m.payload)
  {
    BehindReads(m, rest);
    HeaderSplits(First(m), Second(m), Extended(m), Body(m), rest);
  }

  lemma HeaderSplits(first: Byte, second: Byte, extended: seq<Byte>, body: seq<Byte>, rest: seq<Byte>)
    ensures ReadFrom([first, second] + (extended + body) + rest)
         == ReadBehind(first, second, extended + (body + rest))
  {
    var bytes := [first, second] + (extended + body) + rest;
    assert bytes[2..] == extended + (body + rest);
  }

  /** No proper beginning of a frame is taken for a frame. */
  lemma CutFrame(m: Message, i: nat)
    requires Sendable(m) && Fits(m) && i < |Sent(m)|
    ensures ReadFrom(Sent(m)[..i]).0 == Failed(UnexpectedEnd)
  {
    if i >= 2 {
      assert Sent(m)[..i] == [First(m), Second(m)] + (Extended(m) + Body(m))[..i - 2];
      assert Sent(m)[..i][2..] == (Extended(m) + Body(m))[..i - 2];
      CutBehind(m, i - 2);
    }
  }

  lemma CutBehind(m: Message, i: nat)
    requires Sendable(m) && Fits(m) && i < |Extended(m) + Body(m)|
    ensures ReadBehind(First(m), Second(m), (Extended(m) + Body(m))[..i]).0 == Failed(UnexpectedEnd)
  {
    var size := |Extended(m)|;
    if i < size {
      CutLength(|m.payload|, (Extended(m) + Body(m))[..i]);
    } else {
      var body := Body(m)[..i - size];
      assert (Extended(m) + Body(m))[..i] == Extended(m) + body;
      LengthReads(|m.payload|, body);
    }
  }

  lemma CutLength(n: nat, bytes: seq<Byte>)
    requires n < TWO64 && |bytes| < |LengthField(n)| - 1
    ensures LengthFrom(SetHighBit(LengthField(n)[0]), bytes) == (NoLength(UnexpectedEnd), [])
  {
    assert n > 125;
  }

  // ----- whole streams -----

  type Decoder = seq<Byte> -> (Reading, seq<Byte>)

  ghost predicate Consumes(read: Decoder) {
    forall bytes :: read(bytes).0.Read? ==> |read(bytes).1| < |bytes|
  }

  /** The reading loop: frames until the first failure. */
  ghost function ReadAll(read: Decoder, bytes: seq<Byte>): (seq<Frame>, Failure)
    requires Consumes(read)
    decreases |bytes|
  {
    match read(bytes)
    case (Failed(reason), _) => ([], reason)
    case (Read(frame), rest) => var (frames, reason) := ReadAll(read, rest); ([frame] + frames, reason)
  }

  lemma ReadFromConsumes()
    ensures Consumes(ReadFrom)
  {
    forall bytes ensures ReadFrom(bytes).0.Read? ==> |ReadFrom(bytes).1| < |bytes| {
      if |bytes| >= 2 {
        assert |LengthFrom(bytes[1], bytes[2..]).1| <= |bytes[2..]|;
      }
    }
  }

  /** Bytes a decoder turns into one frame, and any proper beginning of which it waits on. */
  ghost predicate Carries(read: Decoder, chunk: seq<Byte>, frame: Frame) {
    && (forall rest :: read(chunk + rest) == (Read(frame), rest))
    && (forall i :: 0 <= i < |chunk| ==> read(chunk[..i]).0 == Failed(UnexpectedEnd))
  }

  lemma MessageCarries(m: Message)
    requires Sendable(m) && Fits(m)
    ensures Carries(ReadFrom, Sent(m), Expected(m))
  {
    var chunk, frame := Sent(m), Expected(m);
    forall rest ensures ReadFrom(chunk + rest) == (Read(frame), rest) {
      RoundTrip(m, rest);
    }
    forall i | 0 <= i < |chunk| ensures ReadFrom(chunk[..i]).0 == Failed(UnexpectedEnd) {
      CutFrame(m, i);
    }
  }

  function Joined(chunks: seq<seq<Byte>>): seq<Byte> {
    if chunks == [] then [] else chunks[0] + Joined(chunks[1..])
  }

  /** How many chunks lie wholly in the first c bytes of the stream. */
  function Whole(chunks: seq<seq<Byte>>, c: nat): (k: nat)
    ensures k <= |chunks|
    decreases |chunks|
  {
    if chunks == [] || c < |chunks[0]| then 0 else 1 + Whole(chunks[1..], c - |chunks[0]|)
  }

  ghost predicate AllCarry(read: Decoder, chunks: seq<seq<Byte>>, frames: seq<Frame>) {
    |chunks| == |frames| && forall i :: 0 <= i < |chunks| ==> Carries(read, chunks[i], frames[i])
  }

  lemma ReadOne(read: Decoder, chunk: seq<Byte>, frame: Frame, rest: seq<Byte>)
    requires Consumes(read) && Carries(read, chunk, frame)
    ensures ReadAll(read, chunk + rest) == ([frame] + ReadAll(read, rest).0, ReadAll(read, rest).1)
  {
    assert read(chunk + rest) == (Read(frame), rest);
  }

  lemma CutOne(read: Decoder, chunk: seq<Byte>, frame: Frame, i: nat)
    requires Consumes(read) && Carries(read, chunk, frame) && i < |chunk|
    ensures ReadAll(read, chunk[..i]) == ([], UnexpectedEnd)
  {
    assert read(chunk[..i]).0 == Failed(UnexpectedEnd);
  }

  lemma {:induction false} CutChunks(read: Decoder, chunks: seq<seq<Byte>>, frames: seq<Frame>, c: nat)
    requires Consumes(read) && read([]).0 == Failed(UnexpectedEnd)
    requires AllCarry(read, chunks, frames) && c <= |Joined(chunks)|
    ensures ReadAll(read, Joined(chunks)[..c]) == (frames[..Whole(chunks, c)], UnexpectedEnd)
    decreases |chunks|
  {
    var bytes := Joined(chunks)[..c];
    if chunks == [] {
      assert bytes == [];
    } else if c < |chunks[0]| {
      assert bytes == chunks[0][..c];
      CutOne(read, chunks[0], frames[0], c);
    } else {
      var d := c - |chunks[0]|;
      assert bytes == chunks[0] + Joined(chunks[1..])[..d];
      ReadOne(read, chunks[0], frames[0], Joined(chunks[1..])[..d]);
      CutChunks(read, chunks[1..], frames[1..], d);
      var k := Whole(chunks[1..], d);
      assert frames[..1 + k] == [frames[0]] + frames[1..][..k];
    }
  }

  lemma {:induction false} ChunksThen(read: Decoder, chunks: seq<seq<Byte>>, frames: seq<Frame>, tail: seq<Byte>)
    requires Consumes(read) && AllCarry(read, chunks, frames)
    ensures ReadAll(read, Joined(chunks) + tail) == (frames + ReadAll(read, tail).0, ReadAll(read, tail).1)
    decreases |chunks|
  {
    var (more, reason) := ReadAll(read, tail);
    if chunks == [] {
      assert Joined(chunks) + tail == tail;
      assert frames + more == more;
    } else {
      var rest := Joined(chunks[1..]) + tail;
      JoinedFront(chunks, tail);
      ReadOne(read, chunks[0], frames[0], rest);
      ChunksThen(read, chunks[1..], frames[1..], tail);
      FrontFirst(frames, more);
    }
  }

  lemma JoinedFront(chunks: seq<seq<Byte>>, tail: seq<Byte>)
    requires chunks != []
    ensures Joined(chunks) + tail == chunks[0] + (Joined(chunks[1..]) + tail)
  {
  }

  lemma FrontFirst(frames: seq<Frame>, more: seq<Frame>)
    requires frames != []
    ensures [frames[0]] + (frames[1..] + more) == frames + more
  {
  }

  predicate AllSendable(ms: seq<Message>) {
    forall i :: 0 <= i < |ms| ==> Sendable(ms[i])
  }

  predicate AllFit(ms: seq<Message>) {
    forall i :: 0 <= i < |ms| ==> Fits(ms[i])
  }

  function SentAll(ms: seq<Message>): (r: seq<seq<Byte>>)
    requires AllSendable(ms)
    ensures |r| == |ms| && forall i :: 0 <= i < |ms| ==> r[i] == Sent(ms[i])
  {
    seq(|ms|, i requires 0 <= i < |ms| => Sent(ms[i]))
  }

  function ExpectedAll(ms: seq<Message>): (r: seq<Frame>)
    ensures |r| == |ms| && forall i :: 0 <= i < |ms| ==> r[i] == Expected(ms[i])
  {
    seq(|ms|, i requires 0 <= i < |ms| => Expected(ms[i]))
  }

  lemma MessagesCarry(ms: seq<Message>)
    requires AllSendable(ms) && AllFit(ms)
    ensures AllCarry(ReadFrom, SentAll(ms), ExpectedAll(ms))
  {
    forall i | 0 <= i < |ms| ensures Carries(ReadFrom, SentAll(ms)[i], ExpectedAll(ms)[i]) {
      MessageCarries(ms[i]);
    }
  }

  ghost function Received(bytes: seq<Byte>): (seq<Frame>, Failure) {
    ReadFromConsumes();
    ReadAll(ReadFrom, bytes)
  }

  /** A whole stream reads back message by message, and nothing is left over. */
  lemma StreamRoundTrip(ms: seq<Message>)
    requires AllSendable(ms) && AllFit(ms)
    ensures Received(Joined(SentAll(ms))) == (ExpectedAll(ms), UnexpectedEnd)
  {
    ReadFromConsumes();
    MessagesCarry(ms);
    ChunksThen(ReadFrom, SentAll(ms), ExpectedAll(ms), []);
    assert Joined(SentAll(ms)) + [] == Joined(SentAll(ms));
    assert ExpectedAll(ms) + [] == ExpectedAll(ms);
  }

  /** However a stream is cut off, the reader delivers exactly the messages that arrived whole, then the end. */
  lemma CutStream(ms: seq<Message>, c: nat)
    requires AllSendable(ms) && AllFit(ms) && c <= |Joined(SentAll(ms))|
    ensures Received(Joined(SentAll(ms))[..c]) == (ExpectedAll(ms)[..Whole(SentAll(ms), c)], UnexpectedEnd)
  {
    ReadFromConsumes();
    MessagesCarry(ms);
    CutChunks(ReadFrom, SentAll(ms), ExpectedAll(ms), c);
  }

  /** A message over the limit ends the reading: everything before it is delivered, nothing after it. */
  lemma OversizeStops(ms: seq<Message>, large: Message, rest: seq<Byte>)
    requires AllSendable(ms) && AllFit(ms) && Sendable(large) && !Fits(large)
    ensures Received(Joined(SentAll(ms)) + (Sent(large) + rest)) == (ExpectedAll(ms), TooLarge)
  {
    ReadFromConsumes();
    MessagesCarry(ms);
    RoundTrip(large, rest);
    ChunksThen(ReadFrom, SentAll(ms), ExpectedAll(ms), Sent(large) + rest);
    assert ExpectedAll(ms) + [] == ExpectedAll(ms);
  }

  // ----- the shortest form -----

  /** A reader accepts longer spellings of a length, but no accepted frame with this payload is shorter. */
  lemma ShortestForm(bytes: seq<Byte>, m: Message)
    requires Sendable(m)
    requires ReadFrom(bytes).0.Read? && ReadFrom(bytes).0.frame.payload == m.payload
    ensures |bytes| - |ReadFrom(bytes).1| >= |Sent(m)|
  {
    var length7 := Low7(bytes[1]);
    var size, n := ExtendedSize(length7), |m.payload|;
    LengthReads(n, []);
    Capacities();
    if size == 0 {
    } else {
      BigEndianFits(bytes[2..][..size]);
    }
  }

  // ----- bytes on the wire -----

  lemma {:induction false} BigEndianByte(n: nat, k: nat, i: nat)
    requires i < k
    ensures ToBigEndian(n, k)[k - 1 - i] == Digit(n, i)
    decreases k
  {
    var bytes := ToBigEndian(n, k);
    assert bytes[..k - 1] == ToBigEndian(n / 256, k - 1);
    if i > 0 {
      BigEndianByte(n / 256, k - 1, i - 1);
      assert bytes[k - 1 - i] == bytes[..k - 1][k - 1 - i];
    }
  }

  /** The i-th digit of a number to base 256, counted from the lowest. */
  function Digit(n: nat, i: nat): Byte {
    if i == 0 then n % 256 else Digit(n / 256, i - 1)
  }

  /** The header a server writes, byte by byte: final fragment and opcode, then the length in the shortest form. */
  lemma HeaderBytes(opcode: Byte, payload: seq<Byte>)
    requires opcode != 0 && |payload| < TWO64
    ensures Written(opcode, payload).Some?
    ensures
      var n, bytes := |payload|, Written(opcode, payload).value;
      && |bytes| >= 2 && bytes[0] == 0x80 + opcode % 16
      && (n <= 125 ==> bytes[1] == n && bytes[2..] == payload)
      && (125 < n <= 0xFFFF ==>
            |bytes| >= 4 && bytes[1] == 0x7E && bytes[2..4] == [n / 256, n % 256] && bytes[4..] == payload)
      && (0xFFFF < n ==>
            && |bytes| >= 10 && bytes[1] == 0x7F && bytes[10..] == payload
            && forall i :: 0 <= i < 8 ==> bytes[9 - i] == Digit(n, i))
  {
    var n := |payload|;
    var bytes := Written(opcode, payload).value;
    if n <= 125 {
      assert bytes[2..] == payload;
    } else if n <= 0xFFFF {
      TwoBytes(n);
      assert bytes[2..4] == ToBigEndian(n, 2) && bytes[4..] == payload;
    } else {
      assert bytes[2..10] == ToBigEndian(n, 8) && bytes[10..] == payload;
      forall i | 0 <= i < 8 ensures bytes[9 - i] == Digit(n, i) {
        BigEndianByte(n, 8, i);
        assert bytes[9 - i] == bytes[2..10][7 - i];
      }
    }
  }

  lemma TwoBytes(n: nat)
    requires n <= 0xFFFF
    ensures ToBigEndian(n, 2) == [n / 256, n % 256]
  {
    assert ToBigEndian(n / 256, 1) == ToBigEndian(n / 256 / 256, 0) + [n / 256];
  }

  /** A masked frame that announces n bytes of payload, behind a header of h bytes. */
  predicate Announces(bytes: seq<Byte>, h: nat, n: nat) {
    && |bytes| >= h
    && match h
       case 2 => n <= 125 && bytes[1] == 0x80 + n
       case 4 => bytes[1] == 0xFE && n == (bytes[2] as int) * 256 + (bytes[3] as int)
       case 10 => bytes[1] == 0xFF && n == BigEndian(bytes[2..10])
       case _ => false
  }

  lemma LengthAnnounced(bytes: seq<Byte>, h: nat, n: nat)
    requires Announces(bytes, h, n)
    ensures |bytes| >= 2 && HighBit(bytes[1])
    ensures LengthFrom(bytes[1], bytes[2..])
         == (if h == 10 && n > 1048576 then NoLength(TooLarge) else Length(n), bytes[h..])
  {
    var rest := bytes[2..];
    if h == 4 {
      assert rest[..2][..1] == [bytes[2]] && [bytes[2]][..0] == [];
      assert BigEndian([bytes[2]]) == bytes[2];
      assert rest[2..] == bytes[4..];
    } else if h == 10 {
      assert rest[..8] == bytes[2..10] && rest[8..] == bytes[10..];
    }
  }

  /**
   Such bytes are read as a frame exactly when the length is within the limit, for a 64-bit length, and all the payload is
   there: the opcode is in the low half of the first byte, the mask right behind the header, and each payload byte is laid
   over the next of its four bytes.
   */
  lemma ReadIff(bytes: seq<Byte>, h: nat, n: nat)
    requires Announces(bytes, h, n)
    ensures ReadFrom(bytes).0.Read? <==> (h == 10 ==> n <= 1048576) && |bytes| >= h + 4 + n
    ensures ReadFrom(bytes).0.Read? ==>
      var (reading, rest) := ReadFrom(bytes);
      && reading.frame.opcode == bytes[0] % 16
      && |reading.frame.payload| == n && rest == bytes[h + 4 + n..]
      && forall i :: 0 <= i < n ==> reading.frame.payload[i] == Xor(bytes[h + 4 + i], bytes[h + i % 4])
  {
    LengthAnnounced(bytes, h, n);
    if !(h == 10 && n > 1048576) {
      assert ReadFrom(bytes).0 == match PayloadFrom(n, bytes[h..]).0
        case None => Failed(UnexpectedEnd)
        case Some(payload) => Read(Frame(bytes[0] % 16, payload));
      PayloadBytes(n, bytes, h);
    }
  }

  lemma PayloadBytes(n: nat, bytes: seq<Byte>, h: nat)
    requires h <= |bytes|
    ensures PayloadFrom(n, bytes[h..]).0.Some? <==> |bytes| >= h + 4 + n
    ensures PayloadFrom(n, bytes[h..]).0.Some? ==>
      var (payload, rest) := PayloadFrom(n, bytes[h..]);
      && |payload.value| == n && rest == bytes[h + 4 + n..]
      && forall i :: 0 <= i < n ==> payload.value[i] == Xor(bytes[h + 4 + i], bytes[h + i % 4])
  {
  }

  /** A server's own frame, which is not masked, is no frame for a server. */
  lemma UnmaskedRefused(opcode: Byte, payload: seq<Byte>, rest: seq<Byte>)
    requires opcode != 0 && |payload| < TWO64
    ensures ReadFrom(Written(opcode, payload).value + rest).0 == Failed(NotMasked)
  {
    HeaderBytes(opcode, payload);
  }

  /** A length may be spelled in any form that holds it; up to the limit the frame is read all the same. */
  lemma AnyForm(m: Message, marker: Byte, rest: seq<Byte>)
    requires Sendable(m) && marker in {126, 127} && |m.payload| < Capacity(ExtendedSize(marker))
    ensures
      var bytes := [First(m), 128 + marker] + (ToBigEndian(|m.payload|, ExtendedSize(marker)) + Body(m)) + rest;
      if Fits(m) then ReadFrom(bytes) == (Read(Expected(m)), rest) else ReadFrom(bytes).0 == Failed(TooLarge)
  {
    var size := ExtendedSize(marker);
    var field := ToBigEndian(|m.payload|, size);
    Capacities();
    BigEndianRoundTrip(|m.payload|, size);
    HeaderSplits(First(m), 128 + marker, field, Body(m), rest);
    assert (field + (Body(m) + rest))[..size] == field;
    assert (field + (Body(m) + rest))[size..] == Body(m) + rest;
    BodyReads(m, rest);
  }
}
