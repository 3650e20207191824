/** Packets on the wire: how a sender seals a packet into a frame, and how a session
    cuts the bytes it receives back into packets. */
module PacketStream {
  import opened Words
  import opened PacketCipher
  import opened RingBuffer

  const MAX_PAYLOAD: nat := DEFAULT_SIZE - HEADER_SIZE - 1
  const SESSION_BUFFER: nat := 6400
  const SESSION_CAPACITY: nat := SESSION_BUFFER - HEADER_SIZE - 1
  const POINTER_SIZE: nat := 8

  /** Code, length (low byte first), key byte, checksum. */
  function Header(code: Byte, rand: Byte, payload: Bytes): (h: Bytes)
    ensures |h| == HEADER_SIZE
  {
    [code, LowByte(|payload|), LowByte(|payload| / 0x100), rand, Sum(payload)]
  }

  function LengthField(header: Bytes): Word
    requires |header| >= HEADER_SIZE
  {
    var low: int, high: int := header[1], header[2];
    low + 0x100 * high
  }

  /** The bytes sent for one packet. */
  function Frame(code: Byte, rand: Byte, key: Byte, payload: Bytes): (f: Bytes)
    ensures |f| == HEADER_SIZE + |payload|
  {
    Header(code, rand, payload)[..HEADER_SIZE - 1] + Encrypt([Sum(payload)] + payload, rand, key)
  }

  lemma {:induction false} HeaderIs(code: Byte, rand: Byte, payload: Bytes)
    ensures Header(code, rand, payload) == [code, LowByte(|payload|), LowByte(|payload| / 0x100), rand, Sum(payload)]
  {
  }

  /** The header in arithmetic: the length is written low byte first. */
  lemma {:induction false} HeaderBytes(code: Byte, rand: Byte, payload: Bytes)
    requires |payload| < 0x1_0000
    ensures var h := Header(code, rand, payload);
            && |h| == 5 && h[0] == code && h[1] == |payload| % 0x100 && h[2] == |payload| / 0x100
            && h[3] == rand && h[4] == Sum(payload)
  {
  }

  // ---------- sending ----------

  lemma {:induction false} RunIsSlice(mem: Bytes, n: nat)
    requires HEADER_SIZE + n < |mem|
    ensures Run(mem, HEADER_SIZE, n) == mem[HEADER_SIZE..HEADER_SIZE + n]
  {
  }

  /** Builds the header, writes it and enciphers. The header is written once and the cipher
      runs once: a packet already sealed, as one that goes to several sessions is, stays as it
      was; one taken from a session keeps its header and is enciphered again. The cipher runs
      from the start of the ring, so the result is the contents' frame if nothing has been
      taken out of the packet. */
  method Seal(packet: SerialRingBuffer, code: Byte, rand: Byte, key: Byte)
    requires packet.Valid() && packet.front + packet.Used() <= packet.memory.Length == DEFAULT_SIZE
    modifies packet`headerFlag, packet`encodeFlag, packet.memory
    ensures packet.Valid() && packet.headerFlag && packet.encodeFlag
    ensures var n, mem, mem', header := packet.Used(), old(packet.memory[..]), packet.memory[..],
                                        Header(code, rand, old(packet.Contents()));
            match (old(packet.headerFlag), old(packet.encodeFlag))
            case (true, true) => mem' == mem
            case (true, false) => mem' == Resealed(mem, n, Encrypt(mem[HEADER_SIZE - 1..HEADER_SIZE + n], mem[3], key))
            case (false, true) => mem' == header + mem[HEADER_SIZE..]
            case (false, false) =>
              && mem'[0] == code && mem'[1] == n % 0x100 && mem'[2] == n / 0x100 && mem'[3] == rand
              && mem'[..HEADER_SIZE + n]
                 == header[..HEADER_SIZE - 1] + Encrypt([header[4]] + mem[HEADER_SIZE..HEADER_SIZE + n], rand, key)
              && (packet.front == HEADER_SIZE ==>
                    mem'[..HEADER_SIZE + n] == Frame(code, rand, key, old(packet.Contents())))
  {
    hide EncryptFrom, Encrypt, Resealed, Run, Pos, Steps, Header, Frame;
    var len := packet.GetUseSize();
    var checkSum := packet.SumFromFront(len);
    var header := [code, LowByte(len), LowByte(len / 0x100), rand, checkSum];
    HeaderIs(code, rand, packet.Contents());
    ghost var payload, mem := packet.Contents(), packet.memory[..];
    packet.SetWanHeader(header);
    ghost var mem1 := packet.memory[..];
    SameBlock(mem, mem1, header, old(packet.headerFlag));
    packet.Encode(key);
    if !old(packet.headerFlag) && !old(packet.encodeFlag) {
      FreshlySealed(mem, mem1, packet.memory[..], len, code, rand, key, payload);
      if packet.front == HEADER_SIZE { SealedIsFrame(mem, packet.memory[..], len, code, rand, key); }
    }
  }

  /** The block of a packet sealed for the first time. */
  lemma {:induction false} FreshlySealed(mem: Bytes, mem1: Bytes, mem': Bytes, n: nat, code: Byte, rand: Byte, key: Byte,
                                         payload: Bytes)
    requires HEADER_SIZE + n <= |mem| && |payload| == n < 0x1_0000
    requires mem1 == Header(code, rand, payload) + mem[HEADER_SIZE..]
    requires |mem1| == |mem| && mem' == Resealed(mem1, n, Encrypt(mem1[HEADER_SIZE - 1..HEADER_SIZE + n], mem1[3], key))
    ensures mem'[0] == code && mem'[1] == n % 0x100 && mem'[2] == n / 0x100 && mem'[3] == rand
    ensures var header := Header(code, rand, payload);
            mem'[..HEADER_SIZE + n]
            == header[..HEADER_SIZE - 1] + Encrypt([header[4]] + mem[HEADER_SIZE..HEADER_SIZE + n], rand, key)
  {
    HeaderBytes(code, rand, payload);
    hide Header, Encrypt;
    SealedFrame(mem, mem1, n, code, rand, key, payload);
    var front := Header(code, rand, payload)[..HEADER_SIZE - 1];
    assert forall i :: 0 <= i < 4 ==> mem'[i] == mem'[..HEADER_SIZE + n][i] == front[i];
  }

  lemma {:induction false} SealedIsFrame(mem: Bytes, mem': Bytes, n: nat, code: Byte, rand: Byte, key: Byte)
    requires HEADER_SIZE + n < |mem| && HEADER_SIZE + n <= |mem'|
    requires var header := Header(code, rand, Run(mem, HEADER_SIZE, n));
             mem'[..HEADER_SIZE + n]
             == header[..HEADER_SIZE - 1] + Encrypt([header[4]] + mem[HEADER_SIZE..HEADER_SIZE + n], rand, key)
    ensures mem'[..HEADER_SIZE + n] == Frame(code, rand, key, Run(mem, HEADER_SIZE, n))
  {
    RunIsSlice(mem, n);
    hide Run, Encrypt;
  }

  lemma {:induction false} SameBlock(mem: Bytes, mem1: Bytes, header: Bytes, kept: bool)
    requires |mem1| == |mem| >= HEADER_SIZE == |header|
    requires mem1[HEADER_SIZE..] == mem[HEADER_SIZE..]
    requires mem1[..HEADER_SIZE] == if kept then mem[..HEADER_SIZE] else header
    ensures mem1 == if kept then mem else header + mem[HEADER_SIZE..]
  {
    assert mem1 == mem1[..HEADER_SIZE] + mem1[HEADER_SIZE..];
    assert mem == mem[..HEADER_SIZE] + mem[HEADER_SIZE..];
  }

  /** A packet taken from a session and sent on unread goes out as the bytes it came in as:
      sealing undoes what opening did to its block. */
  lemma {:induction false} SentOnUnchanged(mem: Bytes, n: nat, key: Byte)
    requires HEADER_SIZE + n <= |mem|
    ensures var block := Resealed(mem, n, Decrypt(mem[HEADER_SIZE - 1..HEADER_SIZE + n], mem[3], key));
            Resealed(block, n, Encrypt(block[HEADER_SIZE - 1..HEADER_SIZE + n], block[3], key)) == mem
  {
    var cipher := mem[HEADER_SIZE - 1..HEADER_SIZE + n];
    var plain := Decrypt(cipher, mem[3], key);
    var block := Resealed(mem, n, plain);
    ResealedParts(mem, n, plain);
    CipherRoundTrip(cipher, mem[3], key);
    hide Encrypt, Decrypt;
    ResealedBack(mem, n, plain);
  }

  lemma {:induction false} ResealedParts(mem: Bytes, n: nat, sealed: Bytes)
    requires HEADER_SIZE + n <= |mem| && |sealed| == n + 1
    ensures var s := Resealed(mem, n, sealed);
            s[3] == mem[3] && s[HEADER_SIZE - 1..HEADER_SIZE + n] == sealed
  {
  }

  lemma {:induction false} ResealedBack(mem: Bytes, n: nat, sealed: Bytes)
    requires HEADER_SIZE + n <= |mem| && |sealed| == n + 1
    ensures Resealed(Resealed(mem, n, sealed), n, mem[HEADER_SIZE - 1..HEADER_SIZE + n]) == mem
  {
    assert mem == mem[..HEADER_SIZE - 1] + mem[HEADER_SIZE - 1..HEADER_SIZE + n] + mem[HEADER_SIZE + n..];
  }

  lemma {:induction false} SealedFrame(mem: Bytes, mem1: Bytes, n: nat, code: Byte, rand: Byte, key: Byte,
                                       payload: Bytes)
    requires HEADER_SIZE + n <= |mem| && |payload| == n
    requires mem1 == Header(code, rand, payload) + mem[HEADER_SIZE..]
    ensures |mem1| == |mem| && mem1[3] == rand
    ensures var header := Header(code, rand, payload);
            Resealed(mem1, n, Encrypt(mem1[HEADER_SIZE - 1..HEADER_SIZE + n], rand, key))[..HEADER_SIZE + n]
            == header[..HEADER_SIZE - 1] + Encrypt([header[4]] + mem[HEADER_SIZE..HEADER_SIZE + n], rand, key)
  {
    var header := Header(code, rand, payload);
    assert mem1[HEADER_SIZE - 1..HEADER_SIZE + n] == [header[4]] + mem[HEADER_SIZE..HEADER_SIZE + n];
    assert mem1[..HEADER_SIZE - 1] == header[..HEADER_SIZE - 1];
  }

  // ---------- receiving ----------

  /** The checksum and the payload that the first `n` payload bytes of `buf` decipher to. */
  function Opened(buf: Bytes, n: nat, key: Byte): (plain: Bytes)
    requires HEADER_SIZE + n <= |buf|
    ensures |plain| == n + 1
  {
    Decrypt(buf[HEADER_SIZE - 1..HEADER_SIZE + n], buf[3], key)
  }

  /** What deciphering leaves in a packet's block: the checksum, then the payload. */
  lemma {:induction false} PacketOpened(mem: Bytes, buf: Bytes, n: nat, key: Byte)
    requires HEADER_SIZE + n < |mem| && HEADER_SIZE + n <= |buf|
    requires mem[..HEADER_SIZE + n] == buf[..HEADER_SIZE + n]
    ensures var plain := Opened(buf, n, key);
            var block := Resealed(mem, n, Decrypt(mem[HEADER_SIZE - 1..HEADER_SIZE + n], mem[3], key));
            && block[HEADER_SIZE - 1] == plain[0]
            && block[HEADER_SIZE..HEADER_SIZE + n] == plain[1..]
            && Run(block, HEADER_SIZE, n) == plain[1..]
  {
  }

  /** One turn of the message loop on the received bytes: nothing complete yet, a
      disconnect, or a packet for the session's queue. */
  datatype Turn = Wait | Drop(left: Bytes) | Deliver(payload: Bytes, left: Bytes)

  /** `room` is the number of packets the session's queue can still take. */
  function NextTurn(code: Byte, key: Byte, buf: Bytes, room: nat): (t: Turn)
    ensures t.Deliver? ==> room > 0 && |t.left| < |buf|
  {
    if |buf| <= HEADER_SIZE then Wait
    else
      var len := LengthField(buf);
      if buf[0] != code || len > MAX_PAYLOAD || len == 0 || room == 0 then Drop(buf)
      else if |buf| - HEADER_SIZE < len then Wait
      else
        var plain := Opened(buf, len, key);
        var left := buf[HEADER_SIZE + len..];
        if plain[0] != Sum(plain[1..]) then Drop(left) else Deliver(plain[1..], left)
  }

  /** What decides a turn, in numbers: at least one byte behind the five of the header, the
      code, a payload length from 1 to 16378 with its low byte first, room in the queue, the
      whole payload, and its checksum. */
  lemma {:induction false} TurnInNumbers(code: Byte, key: Byte, buf: Bytes, room: nat)
    ensures |buf| <= 5 ==> NextTurn(code, key, buf, room) == Wait
    ensures |buf| > 5 ==>
              var turn, b1: int, b2: int := NextTurn(code, key, buf, room), buf[1], buf[2];
              var n := b1 + 0x100 * b2;
              if buf[0] != code || n == 0 || n > 16378 || room == 0 then turn == Drop(buf)
              else if |buf| < 5 + n then turn == Wait
              else
                var plain := Decrypt(buf[4..5 + n], buf[3], key);
                if Sum(plain[1..]) == plain[0] then turn == Deliver(plain[1..], buf[5 + n..])
                else turn == Drop(buf[5 + n..])
  {
    hide Decrypt, Sum;
  }

  /** One wrong payload byte beside a right checksum is noticed. */
  lemma {:induction false} WrongByteDrops(code: Byte, key: Byte, buf: Bytes, room: nat, payload: Bytes, k: nat)
    requires |buf| > 5 && buf[0] == code && room > 0 && buf[1] == |payload| % 0x100 && buf[2] == |payload| / 0x100
    requires k < |payload| <= 16378 && |buf| >= 5 + |payload|
    requires var plain := Decrypt(buf[4..5 + |payload|], buf[3], key);
             && plain[0] == Sum(payload) && plain[1..][k] != payload[k]
             && forall i :: 0 <= i < |payload| && i != k ==> plain[1..][i] == payload[i]
    ensures NextTurn(code, key, buf, room) == Drop(buf[5 + |payload|..])
  {
    hide Decrypt, Sum, NextTurn;
    TurnInNumbers(code, key, buf, room);
    OneByteChangesSum(Decrypt(buf[4..5 + |payload|], buf[3], key)[1..], payload, k);
  }

  /** What the whole loop does to a session's received bytes. */
  datatype Intake = Intake(delivered: seq<Bytes>, left: Bytes, dropped: bool)

  /** An intake to which packets delivered earlier are added. */
  function After(earlier: seq<Bytes>, r: Intake): Intake {
    Intake(earlier + r.delivered, r.left, r.dropped)
  }

  function Process(code: Byte, key: Byte, buf: Bytes, room: nat): (r: Intake)
    ensures |r.delivered| <= room
    decreases |buf|
  {
    match NextTurn(code, key, buf, room)
    case Wait => Intake([], buf, false)
    case Drop(left) => Intake([], left, true)
    case Deliver(payload, left) => After([payload], Process(code, key, left, room - 1))
  }

  lemma {:induction false} AfterParts(earlier: seq<Bytes>, r: Intake)
    ensures After(earlier, r) == Intake(earlier + r.delivered, r.left, r.dropped)
  {
  }

  lemma {:induction false} AfterAfter(xs: seq<Bytes>, ys: seq<Bytes>, r: Intake)
    ensures After(xs, After(ys, r)) == After(xs + ys, r)
    ensures After([], r) == r
  {
  }

  /** The loop, one turn at a time. */
  lemma {:induction false} TurnOfProcess(code: Byte, key: Byte, buf: Bytes, room: nat, earlier: seq<Bytes>)
    ensures match NextTurn(code, key, buf, room)
            case Wait => After(earlier, Process(code, key, buf, room)) == After(earlier, Intake([], buf, false))
            case Drop(left) => After(earlier, Process(code, key, buf, room)) == After(earlier, Intake([], left, true))
            case Deliver(m, left) =>
              After(earlier, Process(code, key, buf, room)) == After(earlier + [m], Process(code, key, left, room - 1))
  {
  }

  // ---------- whole streams ----------

  datatype Packet = Packet(rand: Byte, payload: Bytes)

  ghost predicate Sendable(packets: seq<Packet>) {
    forall i :: 0 <= i < |packets| ==> 0 < |packets[i].payload| <= MAX_PAYLOAD
  }

  function FrameOf(code: Byte, key: Byte, packet: Packet): Bytes {
    Frame(code, packet.rand, key, packet.payload)
  }

  function Frames(code: Byte, key: Byte, packets: seq<Packet>): (frames: seq<Bytes>)
    ensures |frames| == |packets|
  {
    seq(|packets|, i requires 0 <= i < |packets| => FrameOf(code, key, packets[i]))
  }

  function Payloads(packets: seq<Packet>): (payloads: seq<Bytes>)
    ensures |payloads| == |packets|
  {
    seq(|packets|, i requires 0 <= i < |packets| => packets[i].payload)
  }

  /** Byte strings sent one after the other. */
  function Flatten(parts: seq<Bytes>): Bytes {
    if parts == [] then [] else parts[0] + Flatten(parts[1..])
  }

  /** The bytes of several packets on the wire. */
  function Stream(code: Byte, key: Byte, packets: seq<Packet>): Bytes {
    Flatten(Frames(code, key, packets))
  }

  lemma {:induction false} TwoBytes(n: nat)
    requires n < 0x1_0000
    ensures LowByte(n) + 0x100 * LowByte(n / 0x100) == n
  {
  }

  lemma {:induction false} LengthOfHeader(code: Byte, rand: Byte, key: Byte, payload: Bytes)
    requires |payload| <= MAX_PAYLOAD
    ensures LengthField(Frame(code, rand, key, payload)) == |payload|
  {
    var f := Frame(code, rand, key, payload);
    assert f[1] == LowByte(|payload|) && f[2] == LowByte(|payload| / 0x100);
    TwoBytes(|payload|);
  }

  /** The parts of a buffer that begins with a whole frame. */
  lemma {:induction false} FrameParts(code: Byte, key: Byte, packet: Packet, rest: Bytes)
    ensures var f, n := FrameOf(code, key, packet), |packet.payload|;
            var buf := f + rest;
            && buf[0] == code && buf[3] == packet.rand && LengthField(buf) == LengthField(f)
            && buf[HEADER_SIZE - 1..HEADER_SIZE + n] == Encrypt([Sum(packet.payload)] + packet.payload, packet.rand, key)
            && buf[HEADER_SIZE + n..] == rest
  {
  }

  /** A whole frame at the head of the buffer delivers exactly its payload. */
  lemma {:induction false} FrameIsDelivered(code: Byte, key: Byte, packet: Packet, rest: Bytes, room: nat)
    requires 0 < |packet.payload| <= MAX_PAYLOAD && room > 0
    ensures NextTurn(code, key, FrameOf(code, key, packet) + rest, room) == Deliver(packet.payload, rest)
  {
    var plain := [Sum(packet.payload)] + packet.payload;
    FrameParts(code, key, packet, rest);
    LengthOfHeader(code, packet.rand, key, packet.payload);
    CipherRoundTrip(plain, packet.rand, key);
    assert plain[1..] == packet.payload;
  }

  /** Whatever the last byte of a frame is changed to on the way, the session is dropped. */
  lemma {:induction false} DamagedEndDrops(code: Byte, key: Byte, packet: Packet, last: Byte, rest: Bytes, room: nat)
    requires 0 < |packet.payload| <= MAX_PAYLOAD && room > 0
    requires var f := FrameOf(code, key, packet); last != f[|f| - 1]
    ensures var f := FrameOf(code, key, packet);
            NextTurn(code, key, f[|f| - 1 := last] + rest, room) == Drop(rest)
  {
    var f, n := FrameOf(code, key, packet), |packet.payload|;
    var buf, plain := f[|f| - 1 := last] + rest, [Sum(packet.payload)] + packet.payload;
    var cipher := Encrypt(plain, packet.rand, key);
    DamagedParts(code, key, packet, last, rest);
    hide *;
    DamagedPlain(plain, last, packet.rand, key);
    HeaderOfFrame(code, key, packet);
    WrongByteDrops(code, key, buf, room, packet.payload, n - 1);
  }

  /** What a damaged last cipher byte deciphers to: the last byte is wrong and no other. */
  lemma {:induction false} DamagedPlain(plain: Bytes, last: Byte, rand: Byte, key: Byte)
    requires plain != [] && last != Encrypt(plain, rand, key)[|plain| - 1]
    ensures var got := Decrypt(Encrypt(plain, rand, key)[|plain| - 1 := last], rand, key);
            && got[|plain| - 1] != plain[|plain| - 1]
            && forall i :: 0 <= i < |plain| - 1 ==> got[i] == plain[i]
  {
    hide *;
    var cipher, n := Encrypt(plain, rand, key), |plain| - 1;
    var bad := cipher[n := last];
    CipherRoundTrip(plain, rand, key);
    CipherRoundTrip(bad, rand, key);
    forall i | 0 <= i < n ensures Decrypt(bad, rand, key)[i] == plain[i] {
      DamageIsLocal(bad, cipher, n, i, rand, key);
    }
    assert bad[n] != cipher[n];
    assert Decrypt(bad, rand, key) != plain;
    var i :| 0 <= i <= n && Decrypt(bad, rand, key)[i] != plain[i];
  }

  lemma {:induction false} HeaderOfFrame(code: Byte, key: Byte, packet: Packet)
    requires |packet.payload| <= MAX_PAYLOAD
    ensures var f := FrameOf(code, key, packet);
            && |f| == 5 + |packet.payload| && |packet.payload| <= 16378
            && f[0] == code && f[1] == |packet.payload| % 0x100 && f[2] == |packet.payload| / 0x100 && f[3] == packet.rand
  {
    HeaderBytes(code, packet.rand, packet.payload);
    hide Header, Encrypt;
  }

  lemma {:induction false} DamagedParts(code: Byte, key: Byte, packet: Packet, last: Byte, rest: Bytes)
    requires packet.payload != []
    ensures var f, n := FrameOf(code, key, packet), |packet.payload|;
            var buf, plain := f[|f| - 1 := last] + rest, [Sum(packet.payload)] + packet.payload;
            var cipher := Encrypt(plain, packet.rand, key);
            && |f| == 5 + n && f[|f| - 1] == cipher[n]
            && buf[..4] == f[..4] && buf[4..5 + n] == cipher[n := last] && buf[5 + n..] == rest
  {
    hide Header, Encrypt;
  }

  /** An unfinished frame waits. */
  lemma {:induction false} PartialFrameWaits(code: Byte, key: Byte, packet: Packet, buf: Bytes, room: nat)
    requires 0 < |packet.payload| <= MAX_PAYLOAD && room > 0
    requires buf < FrameOf(code, key, packet)
    ensures NextTurn(code, key, buf, room) == Wait
  {
    var f := FrameOf(code, key, packet);
    LengthOfHeader(code, packet.rand, key, packet.payload);
    assert forall i :: 0 <= i < |buf| ==> buf[i] == f[i];
  }

  /** The number of leading frames that lie whole in the first `n` bytes. */
  function Whole(frames: seq<Bytes>, n: nat): (k: nat)
    ensures k <= |frames|
  {
    if frames == [] || n < |frames[0]| then 0 else 1 + Whole(frames[1..], n - |frames[0]|)
  }

  /** `r` is what the bytes `arrived` of the stream of `frames` must lead to in a session whose
      queue takes `room` packets: exactly the payloads of the frames whole in them, as far as
      the queue goes, and the beginning of the next frame left. The session is dropped exactly
      when the header of one frame too many has arrived with a byte behind it. */
  ghost predicate Faithful(frames: seq<Bytes>, payloads: seq<Bytes>, arrived: Bytes, room: nat, r: Intake)
    requires |frames| == |payloads|
  {
    var k := Min(Whole(frames, |arrived|), room);
    && r.delivered == payloads[..k]
    && (r.dropped <==> room < |frames| && |arrived| > |Flatten(frames[..room])| + HEADER_SIZE)
    && (!r.dropped ==>
          && arrived == Flatten(frames[..k]) + r.left
          && if k < |frames| then r.left < frames[k] else r.left == [])
  }

  lemma {:induction false} FlattenCons(f: Bytes, frames: seq<Bytes>)
    ensures Flatten([f] + frames) == f + Flatten(frames)
  {
  }

  lemma {:induction false} FaithfulCons(f: Bytes, m: Bytes, frames: seq<Bytes>, payloads: seq<Bytes>, rest: Bytes,
                                        room: nat, r: Intake)
    requires |frames| == |payloads| && room > 0 && Faithful(frames, payloads, rest, room - 1, r)
    ensures Faithful([f] + frames, [m] + payloads, f + rest, room, After([m], r))
  {
    hide *;
    var all, k := [f] + frames, Min(Whole(frames, |rest|), room - 1);
    FaithfulParts(frames, payloads, rest, room - 1, r);
    WholeCons(f, frames, rest, room);
    AfterParts([m], r);
    FlattenFirst(f, frames, k);
    if room <= |frames| { FlattenFirst(f, frames, room - 1); }
    assert ([m] + payloads)[..k + 1] == [m] + payloads[..k];
    assert f + (Flatten(frames[..k]) + r.left) == (f + Flatten(frames[..k])) + r.left;
    assert k < |frames| ==> all[k + 1] == frames[k];
    MakeFaithful(all, [m] + payloads, f + rest, room, After([m], r));
  }

  lemma {:induction false} WholeCons(f: Bytes, frames: seq<Bytes>, rest: Bytes, room: nat)
    requires room > 0
    ensures Min(Whole([f] + frames, |f + rest|), room) == Min(Whole(frames, |rest|), room - 1) + 1
  {
    assert ([f] + frames)[1..] == frames && |f + rest| - |f| == |rest|;
  }

  lemma {:induction false} FaithfulParts(frames: seq<Bytes>, payloads: seq<Bytes>, arrived: Bytes, room: nat, r: Intake)
    requires |frames| == |payloads| && Faithful(frames, payloads, arrived, room, r)
    ensures var k := Min(Whole(frames, |arrived|), room);
            && k <= |frames| && k <= room && r.delivered == payloads[..k]
            && (r.dropped <==> room < |frames| && |arrived| > |Flatten(frames[..room])| + HEADER_SIZE)
            && (!r.dropped ==>
                  && arrived == Flatten(frames[..k]) + r.left
                  && if k < |frames| then r.left < frames[k] else r.left == [])
  {
    hide Flatten, Whole;
  }

  lemma {:induction false} MakeFaithful(frames: seq<Bytes>, payloads: seq<Bytes>, arrived: Bytes, room: nat, r: Intake)
    requires |frames| == |payloads|
    requires var k := Min(Whole(frames, |arrived|), room);
             && k <= |frames| && r.delivered == payloads[..k]
             && (r.dropped <==> room < |frames| && |arrived| > |Flatten(frames[..room])| + HEADER_SIZE)
             && (!r.dropped ==>
                   && arrived == Flatten(frames[..k]) + r.left
                   && if k < |frames| then r.left < frames[k] else r.left == [])
    ensures Faithful(frames, payloads, arrived, room, r)
  {
    hide Flatten, Whole;
  }

  lemma {:induction false} FlattenFirst(f: Bytes, frames: seq<Bytes>, k: nat)
    requires k <= |frames|
    ensures Flatten(([f] + frames)[..k + 1]) == f + Flatten(frames[..k])
  {
    assert ([f] + frames)[..k + 1] == [f] + frames[..k];
    FlattenCons(f, frames[..k]);
  }

  lemma {:induction false} FaithfulStart(frames: seq<Bytes>, payloads: seq<Bytes>, arrived: Bytes, room: nat)
    requires |frames| == |payloads|
    requires if frames == [] then arrived == [] else arrived < frames[0]
    requires frames != [] && room == 0 ==> |arrived| <= HEADER_SIZE
    ensures Faithful(frames, payloads, arrived, room, Intake([], arrived, false))
  {
    if 0 < room < |frames| { FlattenFirst(frames[0], frames[1..], room - 1); assert [frames[0]] + frames[1..] == frames; }
  }

  /** With no room in the queue, one byte behind a header drops the session. */
  lemma {:induction false} NoRoom(code: Byte, key: Byte, frames: seq<Bytes>, payloads: seq<Bytes>, arrived: Bytes)
    requires |frames| == |payloads| > 0 && |frames[0]| > HEADER_SIZE && arrived <= Flatten(frames)
    ensures Faithful(frames, payloads, arrived, 0, Process(code, key, arrived, 0))
  {
    if |arrived| <= HEADER_SIZE {
      FlattenCons(frames[0], frames[1..]);
      assert [frames[0]] + frames[1..] == frames;
      var rest := PrefixStep(frames, frames[0], frames[1..], arrived);
      FaithfulStart(frames, payloads, arrived, 0);
    } else {
      assert NextTurn(code, key, arrived, 0) == Drop(arrived);
      assert frames[..0] == [];
    }
  }

  lemma {:induction false} FrameAtHead(code: Byte, key: Byte, packet: Packet, f: Bytes, rest: Bytes, room: nat)
    requires 0 < |packet.payload| <= MAX_PAYLOAD && room > 0 && f == FrameOf(code, key, packet)
    ensures Process(code, key, f + rest, room) == After([packet.payload], Process(code, key, rest, room - 1))
  {
    FrameIsDelivered(code, key, packet, rest, room);
  }

  lemma {:induction false} PartAtHead(code: Byte, key: Byte, packet: Packet, f: Bytes, buf: Bytes, room: nat)
    requires 0 < |packet.payload| <= MAX_PAYLOAD && room > 0 && f == FrameOf(code, key, packet) && buf < f
    ensures Process(code, key, buf, room) == Intake([], buf, false)
  {
    PartialFrameWaits(code, key, packet, buf, room);
  }

  lemma {:induction false} NothingArrived(code: Byte, key: Byte, room: nat)
    ensures Process(code, key, [], room) == Intake([], [], false)
  {
  }

  lemma {:induction false} FramesCons(code: Byte, key: Byte, packets: seq<Packet>)
    requires packets != []
    ensures Frames(code, key, packets) == [FrameOf(code, key, packets[0])] + Frames(code, key, packets[1..])
    ensures Payloads(packets) == [packets[0].payload] + Payloads(packets[1..])
  {
    hide FrameOf;
    var frames, rest := Frames(code, key, packets), Frames(code, key, packets[1..]);
    forall i | 0 < i < |packets| ensures frames[i] == rest[i - 1] {
      assert packets[1..][i - 1] == packets[i];
    }
  }

  lemma {:induction false} PrefixStep(frames: seq<Bytes>, f: Bytes, others: seq<Bytes>, arrived: Bytes)
    returns (rest: Bytes)
    requires frames == [f] + others && arrived <= Flatten(frames)
    ensures |arrived| < |f| ==> arrived < f
    ensures |arrived| >= |f| ==> arrived == f + rest && rest <= Flatten(others)
  {
    FlattenCons(f, others);
    if |arrived| < |f| {
      rest := [];
      assert arrived == (f + Flatten(others))[..|arrived|] == f[..|arrived|];
    } else {
      rest := arrived[|f|..];
      assert arrived == (f + Flatten(others))[..|arrived|];
      assert rest == Flatten(others)[..|rest|];
    }
  }

  lemma {:induction false} PrefixOfFrames(code: Byte, key: Byte, packets: seq<Packet>, frames: seq<Bytes>,
                                          arrived: Bytes, room: nat)
    requires Sendable(packets) && frames == Frames(code, key, packets) && arrived <= Flatten(frames)
    ensures Faithful(frames, Payloads(packets), arrived, room, Process(code, key, arrived, room))
    decreases |packets|
  {
    hide NextTurn, FrameOf, Faithful, Process;
    if packets == [] {
      NothingArrived(code, key, room);
      FaithfulStart(frames, Payloads(packets), arrived, room);
    } else {
      FramesCons(code, key, packets);
      FrameLength(code, key, packets[0]);
      if room == 0 {
        NoRoom(code, key, frames, Payloads(packets), arrived);
        return;
      }
      var f, others := frames[0], frames[1..];
      var rest := PrefixStep(frames, f, others, arrived);
      if |arrived| < |f| {
        PartAtHead(code, key, packets[0], f, arrived, room);
        FaithfulStart(frames, Payloads(packets), arrived, room);
      } else {
        FrameAtHead(code, key, packets[0], f, rest, room);
        PrefixOfFrames(code, key, packets[1..], others, rest, room - 1);
        FaithfulCons(f, packets[0].payload, others, Payloads(packets[1..]), rest, room, Process(code, key, rest, room - 1));
      }
    }
  }

  lemma {:induction false} FrameLength(code: Byte, key: Byte, packet: Packet)
    ensures |FrameOf(code, key, packet)| == HEADER_SIZE + |packet.payload|
  {
  }

  /** At every moment of the transfer: whatever has arrived, a prefix of what was sent,
      has delivered exactly the packets that are whole in it, and waits for the rest, unless
      there are more packets than the queue has room for. */
  lemma {:induction false} PrefixIsDelivered(code: Byte, key: Byte, packets: seq<Packet>, arrived: Bytes, room: nat)
    requires Sendable(packets) && arrived <= Stream(code, key, packets)
    ensures Faithful(Frames(code, key, packets), Payloads(packets), arrived, room, Process(code, key, arrived, room))
  {
    PrefixOfFrames(code, key, packets, Frames(code, key, packets), arrived, room);
  }

  // ---------- fragmentation ----------

  lemma {:induction false} SliceOfConcat(a: Bytes, b: Bytes, i: nat, j: nat)
    requires i <= j <= |a|
    ensures (a + b)[i..j] == a[i..j] && (a + b)[j..] == a[j..] + b
  {
  }

  lemma {:induction false} SameHead(a: Bytes, b: Bytes)
    requires |a| > HEADER_SIZE
    ensures LengthField(a + b) == LengthField(a) && (a + b)[0] == a[0] && (a + b)[3] == a[3]
  {
  }

  /** Bytes that arrive later only add to what an earlier turn would do. */
  lemma {:induction false} LaterBytesKeepTurn(code: Byte, key: Byte, a: Bytes, b: Bytes, room: nat)
    requires NextTurn(code, key, a, room).Deliver?
    ensures NextTurn(code, key, a + b, room)
         == Deliver(NextTurn(code, key, a, room).payload, NextTurn(code, key, a, room).left + b)
  {
    var buf, n := a + b, LengthField(a);
    SameHead(a, b);
    SliceOfConcat(a, b, HEADER_SIZE - 1, HEADER_SIZE + n);
    hide Decrypt, Sum, LengthField;
    assert Opened(buf, n, key) == Opened(a, n, key);
  }

  /** Where the bytes are cut into receives makes no difference. */
  lemma {:induction false} ProcessInPieces(code: Byte, key: Byte, a: Bytes, b: Bytes, room: nat)
    requires !Process(code, key, a, room).dropped
    ensures var r := Process(code, key, a, room);
            Process(code, key, a + b, room)
            == After(r.delivered, Process(code, key, r.left + b, room - |r.delivered|))
    decreases |a|
  {
    hide NextTurn;
    match NextTurn(code, key, a, room)
    case Wait =>
      AfterAfter([], [], Process(code, key, a + b, room));
    case Drop(left) =>
    case Deliver(m, left) =>
      var r := Process(code, key, left, room - 1);
      LaterBytesKeepTurn(code, key, a, b, room);
      ProcessInPieces(code, key, left, b, room - 1);
      AfterAfter([m], r.delivered, Process(code, key, r.left + b, room - 1 - |r.delivered|));
  }

  /** A disconnect is not undone by bytes that arrive later, which are only left behind. */
  lemma {:induction false} DropPersists(code: Byte, key: Byte, a: Bytes, b: Bytes, room: nat)
    requires Process(code, key, a, room).dropped
    ensures var r := Process(code, key, a, room);
            Process(code, key, a + b, room) == Intake(r.delivered, r.left + b, true)
    decreases |a|
  {
    hide NextTurn;
    match NextTurn(code, key, a, room)
    case Wait =>
    case Drop(left) => LaterBytesKeepDrop(code, key, a, b, room);
    case Deliver(m, left) =>
      LaterBytesKeepTurn(code, key, a, b, room);
      DropPersists(code, key, left, b, room - 1);
  }

  lemma {:induction false} LaterBytesKeepDrop(code: Byte, key: Byte, a: Bytes, b: Bytes, room: nat)
    requires NextTurn(code, key, a, room).Drop?
    ensures NextTurn(code, key, a + b, room) == Drop(NextTurn(code, key, a, room).left + b)
  {
    var buf, n := a + b, LengthField(a);
    SameHead(a, b);
    hide Decrypt, Sum, LengthField;
    if HEADER_SIZE + n <= |a| {
      SliceOfConcat(a, b, HEADER_SIZE - 1, HEADER_SIZE + n);
      assert Opened(buf, n, key) == Opened(a, n, key);
    }
  }

  /** A session fed one completed receive after the other, up to its disconnect, with nothing
      taken from its queue. A receive of no bytes is the end of the connection. */
  function Feed(code: Byte, key: Byte, left: Bytes, chunks: seq<Bytes>, room: nat): Intake
    decreases |chunks|
  {
    if chunks == [] then Intake([], left, false)
    else if chunks[0] == [] then Intake([], left, true)
    else
      var r := Process(code, key, left + chunks[0], room);
      if r.dropped then r
      else After(r.delivered, Feed(code, key, r.left, chunks[1..], room - |r.delivered|))
  }

  ghost predicate NoneEmpty(chunks: seq<Bytes>) {
    forall i :: 0 <= i < |chunks| ==> chunks[i] != []
  }

  /** What is left after a processing has nothing more to deliver. */
  lemma {:induction false} LeftIsQuiet(code: Byte, key: Byte, a: Bytes, room: nat)
    requires !Process(code, key, a, room).dropped
    ensures var r := Process(code, key, a, room);
            Process(code, key, r.left, room - |r.delivered|) == Intake([], r.left, false)
  {
    hide NextTurn;
    var r := Process(code, key, a, room);
    ProcessInPieces(code, key, a, [], room);
    assert a + [] == a && r.left + [] == r.left;
    var again := Process(code, key, r.left, room - |r.delivered|);
    assert r.delivered == r.delivered + again.delivered;
    assert |again.delivered| == 0;
  }

  lemma {:induction false} FeedTurn(code: Byte, key: Byte, left: Bytes, chunks: seq<Bytes>, room: nat)
    requires chunks != [] && chunks[0] != []
    ensures var r := Process(code, key, left + chunks[0], room);
            Feed(code, key, left, chunks, room)
            == if r.dropped then r else After(r.delivered, Feed(code, key, r.left, chunks[1..], room - |r.delivered|))
  {
    hide Process;
  }

  /** Whatever bytes arrive, and however they are cut into receives, the session comes to the
      same packets and the same disconnect as if it had processed them at once. */
  lemma {:induction false} FeedIsProcess(code: Byte, key: Byte, left: Bytes, chunks: seq<Bytes>, room: nat)
    requires Process(code, key, left, room) == Intake([], left, false) && NoneEmpty(chunks)
    ensures var fed, whole := Feed(code, key, left, chunks, room), Process(code, key, left + Flatten(chunks), room);
            && fed.delivered == whole.delivered && fed.dropped == whole.dropped
            && (!whole.dropped ==> fed == whole)
    decreases |chunks|
  {
    hide Process;
    if chunks == [] {
      assert left + Flatten([]) == left;
    } else {
      var a, b := left + chunks[0], Flatten(chunks[1..]);
      assert left + Flatten(chunks) == a + b;
      var r := Process(code, key, a, room);
      FeedTurn(code, key, left, chunks, room);
      if r.dropped {
        DropPersists(code, key, a, b, room);
      } else {
        ProcessInPieces(code, key, a, b, room);
        LeftIsQuiet(code, key, a, room);
        FeedIsProcess(code, key, r.left, chunks[1..], room - |r.delivered|);
      }
    }
  }

  /** The end of the connection disconnects the session and delivers nothing more. */
  lemma {:induction false} FeedEnds(code: Byte, key: Byte, left: Bytes, chunks: seq<Bytes>, more: seq<Bytes>, room: nat)
    ensures var fed := Feed(code, key, left, chunks, room);
            Feed(code, key, left, chunks + [[]] + more, room) == Intake(fed.delivered, fed.left, true)
    decreases |chunks|
  {
    hide *;
    var all: seq<Bytes> := chunks + [[]] + more;
    if chunks != [] && chunks[0] != [] {
      var r := Process(code, key, left + chunks[0], room);
      assert all[0] == chunks[0] && all[1..] == chunks[1..] + [[]] + more;
      FeedTurn(code, key, left, chunks, room);
      FeedTurn(code, key, left, all, room);
      if !r.dropped {
        FeedEnds(code, key, r.left, chunks[1..], more, room - |r.delivered|);
        AfterParts(r.delivered, Feed(code, key, r.left, chunks[1..], room - |r.delivered|));
        AfterParts(r.delivered, Feed(code, key, r.left, all[1..], room - |r.delivered|));
      }
    } else {
      assert all[0] == [];
      FeedStopsAt(code, key, left, chunks, room);
      FeedStopsAt(code, key, left, all, room);
    }
  }

  lemma {:induction false} FeedStopsAt(code: Byte, key: Byte, left: Bytes, chunks: seq<Bytes>, room: nat)
    requires chunks == [] || chunks[0] == []
    ensures Feed(code, key, left, chunks, room) == Intake([], left, chunks != [])
  {
  }

  /** The whole transfer: however the sent bytes are cut into receives, at every moment
      exactly the packets that have arrived whole are delivered, in order, and the session is
      dropped exactly when there is one too many for its queue. */
  lemma {:induction false} FeedIsFaithful(code: Byte, key: Byte, packets: seq<Packet>, chunks: seq<Bytes>, room: nat)
    requires Sendable(packets) && NoneEmpty(chunks) && Flatten(chunks) <= Stream(code, key, packets)
    ensures Faithful(Frames(code, key, packets), Payloads(packets), Flatten(chunks), room, Feed(code, key, [], chunks, room))
  {
    hide NextTurn, Feed, Process, Stream, Frames, Flatten;
    PrefixIsDelivered(code, key, packets, Flatten(chunks), room);
    NothingArrived(code, key, room);
    assert [] + Flatten(chunks) == Flatten(chunks);
    FeedIsProcess(code, key, [], chunks, room);
    FaithfulAlike(Frames(code, key, packets), Payloads(packets), Flatten(chunks), room,
                  Process(code, key, Flatten(chunks), room), Feed(code, key, [], chunks, room));
  }

  lemma {:induction false} FaithfulAlike(frames: seq<Bytes>, payloads: seq<Bytes>, arrived: Bytes, room: nat,
                                         r: Intake, s: Intake)
    requires |frames| == |payloads| && Faithful(frames, payloads, arrived, room, r)
    requires s.delivered == r.delivered && s.dropped == r.dropped && (!r.dropped ==> s == r)
    ensures Faithful(frames, payloads, arrived, room, s)
  {
    hide Flatten, Whole;
  }

  // ---------- what fits a session's ring ----------

  /** The header check admits payloads up to the packet size, but a session's receive ring is
      smaller. A payload fits when its whole frame can lie in the ring. */
  ghost predicate FitsWhole(packet: Packet) {
    |packet.payload| <= SESSION_CAPACITY - HEADER_SIZE
  }

  /** Receives as a socket can complete them: each has bytes, and no more than the ring has
      free, until the session is dropped. */
  ghost predicate FitsRing(code: Byte, key: Byte, left: Bytes, chunks: seq<Bytes>, room: nat)
    decreases |chunks|
  {
    chunks == [] ||
    (chunks[0] != [] && |left| + |chunks[0]| <= SESSION_CAPACITY &&
     var r := Process(code, key, left + chunks[0], room);
     r.dropped || FitsRing(code, key, r.left, chunks[1..], room - |r.delivered|))
  }

  lemma {:induction false} FitsTurn(code: Byte, key: Byte, left: Bytes, chunks: seq<Bytes>, room: nat)
    requires chunks != []
    ensures var r := Process(code, key, left + chunks[0], room);
            FitsRing(code, key, left, chunks, room) <==>
            && chunks[0] != [] && |left| + |chunks[0]| <= SESSION_CAPACITY
            && (r.dropped || FitsRing(code, key, r.left, chunks[1..], room - |r.delivered|))
  {
    hide Process;
  }

  /** The window: one more receive is possible exactly when its bytes fit beside what is left. */
  lemma {:induction false} FitsSnoc(code: Byte, key: Byte, left: Bytes, chunks: seq<Bytes>, chunk: Bytes, room: nat)
    ensures var fed := Feed(code, key, left, chunks, room);
            FitsRing(code, key, left, chunks + [chunk], room) <==>
            && FitsRing(code, key, left, chunks, room)
            && (fed.dropped || (chunk != [] && |fed.left| + |chunk| <= SESSION_CAPACITY))
    decreases |chunks|
  {
    var all := chunks + [chunk];
    hide Process;
    FitsTurn(code, key, left, all, room);
    if chunks == [] {
      assert all[1..] == [];
    } else {
      FitsTurn(code, key, left, chunks, room);
      assert all[0] == chunks[0] && all[1..] == chunks[1..] + [chunk];
      if chunks[0] != [] {
        FeedTurn(code, key, left, chunks, room);
        var r := Process(code, key, left + chunks[0], room);
        if !r.dropped { FitsSnoc(code, key, r.left, chunks[1..], chunk, room - |r.delivered|); }
      }
    }
  }

  lemma {:induction false} LeftShrinks(code: Byte, key: Byte, buf: Bytes, room: nat)
    ensures |Process(code, key, buf, room).left| <= |buf|
    decreases |buf|
  {
    hide NextTurn;
    match NextTurn(code, key, buf, room)
    case Wait =>
    case Drop(left) => DropShrinks(code, key, buf, room);
    case Deliver(m, left) => LeftShrinks(code, key, left, room - 1);
  }

  lemma {:induction false} DropShrinks(code: Byte, key: Byte, buf: Bytes, room: nat)
    requires NextTurn(code, key, buf, room).Drop?
    ensures |NextTurn(code, key, buf, room).left| <= |buf|
  {
    hide Opened, LengthField;
  }

  lemma {:induction false} FlattenSplit(frames: seq<Bytes>, k: nat)
    requires k <= |frames|
    ensures Flatten(frames) == Flatten(frames[..k]) + Flatten(frames[k..])
    decreases k
  {
    if k == 0 {
      assert frames[..0] == [] && frames[0..] == frames;
    } else {
      var f, rest := frames[0], frames[1..];
      FlattenSplit(rest, k - 1);
      assert frames == [f] + rest && frames[k..] == rest[k - 1..];
      FlattenFirst(f, rest, k - 1);
      FlattenCons(f, rest);
      assert f + (Flatten(rest[..k - 1]) + Flatten(rest[k - 1..])) == (f + Flatten(rest[..k - 1])) + Flatten(rest[k - 1..]);
    }
  }

  /** Each of the first frames is no longer than all of them. */
  lemma {:induction false} FrameInPrefix(frames: seq<Bytes>, k: nat, i: nat)
    requires i < k <= |frames|
    ensures |frames[i]| <= |Flatten(frames[..k])|
  {
    FlattenSplit(frames[..k], i);
    assert frames[..k][i..] == [frames[i]] + frames[i + 1..k];
    FlattenCons(frames[i], frames[i + 1..k]);
  }

  lemma {:induction false} FramesFrom(code: Byte, key: Byte, packets: seq<Packet>, k: nat)
    requires k <= |packets|
    ensures Frames(code, key, packets)[k..] == Frames(code, key, packets[k..])
    ensures Sendable(packets) ==> Sendable(packets[k..])
  {
  }

  /** One receive into the ring cannot deliver a packet whose frame is longer than the ring. */
  lemma {:induction false} ReceiveStops(code: Byte, key: Byte, packets: seq<Packet>, buf: Bytes, room: nat, i: nat)
    requires Sendable(packets) && buf <= Stream(code, key, packets) && |buf| <= SESSION_CAPACITY
    requires i < |packets| && !FitsWhole(packets[i])
    ensures var r := Process(code, key, buf, room);
            |r.delivered| <= i && (!r.dropped ==>
              buf == Flatten(Frames(code, key, packets)[..|r.delivered|]) + r.left)
  {
    var frames, r := Frames(code, key, packets), Process(code, key, buf, room);
    PrefixIsDelivered(code, key, packets, buf, room);
    var k := Min(Whole(frames, |buf|), room);
    hide Process, NextTurn, FrameOf;
    assert r.delivered == Payloads(packets)[..k];
    if k > i {
      WholeFits(frames, |buf|);
      FlattenPrefix(frames, k, Whole(frames, |buf|));
      FrameInPrefix(frames, k, i);
      FrameLength(code, key, packets[i]);
    }
  }

  lemma {:induction false} WholeFits(frames: seq<Bytes>, n: nat)
    ensures |Flatten(frames[..Whole(frames, n)])| <= n
    decreases |frames|
  {
    if frames != [] && n >= |frames[0]| {
      WholeFits(frames[1..], n - |frames[0]|);
      assert frames == [frames[0]] + frames[1..];
      FlattenFirst(frames[0], frames[1..], Whole(frames[1..], n - |frames[0]|));
    }
  }

  lemma {:induction false} FlattenPrefix(frames: seq<Bytes>, j: nat, k: nat)
    requires j <= k <= |frames|
    ensures |Flatten(frames[..j])| <= |Flatten(frames[..k])|
  {
    FlattenSplit(frames[..k], j);
    assert frames[..k][..j] == frames[..j];
  }

  /** Nor can any number of them. */
  lemma {:induction false} FeedStops(code: Byte, key: Byte, packets: seq<Packet>, left: Bytes, chunks: seq<Bytes>,
                                     room: nat, i: nat)
    requires Sendable(packets) && left + Flatten(chunks) <= Stream(code, key, packets) && |left| <= SESSION_CAPACITY
    requires i < |packets| && !FitsWhole(packets[i]) && FitsRing(code, key, left, chunks, room)
    ensures var fed := Feed(code, key, left, chunks, room);
            |fed.delivered| <= i && |fed.left| <= SESSION_CAPACITY
    decreases |chunks|
  {
    hide *;
    if chunks == [] {
      FeedNothing(code, key, left, room);
    } else {
      var a := left + chunks[0];
      var r := Process(code, key, a, room);
      FlattenHead(left, chunks);
      PrefixOfPrefix(a, Flatten(chunks[1..]), Stream(code, key, packets));
      FitsTurn(code, key, left, chunks, room);
      FeedTurn(code, key, left, chunks, room);
      ReceiveStops(code, key, packets, a, room, i);
      LeftShrinks(code, key, a, room);
      if !r.dropped {
        StreamAfter(code, key, packets, a, Flatten(chunks[1..]), r.left, |r.delivered|);
        FeedStops(code, key, packets[|r.delivered|..], r.left, chunks[1..], room - |r.delivered|, i - |r.delivered|);
        AfterParts(r.delivered, Feed(code, key, r.left, chunks[1..], room - |r.delivered|));
      }
    }
  }

  lemma {:induction false} FeedNothing(code: Byte, key: Byte, left: Bytes, room: nat)
    ensures Feed(code, key, left, [], room) == Intake([], left, false)
  {
  }

  lemma {:induction false} FlattenHead(left: Bytes, chunks: seq<Bytes>)
    requires chunks != []
    ensures left + Flatten(chunks) == (left + chunks[0]) + Flatten(chunks[1..])
  {
  }

  lemma {:induction false} PrefixOfPrefix(a: Bytes, b: Bytes, s: Bytes)
    requires a + b <= s
    ensures a <= s
  {
    assert a == (a + b)[..|a|];
  }

  /** What is left and still to come belongs to the packets not yet delivered. */
  lemma {:induction false} StreamAfter(code: Byte, key: Byte, packets: seq<Packet>, a: Bytes, b: Bytes,
                                       left: Bytes, k: nat)
    requires Sendable(packets) && a + b <= Stream(code, key, packets) && k <= |packets|
    requires a == Flatten(Frames(code, key, packets)[..k]) + left
    ensures left + b <= Stream(code, key, packets[k..]) && Sendable(packets[k..])
  {
    var frames := Frames(code, key, packets);
    FramesFrom(code, key, packets, k);
    hide Frames, Flatten;
    FlattenSplit(frames, k);
    StreamRest(Flatten(frames[..k]), left, b, Flatten(frames[k..]));
  }

  lemma {:induction false} StreamRest(head: Bytes, left: Bytes, b: Bytes, rest: Bytes)
    requires head + left + b <= head + rest
    ensures left + b <= rest
  {
    var all := head + rest;
    assert left + b == (head + left + b)[|head|..];
    assert left + b == all[..|head + left + b|][|head|..];
    assert all[..|head + left + b|][|head|..] == rest[..|left + b|];
  }

  /** While every frame fits, the ring is never full, so a receive can always complete. */
  lemma {:induction false} WindowStaysOpen(code: Byte, key: Byte, packets: seq<Packet>, arrived: Bytes, room: nat,
                                           r: Intake)
    requires forall i :: 0 <= i < |packets| ==> FitsWhole(packets[i])
    requires Faithful(Frames(code, key, packets), Payloads(packets), arrived, room, r) && !r.dropped
    ensures |r.left| < SESSION_CAPACITY
  {
    var frames := Frames(code, key, packets);
    var k := Min(Whole(frames, |arrived|), room);
    if k < |frames| { FrameLength(code, key, packets[k]); }
  }

  /** A longer packet stops the session where it stands, whatever came before it and however
      it arrives: it is never delivered, nor anything after it, and the ring is full exactly
      when as much of it has arrived as the ring holds. No receive but the end of the
      connection can complete then. */
  lemma {:induction false} LongPacketStalls(code: Byte, key: Byte, packets: seq<Packet>, chunks: seq<Bytes>,
                                            room: nat, i: nat)
    requires Sendable(packets) && Flatten(chunks) <= Stream(code, key, packets)
    requires FitsRing(code, key, [], chunks, room)
    requires i < |packets| && !FitsWhole(packets[i]) && forall j :: 0 <= j < i ==> FitsWhole(packets[j])
    ensures var fed, before := Feed(code, key, [], chunks, room), |Flatten(Frames(code, key, packets)[..i])|;
            && |fed.delivered| <= i
            && (!fed.dropped ==>
                  && |Flatten(chunks)| <= before + SESSION_CAPACITY
                  && (|fed.left| == SESSION_CAPACITY <==> |Flatten(chunks)| == before + SESSION_CAPACITY)
                  && (|fed.left| == SESSION_CAPACITY ==>
                        fed.delivered == Payloads(packets)[..i] &&
                        forall chunk :: !FitsRing(code, key, [], chunks + [chunk], room)))
  {
    var fed, frames := Feed(code, key, [], chunks, room), Frames(code, key, packets);
    assert [] + Flatten(chunks) == Flatten(chunks);
    hide Feed, FitsRing, Stream, Frames, Process, NextTurn;
    FeedStops(code, key, packets, [], chunks, room, i);
    if !fed.dropped {
      FitsNoneEmpty(code, key, [], chunks, room);
      FeedIsFaithful(code, key, packets, chunks, room);
      StallPoint(code, key, packets, Flatten(chunks), room, i, fed);
      forall chunk | |fed.left| == SESSION_CAPACITY ensures !FitsRing(code, key, [], chunks + [chunk], room) {
        FitsSnoc(code, key, [], chunks, chunk, room);
      }
    }
  }

  lemma {:induction false} FitsNoneEmpty(code: Byte, key: Byte, left: Bytes, chunks: seq<Bytes>, room: nat)
    requires FitsRing(code, key, left, chunks, room) && !Feed(code, key, left, chunks, room).dropped
    ensures NoneEmpty(chunks)
    decreases |chunks|
  {
    hide *;
    if chunks != [] {
      FitsTurn(code, key, left, chunks, room);
      FeedTurn(code, key, left, chunks, room);
      var r := Process(code, key, left + chunks[0], room);
      AfterParts(r.delivered, Feed(code, key, r.left, chunks[1..], room - |r.delivered|));
      FitsNoneEmpty(code, key, r.left, chunks[1..], room - |r.delivered|);
    }
    NoneEmptyTurn(chunks);
  }

  lemma {:induction false} NoneEmptyTurn(chunks: seq<Bytes>)
    ensures NoneEmpty(chunks) <==> chunks == [] || (chunks[0] != [] && NoneEmpty(chunks[1..]))
  {
  }

  lemma {:induction false} StallPoint(code: Byte, key: Byte, packets: seq<Packet>, arrived: Bytes, room: nat,
                                      i: nat, r: Intake)
    requires i < |packets| && !FitsWhole(packets[i]) && forall j :: 0 <= j < i ==> FitsWhole(packets[j])
    requires Faithful(Frames(code, key, packets), Payloads(packets), arrived, room, r) && !r.dropped
    requires |r.delivered| <= i && |r.left| <= SESSION_CAPACITY
    ensures var before := |Flatten(Frames(code, key, packets)[..i])|;
            && |arrived| <= before + SESSION_CAPACITY
            && (|r.left| == SESSION_CAPACITY <==> |arrived| == before + SESSION_CAPACITY)
            && (|r.left| == SESSION_CAPACITY ==> r.delivered == Payloads(packets)[..i])
  {
    hide *;
    var frames, k := Frames(code, key, packets), |r.delivered|;
    FaithfulParts(frames, Payloads(packets), arrived, room, r);
    FrameAt(code, key, packets, k);
    FitsMeans(packets[k]);
    FlattenPrefix(frames, k, i);
    if k < i { FrameBehind(frames, k, i); }
  }

  lemma {:induction false} FrameAt(code: Byte, key: Byte, packets: seq<Packet>, k: nat)
    requires k < |packets|
    ensures |Frames(code, key, packets)[k]| == HEADER_SIZE + |packets[k].payload|
  {
  }

  lemma {:induction false} FitsMeans(packet: Packet)
    ensures FitsWhole(packet) <==> HEADER_SIZE + |packet.payload| <= SESSION_CAPACITY
  {
  }

  lemma {:induction false} FrameBehind(frames: seq<Bytes>, k: nat, i: nat)
    requires k < i <= |frames|
    ensures |Flatten(frames[..k])| + |frames[k]| <= |Flatten(frames[..i])|
  {
    FlattenSplit(frames[..i], k);
    assert frames[..i][..k] == frames[..k];
    assert frames[..i][k..] == [frames[k]] + frames[k + 1..i];
    FlattenCons(frames[k], frames[k + 1..i]);
  }

  // ---------- streams that get through ----------

  lemma {:induction false} FlattenSnoc(chunks: seq<Bytes>, chunk: Bytes)
    ensures Flatten(chunks + [chunk]) == Flatten(chunks) + chunk
    decreases |chunks|
  {
    if chunks == [] {
      assert [] + [chunk] == [chunk] && [chunk][1..] == [];
    } else {
      assert (chunks + [chunk])[1..] == chunks[1..] + [chunk];
      FlattenSnoc(chunks[1..], chunk);
      assert chunks[0] + (Flatten(chunks[1..]) + chunk) == (chunks[0] + Flatten(chunks[1..])) + chunk;
    }
  }

  /** While every frame fits, one byte more can always arrive. */
  lemma {:induction false} NextByteFits(code: Byte, key: Byte, packets: seq<Packet>, first: seq<Bytes>,
                                        next: Bytes, room: nat)
    requires Sendable(packets) && room >= |packets| && |next| == 1
    requires Flatten(first) + next <= Stream(code, key, packets)
    requires forall i :: 0 <= i < |packets| ==> FitsWhole(packets[i])
    requires FitsRing(code, key, [], first, room) && !Feed(code, key, [], first, room).dropped
    ensures Flatten(first + [next]) == Flatten(first) + next && FitsRing(code, key, [], first + [next], room)
    ensures !Feed(code, key, [], first + [next], room).dropped
  {
    hide *;
    FlattenSnoc(first, next);
    FitsNoneEmpty(code, key, [], first, room);
    PrefixOfPrefix(Flatten(first), next, Stream(code, key, packets));
    FeedIsFaithful(code, key, packets, first, room);
    WindowStaysOpen(code, key, packets, Flatten(first), room, Feed(code, key, [], first, room));
    FitsSnoc(code, key, [], first, next, room);
    NoneEmptySnoc(first, next);
    FeedIsFaithful(code, key, packets, first + [next], room);
    EnoughRoom(Frames(code, key, packets), Payloads(packets), Flatten(first + [next]), room,
               Feed(code, key, [], first + [next], room));
  }

  /** When every frame fits and the queue has room, the stream can arrive to its end: one byte
      at a time, for instance. */
  lemma {:induction false} ArrivesBytewise(code: Byte, key: Byte, packets: seq<Packet>, n: nat, room: nat)
    returns (chunks: seq<Bytes>)
    requires Sendable(packets) && room >= |packets| && n <= |Stream(code, key, packets)|
    requires forall i :: 0 <= i < |packets| ==> FitsWhole(packets[i])
    ensures Flatten(chunks) == Stream(code, key, packets)[..n] && FitsRing(code, key, [], chunks, room)
    ensures !Feed(code, key, [], chunks, room).dropped
    decreases n
  {
    var stream := Stream(code, key, packets);
    if n == 0 {
      chunks := [];
    } else {
      hide *;
      var first := ArrivesBytewise(code, key, packets, n - 1, room);
      assert stream[..n] == stream[..n - 1] + [stream[n - 1]];
      chunks := first + [[stream[n - 1]]];
      NextByteFits(code, key, packets, first, [stream[n - 1]], room);
    }
  }

  lemma {:induction false} NoneEmptySnoc(chunks: seq<Bytes>, chunk: Bytes)
    requires NoneEmpty(chunks) && chunk != []
    ensures NoneEmpty(chunks + [chunk])
  {
  }

  lemma {:induction false} EnoughRoom(frames: seq<Bytes>, payloads: seq<Bytes>, arrived: Bytes, room: nat, r: Intake)
    requires |frames| == |payloads| <= room && Faithful(frames, payloads, arrived, room, r)
    ensures !r.dropped
  {
  }

  lemma {:induction false} AllWhole(frames: seq<Bytes>)
    ensures Whole(frames, |Flatten(frames)|) == |frames|
    decreases |frames|
  {
    if frames != [] { AllWhole(frames[1..]); }
  }

  /** A stream can be delivered in full through a session's ring, its queue having room for
      it, exactly when each of its packets fits the ring. */
  lemma {:induction false} DeliveredIffFits(code: Byte, key: Byte, packets: seq<Packet>, room: nat)
    requires Sendable(packets) && room >= |packets|
    ensures (exists chunks ::
               FitsRing(code, key, [], chunks, room) && Flatten(chunks) == Stream(code, key, packets) &&
               Feed(code, key, [], chunks, room).delivered == Payloads(packets))
            <==> forall i :: 0 <= i < |packets| ==> |packets[i].payload| <= 6389
  {
    assert forall i :: 0 <= i < |packets| ==> (FitsWhole(packets[i]) <==> |packets[i].payload| <= 6389);
    var stream, frames := Stream(code, key, packets), Frames(code, key, packets);
    if forall i :: 0 <= i < |packets| ==> FitsWhole(packets[i]) {
      var chunks := ArrivesBytewise(code, key, packets, |stream|, room);
      assert Flatten(chunks) == stream[..|stream|] == stream;
      FitsNoneEmpty(code, key, [], chunks, room);
      FeedIsFaithful(code, key, packets, chunks, room);
      AllWhole(frames);
      hide Feed, FitsRing, Process, NextTurn, FrameOf;
      assert Payloads(packets)[..|packets|] == Payloads(packets);
      assert Feed(code, key, [], chunks, room).delivered == Payloads(packets);
    } else {
      var i :| 0 <= i < |packets| && !FitsWhole(packets[i]);
      hide Feed, FitsRing, Process, NextTurn, FrameOf;
      forall chunks | FitsRing(code, key, [], chunks, room) && Flatten(chunks) == stream
        ensures Feed(code, key, [], chunks, room).delivered != Payloads(packets)
      {
        assert [] + Flatten(chunks) == stream;
        FeedStops(code, key, packets, [], chunks, room, i);
      }
    }
  }
}
