/** A network session: its receive ring, its message queue, and the loop between them. */
module NetworkSession {
  import opened Words
  import opened PacketCipher
  import opened RingBuffer
  import opened PacketStream

  class Session {
    const recvQ: SerialRingBuffer
    var messageQ: seq<Bytes>
    var dropped: bool
    const code: Byte
    const key: Byte

    ghost predicate Valid()
      reads this, recvQ
    {
      && recvQ.Valid() && recvQ.total == SESSION_CAPACITY
      && POINTER_SIZE * |messageQ| <= SESSION_CAPACITY
    }

    /** How many more packets fit the message queue, a ring of pointers. */
    function Room(): nat
      reads this
      requires POINTER_SIZE * |messageQ| <= SESSION_CAPACITY
    {
      RoomAfter(|messageQ|)
    }

    constructor (code: Byte, key: Byte)
      ensures Valid() && fresh(recvQ) && fresh(recvQ.memory)
      ensures recvQ.Contents() == [] && messageQ == [] && !dropped
      ensures recvQ.total == 6394 && Room() == 799
      ensures this.code == code && this.key == key
    {
      recvQ := new SerialRingBuffer(SESSION_BUFFER);
      messageQ, dropped := [], false;
      this.code, this.key := code, key;
    }

    /** A completed receive: the bytes join those received before and are processed. A
        receive of no bytes is the end of the connection. */
    method OnReceive(chunk: Bytes)
      requires Valid() && |chunk| <= recvQ.total - |recvQ.Contents()|
      modifies this`messageQ, this`dropped, recvQ, recvQ.memory
      ensures Valid()
      ensures chunk == [] ==> dropped && recvQ.Contents() == old(recvQ.Contents()) && messageQ == old(messageQ)
      ensures chunk != [] ==>
                var r := Process(code, key, old(recvQ.Contents()) + chunk, old(Room()));
                && recvQ.Contents() == r.left
                && messageQ == old(messageQ) + r.delivered
                && dropped == (old(dropped) || r.dropped)
    {
      if chunk == [] {
        dropped := true;
        return;
      }
      recvQ.Receive(chunk);
      recvQ.MoveRear(|chunk|);
      NetworkMessageProc();
    }

    method NetworkMessageProc()
      requires Valid()
      modifies this`messageQ, this`dropped, recvQ`front
      ensures Valid()
      ensures var r := Process(code, key, old(recvQ.Contents()), old(Room()));
              && recvQ.Contents() == r.left
              && messageQ == old(messageQ) + r.delivered
              && dropped == (old(dropped) || r.dropped)
    {
      hide NextTurn, Process, After;
      ghost var room, buf := Room(), recvQ.Contents();
      ghost var out, rest := [], Process(code, key, buf, room);
      AfterNothing(rest);
      var more := true;
      while more
        invariant Valid() && messageQ == old(messageQ) + out && recvQ.Contents() == buf
        invariant more ==> dropped == old(dropped) && room == Room() && rest == Process(code, key, buf, room)
        invariant !more ==> rest.delivered == [] && rest.left == buf && dropped == (old(dropped) || rest.dropped)
        invariant Process(code, key, old(recvQ.Contents()), old(Room())) == After(out, rest)
        decreases more, |buf|
      {
        ghost var queued := messageQ;
        DeliverShrinks(code, key, buf, room);
        TurnOfProcess(code, key, buf, room, out);
        ghost var turn := NextTurn(code, key, buf, room);
        more := NextMessage();
        buf := recvQ.Contents();
        if more {
          room, out := room - 1, out + [messageQ[|queued|]];
          rest := Process(code, key, buf, room);
        } else {
          rest := Intake([], buf, turn.Drop?);
        }
      }
      AfterParts(out, rest);
    }

    /** One turn of the loop; false where the source breaks out of it. */
    method NextMessage() returns (more: bool)
      requires Valid()
      modifies this`messageQ, this`dropped, recvQ`front
      ensures Valid() && (more ==> Room() == old(Room()) - 1)
      ensures match NextTurn(code, key, old(recvQ.Contents()), old(Room()))
              case Wait =>
                !more && dropped == old(dropped) && messageQ == old(messageQ) && recvQ.Contents() == old(recvQ.Contents())
              case Drop(left) => !more && dropped && messageQ == old(messageQ) && recvQ.Contents() == left
              case Deliver(m, left) =>
                more && dropped == old(dropped) && messageQ == old(messageQ) + [m] && recvQ.Contents() == left
    {
      var use := recvQ.GetUseSize();
      if HEADER_SIZE >= use {
        return false;
      }
      var header := ReadHeader();
      ghost var buf, room := recvQ.Contents(), Room();
      HeaderTurn(code, key, header[..], buf, room);
      RoomSteps(|messageQ|);
      var len := LengthField(header[..]);
      if header[0] != code || len > MAX_PAYLOAD || len == 0 || POINTER_SIZE > SESSION_CAPACITY - POINTER_SIZE * |messageQ| {
        dropped := true;
        return false;
      }
      if use - HEADER_SIZE < len {
        return false;
      }
      more := DeliverNext(header, len);
    }

    /** The last part of a turn: a whole packet has arrived. */
    method DeliverNext(header: array<Byte>, len: nat) returns (ok: bool)
      requires Valid() && 0 < len <= MAX_PAYLOAD && HEADER_SIZE + len <= |recvQ.Contents()|
      requires header.Length == HEADER_SIZE && header[..] == recvQ.Contents()[..HEADER_SIZE]
      requires POINTER_SIZE * (|messageQ| + 1) <= SESSION_CAPACITY
      modifies this`messageQ, this`dropped, recvQ`front
      ensures Valid() && recvQ.Contents() == old(recvQ.Contents())[HEADER_SIZE + len..]
      ensures var plain := Opened(old(recvQ.Contents()), len, key);
              && ok == (plain[0] == Sum(plain[1..]))
              && messageQ == (if ok then old(messageQ) + [plain[1..]] else old(messageQ))
              && dropped == (old(dropped) || !ok)
    {
      ghost var buf := recvQ.Contents();
      var packet := TakePacket(header, len);
      ghost var mem := packet.memory[..];
      ok := packet.Decode(key);
      PacketOpened(mem, buf, len, key);
      if !ok {
        dropped := true;
        return;
      }
      messageQ := messageQ + [packet.memory[HEADER_SIZE..HEADER_SIZE + len]];
    }

    method ReadHeader() returns (header: array<Byte>)
      requires Valid() && HEADER_SIZE < |recvQ.Contents()|
      ensures fresh(header) && header.Length == HEADER_SIZE && header[..] == recvQ.Contents()[..HEADER_SIZE]
    {
      header := new Byte[HEADER_SIZE](_ => 0);
      var _ := recvQ.Peek(header, 0, HEADER_SIZE);
    }

    /** Moves one framed packet out of the receive queue. */
    method TakePacket(header: array<Byte>, len: nat) returns (packet: SerialRingBuffer)
      requires Valid() && 0 < len <= MAX_PAYLOAD && HEADER_SIZE + len <= |recvQ.Contents()|
      requires header.Length == HEADER_SIZE && header[..] == recvQ.Contents()[..HEADER_SIZE]
      modifies recvQ`front
      ensures Valid() && recvQ.Contents() == old(recvQ.Contents())[HEADER_SIZE + len..]
      ensures fresh(packet) && fresh(packet.memory) && packet.Valid()
      ensures packet.front == HEADER_SIZE && packet.Used() == len && packet.memory.Length == DEFAULT_SIZE
      ensures packet.memory[..HEADER_SIZE + len] == old(recvQ.Contents())[..HEADER_SIZE + len]
    {
      ghost var buf := recvQ.Contents();
      hide Run, Steps, Pos, Copied;
      recvQ.MoveFront(HEADER_SIZE);
      packet := new SerialRingBuffer(DEFAULT_SIZE);
      packet.SetWanHeader(header[..]);
      ghost var mem := packet.memory[..];
      var taken := recvQ.Dequeue(packet.memory, HEADER_SIZE, len);
      FrameInBlock(mem, packet.memory[..], buf, len);
      packet.MoveRear(taken);
    }
  }

  /** The header, and the payload copied behind it. */
  lemma {:induction false} FrameInBlock(mem: Bytes, mem': Bytes, buf: Bytes, len: nat)
    requires HEADER_SIZE + len <= |buf| && HEADER_SIZE <= |mem| && mem[..HEADER_SIZE] == buf[..HEADER_SIZE]
    requires Copied(mem, mem', HEADER_SIZE, buf[HEADER_SIZE..][..len])
    ensures |mem'| == |mem| && mem'[..HEADER_SIZE + len] == buf[..HEADER_SIZE + len]
  {
    forall i | 0 <= i < HEADER_SIZE + len ensures mem'[i] == buf[i] {
      if i < HEADER_SIZE { assert mem[..HEADER_SIZE][i] == buf[..HEADER_SIZE][i]; }
    }
  }

  lemma {:induction false} SameHeader(header: Bytes, buf: Bytes)
    requires HEADER_SIZE < |buf| && header == buf[..HEADER_SIZE]
    ensures LengthField(header) == LengthField(buf) && header[0] == buf[0]
  {
  }

  /** A turn with more than a header there, decided by the header. */
  lemma {:induction false} HeaderTurn(code: Byte, key: Byte, header: Bytes, buf: Bytes, room: nat)
    requires HEADER_SIZE < |buf| && header == buf[..HEADER_SIZE]
    ensures var len := LengthField(header);
            NextTurn(code, key, buf, room) ==
            if header[0] != code || len > MAX_PAYLOAD || len == 0 || room == 0 then Drop(buf)
            else if |buf| - HEADER_SIZE < len then Wait
            else
              var plain, left := Opened(buf, len, key), buf[HEADER_SIZE + len..];
              if plain[0] != Sum(plain[1..]) then Drop(left) else Deliver(plain[1..], left)
  {
    SameHeader(header, buf);
    hide LengthField, Sum, Opened;
  }

  lemma {:induction false} DeliverShrinks(code: Byte, key: Byte, buf: Bytes, room: nat)
    ensures var t := NextTurn(code, key, buf, room); t.Deliver? ==> room > 0 && |t.left| < |buf|
  {
    hide *;
  }

  lemma {:induction false} AfterNothing(r: Intake)
    ensures After([], r) == r
  {
  }

  /** The room of a queue that holds `n` pointers. */
  function RoomAfter(n: nat): nat
    requires POINTER_SIZE * n <= SESSION_CAPACITY
  {
    (SESSION_CAPACITY - POINTER_SIZE * n) / POINTER_SIZE
  }

  lemma {:induction false} RoomSteps(n: nat)
    requires POINTER_SIZE * n <= SESSION_CAPACITY
    ensures RoomAfter(n) == 0 <==> POINTER_SIZE > SESSION_CAPACITY - POINTER_SIZE * n
    ensures RoomAfter(n) > 0 ==> POINTER_SIZE * (n + 1) <= SESSION_CAPACITY && RoomAfter(n + 1) == RoomAfter(n) - 1
  {
  }
}
