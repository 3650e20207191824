/** The serial ring buffer: one memory block of a five-byte header and a ring in
    which one cell stays empty, with raw block transfers in and out. */
module RingBuffer {

  import opened Words
  import opened PacketCipher

  const HEADER_SIZE: nat := 5
  const DEFAULT_SIZE: nat := 16384

  // ---------- the ring as a value ----------

  /** The offset `k` cells after `at` in a block of `cap` bytes whose ring starts at 5. */
  function Pos(cap: nat, at: nat, k: nat): (i: nat)
    requires HEADER_SIZE <= at < cap && k <= cap - HEADER_SIZE
    ensures HEADER_SIZE <= i < cap
  {
    if at + k < cap then at + k else at + k - (cap - HEADER_SIZE)
  }

  /** The number of steps from `at` to `i` around the ring. */
  function Steps(cap: nat, at: nat, i: nat): (k: nat)
    requires HEADER_SIZE <= at < cap && HEADER_SIZE <= i < cap
    ensures k < cap - HEADER_SIZE && Pos(cap, at, k) == i
  {
    if at <= i then i - at else i - at + (cap - HEADER_SIZE)
  }

  /** The `n` bytes from `at` on. */
  function Run(mem: Bytes, at: nat, n: nat): (s: Bytes)
    requires HEADER_SIZE <= at < |mem| && n < |mem| - HEADER_SIZE
    ensures |s| == n
  {
    seq(n, k requires 0 <= k < n => mem[Pos(|mem|, at, k)])
  }

  lemma {:induction false} RunSplit(mem: Bytes, at: nat, n: nat, k: nat)
    requires HEADER_SIZE <= at < |mem| && n < |mem| - HEADER_SIZE && k <= n
    ensures Run(mem, at, n)[..k] == Run(mem, at, k)
    ensures Run(mem, at, n)[k..] == Run(mem, Pos(|mem|, at, k), n - k)
  {
  }

  /** `data` was written from `at` on, around the ring, and nothing else changed. */
  ghost predicate Wrote(mem: Bytes, mem': Bytes, at: nat, data: Bytes)
    requires HEADER_SIZE <= at < |mem| && |data| < |mem| - HEADER_SIZE
  {
    && |mem'| == |mem|
    && (forall i :: 0 <= i < HEADER_SIZE ==> mem'[i] == mem[i])
    && forall i :: HEADER_SIZE <= i < |mem| ==>
         mem'[i] == if Steps(|mem|, at, i) < |data| then data[Steps(|mem|, at, i)] else mem[i]
  }

  lemma {:induction false} WroteKeeps(mem: Bytes, mem': Bytes, front: nat, used: nat, data: Bytes)
    requires HEADER_SIZE <= front < |mem| && used + |data| < |mem| - HEADER_SIZE
    requires Wrote(mem, mem', Pos(|mem|, front, used), data)
    ensures Run(mem', front, used) == Run(mem, front, used)
  {
  }

  lemma {:induction false} WroteReads(mem: Bytes, mem': Bytes, at: nat, data: Bytes)
    requires HEADER_SIZE <= at < |mem| && |data| < |mem| - HEADER_SIZE
    requires Wrote(mem, mem', at, data)
    ensures Run(mem', at, |data|) == data
  {
  }

  /** `memcpy` of `data` to offset `at`. */
  ghost predicate Copied(mem: Bytes, mem': Bytes, at: nat, data: Bytes) {
    && |mem'| == |mem| >= at + |data|
    && forall i :: 0 <= i < |mem| ==> mem'[i] == if at <= i < at + |data| then data[i - at] else mem[i]
  }

  lemma {:induction false} WroteAtOnce(mem: Bytes, mem': Bytes, at: nat, data: Bytes)
    requires HEADER_SIZE <= at < |mem| && |data| < |mem| - HEADER_SIZE
    requires Copied(mem, mem', at, data)
    ensures Wrote(mem, mem', at, data)
  {
  }

  lemma {:induction false} WroteInTwo(mem: Bytes, mem1: Bytes, mem2: Bytes, at: nat, data: Bytes, n: nat)
    requires HEADER_SIZE <= at < |mem| && |data| < |mem| - HEADER_SIZE && n <= |data| && at + n == |mem|
    requires Copied(mem, mem1, at, data[..n]) && Copied(mem1, mem2, HEADER_SIZE, data[n..])
    ensures Wrote(mem, mem2, at, data)
  {
  }

  lemma {:induction false} CopiedTwice(mem: Bytes, mem1: Bytes, mem2: Bytes, at: nat, a: Bytes, b: Bytes)
    requires Copied(mem, mem1, at, a) && Copied(mem1, mem2, at + |a|, b)
    ensures Copied(mem, mem2, at, a + b)
  {
  }

  /** Bytes in one stretch, and around the end of the block. */
  lemma {:induction false} RunInOne(mem: Bytes, at: nat, n: nat)
    requires HEADER_SIZE <= at < |mem| && n < |mem| - HEADER_SIZE && at + n <= |mem|
    ensures Run(mem, at, n) == mem[at..at + n]
  {
  }

  lemma {:induction false} RunInTwo(mem: Bytes, at: nat, n: nat)
    requires HEADER_SIZE <= at < |mem| && n < |mem| - HEADER_SIZE && at + n >= |mem|
    ensures Run(mem, at, n) == mem[at..] + mem[HEADER_SIZE..HEADER_SIZE + n - (|mem| - at)]
  {
  }

  // ---------- the buffer ----------

  class SerialRingBuffer {
    /** `Header` points at offset 0 and `Buffer` at offset 5; `front` and `rear` are offsets. */
    const memory: array<Byte>
    const total: nat
    var front: nat
    var rear: nat
    var headerFlag: bool
    var encodeFlag: bool

    ghost predicate Valid()
      reads this
    {
      && memory.Length == HEADER_SIZE + total + 1
      && HEADER_SIZE <= front < memory.Length
      && HEADER_SIZE <= rear < memory.Length
    }

    ghost function Used(): (n: nat)
      reads this
      requires Valid()
      ensures n <= total && Pos(memory.Length, front, n) == rear
    {
      Steps(memory.Length, front, rear)
    }

    /** The bytes in the ring, oldest first. */
    ghost function Contents(): (s: Bytes)
      reads this, memory
      requires Valid()
      ensures |s| == Used()
    {
      Run(memory[..], front, Used())
    }

    constructor (bufferSize: nat)
      requires bufferSize > HEADER_SIZE
      ensures Valid() && fresh(memory) && memory.Length == bufferSize
      ensures Contents() == [] && front == HEADER_SIZE && !headerFlag && !encodeFlag
    {
      memory := new Byte[bufferSize](_ => 0);
      total := bufferSize - HEADER_SIZE - 1;
      front, rear := HEADER_SIZE, HEADER_SIZE;
      headerFlag, encodeFlag := false, false;
    }

    method GetUseSize() returns (n: nat)
      requires Valid()
      ensures n == |Contents()|
    {
      if front <= rear {
        n := rear - front;
      } else {
        n := total + 1 - (front - rear);
      }
    }

    method GetFreeSize() returns (n: nat)
      requires Valid()
      ensures n == total - |Contents()|
    {
      if front <= rear {
        n := total - (rear - front);
      } else {
        n := front - rear - 1;
      }
    }

    /** The free cells from `rear` on that lie in one stretch. */
    method DirectEnqueueSize() returns (n: nat)
      requires Valid()
      ensures n == Min(total - Used(), memory.Length - rear)
    {
      if front <= rear {
        n := memory.Length - rear;
        if front == HEADER_SIZE {
          n := n - 1;
        }
      } else {
        n := front - rear - 1;
      }
    }

    /** The bytes from `front` on that lie in one stretch. */
    method DirectDequeueSize() returns (n: nat)
      requires Valid()
      ensures n == Min(Used(), memory.Length - front)
    {
      if front <= rear {
        n := rear - front;
      } else {
        n := memory.Length - front;
      }
    }

    /** `memcpy`. */
    static method CopyTo(dest: array<Byte>, at: nat, data: Bytes)
      requires at + |data| <= dest.Length
      modifies dest
      ensures Copied(old(dest[..]), dest[..], at, data)
    {
      forall i | 0 <= i < |data| {
        dest[at + i] := data[i];
      }
    }

    /** Stores at most `size` bytes; what does not fit is left out. */
    method Enqueue(data: Bytes, size: int) returns (n: nat)
      requires Valid() && size <= |data|
      modifies this`rear, memory
      ensures Valid()
      ensures n == if size <= 0 then 0 else Min(size, total - |old(Contents())|)
      ensures Contents() == old(Contents()) + data[..n]
      ensures memory[..HEADER_SIZE] == old(memory[..HEADER_SIZE])
    {
      if size <= 0 {
        return 0;
      }
      var free := GetFreeSize();
      n := Min(size, free);
      if n <= 0 {
        return 0;
      }
      CopyIn(data[..n]);
    }

    /** The one or two block copies of `Enqueue`. */
    method CopyIn(data: Bytes)
      requires Valid() && 0 < |data| <= total - |Contents()|
      modifies this`rear, memory
      ensures Valid() && Contents() == old(Contents()) + data
      ensures memory[..HEADER_SIZE] == old(memory[..HEADER_SIZE])
    {
      ghost var mem, used, at := memory[..], Used(), rear;
      var n := |data|;
      var direct := DirectEnqueueSize();
      if direct >= n {
        CopyTo(memory, rear, data);
        WroteAtOnce(mem, memory[..], at, data);
        rear := if rear + n == memory.Length then HEADER_SIZE else rear + n;
      } else {
        CopyTo(memory, rear, data[..direct]);
        ghost var mem1 := memory[..];
        CopyTo(memory, HEADER_SIZE, data[direct..]);
        WroteInTwo(mem, mem1, memory[..], at, data, direct);
        rear := HEADER_SIZE + n - direct;
      }
      AfterWrite(mem, memory[..], front, used, data, rear);
    }

    /** Hands out at most `size` bytes, oldest first, to `dest` from offset `at` on. */
    method Dequeue(dest: array<Byte>, at: nat, size: int) returns (n: nat)
      requires Valid() && dest != memory && at + size <= dest.Length
      modifies this`front, dest
      ensures Valid()
      ensures n == if size <= 0 then 0 else Min(size, |old(Contents())|)
      ensures Contents() == old(Contents())[n..]
      ensures n > 0 ==> Copied(old(dest[..]), dest[..], at, old(Contents())[..n])
      ensures n == 0 ==> dest[..] == old(dest[..])
    {
      if size <= 0 {
        return 0;
      }
      var use := GetUseSize();
      if use == 0 {
        return 0;
      }
      n := Min(size, use);
      CopyOut(dest, at, n);
      MoveFront(n);
    }

    /** As `Dequeue`, but the bytes stay in the ring. */
    method Peek(dest: array<Byte>, at: nat, size: nat) returns (n: nat)
      requires Valid() && dest != memory && at + size <= dest.Length
      modifies dest
      ensures n == Min(size, |Contents()|)
      ensures n > 0 ==> Copied(old(dest[..]), dest[..], at, Contents()[..n])
      ensures n == 0 ==> dest[..] == old(dest[..])
    {
      var use := GetUseSize();
      if use == 0 || size == 0 {
        return 0;
      }
      n := Min(size, use);
      CopyOut(dest, at, n);
    }

    /** The one or two block copies of `Dequeue` and `Peek`. */
    method CopyOut(dest: array<Byte>, at: nat, n: nat)
      requires Valid() && dest != memory && at + n <= dest.Length && n <= |Contents()|
      modifies dest
      ensures Copied(old(dest[..]), dest[..], at, Contents()[..n])
    {
      ghost var mem, was := memory[..], dest[..];
      RunSplit(mem, front, Used(), n);
      var direct := DirectDequeueSize();
      if direct >= n {
        RunInOne(mem, front, n);
        CopyTo(dest, at, memory[front..front + n]);
      } else {
        RunInTwo(mem, front, n);
        CopyTo(dest, at, memory[front..]);
        ghost var half := dest[..];
        CopyTo(dest, at + direct, memory[HEADER_SIZE..HEADER_SIZE + n - direct]);
        CopiedTwice(was, half, dest[..], at, mem[front..], mem[HEADER_SIZE..HEADER_SIZE + n - direct]);
      }
    }

    /** Gives up the `n` oldest bytes. */
    method MoveFront(n: nat)
      requires Valid() && n <= |Contents()|
      modifies this`front
      ensures Valid() && Contents() == old(Contents())[n..]
    {
      ghost var used, at := Used(), front;
      if n == 0 {
        return;
      }
      var direct := DirectDequeueSize();
      if direct >= n {
        front := if front + n == memory.Length then HEADER_SIZE else front + n;
      } else {
        front := HEADER_SIZE + n - direct;
      }
      AfterMoveFront(memory[..], at, used, n, front, rear);
    }

    /** The first `n` free cells, which a network receive may have filled. */
    ghost function Ahead(n: nat): Bytes
      reads this, memory
      requires Valid() && n <= total - |Contents()|
    {
      Run(memory[..], rear, n)
    }

    /** Takes the next `n` cells into the contents as they are. */
    method MoveRear(n: nat)
      requires Valid() && n <= total - |Contents()|
      modifies this`rear
      ensures Valid() && Contents() == old(Contents()) + old(Ahead(n))
    {
      ghost var used, at := Used(), rear;
      if n == 0 {
        return;
      }
      var direct := DirectEnqueueSize();
      if direct >= n {
        rear := if rear + n == memory.Length then HEADER_SIZE else rear + n;
      } else {
        rear := HEADER_SIZE + n - direct;
      }
      AfterMoveRear(memory[..], front, used, n, rear);
    }

    /** A completed receive: the two blocks offered to the socket are the stretch from
        `rear` and the start of the ring, and the network filled them in that order. */
    method Receive(data: Bytes)
      requires Valid() && |data| <= total - |Contents()|
      modifies memory
      ensures Contents() == old(Contents()) && Ahead(|data|) == data
      ensures memory[..HEADER_SIZE] == old(memory[..HEADER_SIZE])
    {
      ghost var mem := memory[..];
      var direct := DirectEnqueueSize();
      if |data| <= direct {
        CopyTo(memory, rear, data);
        WroteAtOnce(mem, memory[..], rear, data);
      } else {
        CopyTo(memory, rear, data[..direct]);
        ghost var mem1 := memory[..];
        CopyTo(memory, HEADER_SIZE, data[direct..]);
        WroteInTwo(mem, mem1, memory[..], rear, data, direct);
      }
      WroteKeeps(mem, memory[..], front, Used(), data);
      WroteReads(mem, memory[..], rear, data);
    }

    /** Copies the header once; later calls leave the first header in place. */
    method SetWanHeader(header: Bytes)
      requires Valid() && |header| == HEADER_SIZE
      modifies this`headerFlag, memory
      ensures Valid() && headerFlag
      ensures memory[HEADER_SIZE..] == old(memory[HEADER_SIZE..])
      ensures memory[..HEADER_SIZE] == if old(headerFlag) then old(memory[..HEADER_SIZE]) else header
    {
      if !headerFlag {
        forall i | 0 <= i < HEADER_SIZE {
          memory[i] := header[i];
        }
        headerFlag := true;
      }
    }

    /** The bytes the cipher works on: the checksum and as many bytes after it as are in use. */
    ghost function Sealed(): Bytes
      reads this, memory
      requires Valid()
    {
      memory[HEADER_SIZE - 1..HEADER_SIZE + Used()]
    }

    /** Enciphers in place, once; later calls change nothing. */
    method Encode(key: Byte)
      requires Valid()
      modifies this`encodeFlag, memory
      ensures Valid() && encodeFlag
      ensures old(encodeFlag) ==> memory[..] == old(memory[..])
      ensures !old(encodeFlag) ==>
                memory[..] == Resealed(old(memory[..]), Used(), Encrypt(old(Sealed()), old(memory[3]), key))
    {
      if !encodeFlag {
        var useSize := GetUseSize();
        Encipher(useSize, memory[3], key);
        encodeFlag := true;
      }
    }

    method Encipher(useSize: nat, randKey: Byte, key: Byte)
      requires Valid() && useSize == Used()
      modifies memory
      ensures memory[..] == Resealed(old(memory[..]), useSize, Encrypt(old(Sealed()), randKey, key))
    {
      var p: Byte, e: Byte := 0, 0;
      ghost var mem, plain, done := memory[..], Sealed(), [];
      CipherStart(plain, randKey, key);
      for i := 0 to useSize + 1
        invariant |done| == i && memory[..] == Resealed(mem, useSize, done + plain[i..])
        invariant Enciphering(plain, done, p, e, randKey, key)
      {
        ResealNext(mem, useSize, done, plain);
        var d := memory[HEADER_SIZE - 1 + i];
        EncipherStep(plain, done, p, e, randKey, key);
        p := Mix(d, p, randKey, i);
        e := Mix(p, e, key, i);
        memory[HEADER_SIZE - 1 + i] := e;
        done := done + [e];
      }
      CipherEnd(plain, done, p, e, randKey, key);
    }

    /** Deciphers in place and tells whether the checksum byte is the sum of the payload,
        which the source reads in one stretch from `front`. */
    method Decode(key: Byte) returns (ok: bool)
      requires Valid() && front + Used() <= memory.Length
      modifies memory
      ensures memory[..] == Resealed(old(memory[..]), Used(), Decrypt(old(Sealed()), old(memory[3]), key))
      ensures ok <==> Sum(Contents()) == memory[HEADER_SIZE - 1]
    {
      var useSize := GetUseSize();
      Decipher(useSize, memory[3], key);
      var checkSum := SumFromFront(useSize);
      ok := checkSum == memory[HEADER_SIZE - 1];
    }

    method Decipher(useSize: nat, randKey: Byte, key: Byte)
      requires Valid() && useSize == Used()
      modifies memory
      ensures memory[..] == Resealed(old(memory[..]), useSize, Decrypt(old(Sealed()), randKey, key))
    {
      var prevP: Byte, prevE: Byte := 0, 0;
      ghost var mem, cipher, done := memory[..], Sealed(), [];
      CipherStart(cipher, randKey, key);
      for i := 0 to useSize + 1
        invariant |done| == i && memory[..] == Resealed(mem, useSize, done + cipher[i..])
        invariant Deciphering(cipher, done, prevP, prevE, randKey, key)
      {
        ResealNext(mem, useSize, done, cipher);
        var e := memory[HEADER_SIZE - 1 + i];
        DecipherStep(cipher, done, prevP, prevE, randKey, key);
        var p := Mix(e, prevE, key, i);
        var d := Mix(p, prevP, randKey, i);
        memory[HEADER_SIZE - 1 + i] := d;
        prevE, prevP := e, p;
        done := done + [d];
      }
      CipherEnd(cipher, done, prevP, prevE, randKey, key);
    }

    /** The sum of `n` bytes in one stretch from `front`. */
    method SumFromFront(n: nat) returns (sum: Byte)
      requires Valid() && n == Used() && front + n <= memory.Length
      ensures sum == Sum(Contents())
    {
      sum := 0;
      for i := 0 to n
        invariant sum == Sum(Contents()[..i])
      {
        assert Contents()[..i + 1][..i] == Contents()[..i];
        sum := LowByte(sum + memory[front + i]);
      }
      assert Contents()[..n] == Contents();
    }

    method Clear()
      requires Valid()
      modifies this
      ensures Valid() && Contents() == [] && front == HEADER_SIZE && !headerFlag && !encodeFlag
    {
      front, rear := HEADER_SIZE, HEADER_SIZE;
      headerFlag, encodeFlag := false, false;
    }
  }

  /** The block with its checksum and used bytes replaced. */
  function Resealed(mem: Bytes, used: nat, sealed: Bytes): (s: Bytes)
    requires HEADER_SIZE + used <= |mem| && |sealed| == used + 1
    ensures |s| == |mem|
  {
    mem[..HEADER_SIZE - 1] + sealed + mem[HEADER_SIZE + used..]
  }

  /** The next byte to work on, and the block after working on it. */
  lemma {:induction false} ResealNext(mem: Bytes, used: nat, done: Bytes, todo: Bytes)
    requires HEADER_SIZE + used <= |mem| && |todo| == used + 1 && |done| <= used
    ensures var i, block := |done|, Resealed(mem, used, done + todo[|done|..]);
            && block[HEADER_SIZE - 1 + i] == todo[i]
            && forall next: Byte ::
                 block[HEADER_SIZE - 1 + i := next] == Resealed(mem, used, done + [next] + todo[i + 1..])
  {
  }

  lemma {:induction false} AfterWrite(mem: Bytes, mem': Bytes, front: nat, used: nat, data: Bytes, rear': nat)
    requires HEADER_SIZE <= front < |mem| && used + |data| < |mem| - HEADER_SIZE
    requires Wrote(mem, mem', Pos(|mem|, front, used), data)
    requires HEADER_SIZE <= rear' < |mem| && rear' == Pos(|mem|, Pos(|mem|, front, used), |data|)
    ensures Steps(|mem|, front, rear') == used + |data|
    ensures Run(mem', front, used + |data|) == Run(mem, front, used) + data
    ensures mem'[..HEADER_SIZE] == mem[..HEADER_SIZE]
  {
  }

  lemma {:induction false} AfterMoveFront(mem: Bytes, front: nat, used: nat, n: nat, front': nat, rear: nat)
    requires HEADER_SIZE <= front < |mem| && used < |mem| - HEADER_SIZE && n <= used
    requires rear == Pos(|mem|, front, used) && front' == Pos(|mem|, front, n)
    ensures Steps(|mem|, front', rear) == used - n
    ensures Run(mem, front', used - n) == Run(mem, front, used)[n..]
  {
  }

  lemma {:induction false} AfterMoveRear(mem: Bytes, front: nat, used: nat, n: nat, rear': nat)
    requires HEADER_SIZE <= front < |mem| && used + n < |mem| - HEADER_SIZE
    requires rear' == Pos(|mem|, Pos(|mem|, front, used), n)
    ensures Steps(|mem|, front, rear') == used + n
    ensures Run(mem, front, used + n) == Run(mem, front, used) + Run(mem, Pos(|mem|, front, used), n)
  {
  }
}
