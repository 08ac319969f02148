/** The growing, compacting byte buffer of server/src/buffer, and the kernel side of its descriptors. */
module Buffers {
  import opened Wrappers

  const INIT_BUFFER_SIZE := 1024

  /** Size of the second, on-stack segment that `read_fd` offers to `readv`. */
  const OVERFLOW_SIZE := 65535

  /** What a read from a non-blocking descriptor yields. */
  datatype Delivery = Failed(errno: int) | Delivered(bytes: Bytes)

  /** The kernel's answer to one write; `again` tells whether a negative result was `EAGAIN`. */
  datatype Reply = Reply(r: int, again: bool)

  /** The answer to an offer of `size` bytes: one outside -1..size counts as -1, and a silent kernel says `EAGAIN`. */
  function ReplyTo(kernel: seq<Reply>, size: nat): (a: Reply)
    ensures -1 <= a.r <= size
  {
    if |kernel| == 0 then Reply(-1, true)
    else if -1 <= kernel[0].r <= size then kernel[0]
    else Reply(-1, kernel[0].again)
  }

  function Later(kernel: seq<Reply>): seq<Reply> {
    if |kernel| == 0 then [] else kernel[1..]
  }

  /** The sending half of a descriptor: the kernel takes any prefix of what it is offered. */
  class Socket {
    var sent: Bytes
    var kernel: seq<Reply> // the answers to the writes to come

    constructor (kernel: seq<Reply>)
      ensures sent == [] && this.kernel == kernel
    {
      sent, this.kernel := [], kernel;
    }

    method Write(data: Bytes) returns (r: int, again: bool)
      modifies this
      ensures Reply(r, again) == ReplyTo(old(kernel), |data|) && kernel == Later(old(kernel))
      ensures r <= 0 ==> sent == old(sent)
      ensures r > 0 ==> sent == old(sent) + data[..r]
    {
      var reply := ReplyTo(kernel, |data|);
      r, again, kernel := reply.r, reply.again, Later(kernel);
      if r > 0 {
        sent := sent + data[..r];
      }
    }
  }

  class Buffer {
    var store: array<Byte>
    var readPos: nat
    var writePos: nat

    ghost predicate Valid()
      reads this
    {
      readPos <= writePos <= store.Length
    }

    /** The abstract state: the bytes written and not yet retrieved. */
    function Contents(): (s: Bytes)
      requires Valid()
      reads this, store
      ensures |s| == writePos - readPos
    {
      store[readPos..writePos]
    }

    constructor ()
      ensures Valid() && fresh(store) && Contents() == [] && store.Length == INIT_BUFFER_SIZE
    {
      store := new Byte[INIT_BUFFER_SIZE];
      readPos, writePos := 0, 0;
    }

    function ReadableBytes(): nat
      requires Valid()
      reads this
    {
      writePos - readPos
    }

    function WritableBytes(): nat
      requires Valid()
      reads this
    {
      store.Length - writePos
    }

    method Retrieve(len: nat)
      requires Valid() && len <= ReadableBytes()
      modifies this`readPos
      ensures Valid() && Contents() == old(Contents())[len..] && readPos == old(readPos) + len
    {
      readPos := readPos + len;
    }

    method RetrieveAll()
      requires Valid()
      modifies this`readPos, this`writePos
      ensures Valid() && Contents() == [] && writePos == 0
    {
      readPos, writePos := 0, 0;
    }

    /** In-place `memmove` of the readable bytes to the front of the store. */
    method Compact()
      requires Valid()
      modifies this`readPos, this`writePos, store
      ensures Valid() && Contents() == old(Contents()) && readPos == 0
    {
      var readable := writePos - readPos;
      forall j | 0 <= j < readable {
        store[j] := store[readPos + j];
      }
      readPos, writePos := 0, readable;
      assert Contents() == old(Contents());
    }

    /** `buffer_.resize(writePos_ + len + 1)`. */
    method Enlarge(len: nat)
      requires Valid() && WritableBytes() < len
      modifies this`store
      ensures Valid() && fresh(store) && Contents() == old(Contents())
      ensures store.Length == writePos + len + 1 > old(store.Length)
    {
      var bigger := new Byte[writePos + len + 1];
      forall j | 0 <= j < writePos {
        bigger[j] := store[j];
      }
      store := bigger;
    }

    /** The store is replaced exactly when the readable and the requested bytes together exceed it. */
    method EnsureWritable(len: nat)
      requires Valid()
      modifies this, store
      ensures Valid() && Contents() == old(Contents()) && WritableBytes() >= len
      ensures store == old(store) || fresh(store)
      ensures store != old(store) <==> old(ReadableBytes()) + len > old(store.Length)
      ensures store != old(store) ==> store.Length == old(writePos) + len + 1
    {
      if WritableBytes() < len {
        if WritableBytes() + readPos < len {
          Enlarge(len);
        } else {
          Compact();
        }
      }
    }

    /** Writes into free space already ensured; both `std::copy` in `append` and `readv` do this. */
    method Fill(data: Bytes)
      requires Valid() && |data| <= WritableBytes()
      modifies this`writePos, store
      ensures Valid() && Contents() == old(Contents()) + data
      ensures writePos == old(writePos) + |data| && readPos == old(readPos)
    {
      forall j | 0 <= j < |data| {
        store[writePos + j] := data[j];
      }
      writePos := writePos + |data|;
    }

    method Append(data: Bytes)
      requires Valid()
      modifies this, store
      ensures Valid() && Contents() == old(Contents()) + data
      ensures store == old(store) || fresh(store)
      ensures store != old(store) <==> old(ReadableBytes()) + |data| > old(store.Length)
    {
      EnsureWritable(|data|);
      Fill(data);
    }

    /** `readv` first fills the free space, then an on-stack segment that is appended. */
    method ReadFd(input: Delivery) returns (r: int)
      requires Valid()
      requires input.Delivered? ==> |input.bytes| <= WritableBytes() + OVERFLOW_SIZE
      modifies this, store
      ensures Valid() && (store == old(store) || fresh(store))
      ensures input.Failed? ==> r == -1 && Contents() == old(Contents())
      ensures input.Delivered? ==> r == |input.bytes| && Contents() == old(Contents()) + input.bytes
    {
      if input.Failed? {
        return -1;
      }
      var writable := WritableBytes();
      r := |input.bytes|;
      if r <= writable {
        Fill(input.bytes);
      } else {
        Fill(input.bytes[..writable]);
        Append(input.bytes[writable..]);
        assert input.bytes[..writable] + input.bytes[writable..] == input.bytes;
      }
    }

    /** What the kernel took leaves the buffer, and nothing else does. */
    method WriteFd(sock: Socket) returns (r: int, again: bool)
      requires Valid()
      modifies this`readPos, sock
      ensures Valid() && Reply(r, again) == ReplyTo(old(sock.kernel), |old(Contents())|)
      ensures sock.kernel == Later(old(sock.kernel))
      ensures r <= 0 ==> Contents() == old(Contents()) && sock.sent == old(sock.sent)
      ensures r > 0 ==> r <= |old(Contents())| && Contents() == old(Contents())[r..]
                        && sock.sent == old(sock.sent) + old(Contents())[..r]
    {
      r, again := sock.Write(Contents());
      if r > 0 {
        readPos := readPos + r;
      }
    }
  }
}
