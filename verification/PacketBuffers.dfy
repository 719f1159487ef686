/**
 The two receive buffers, updated in place: PacketBufferManager of the chat client and the packet
 buffer of User on the chat server.
 */
module PacketBuffers {
  import opened ByteStrings
  import opened Framing
  import opened ClientFraming
  import opened ServerFraming

  /** Buffer.BlockCopy and CopyMemory, between different buffers. */
  method BlockCopy(src: array<byte>, srcOffset: nat, dst: array<byte>, dstOffset: nat, count: nat)
    requires src != dst && srcOffset + count <= src.Length && dstOffset + count <= dst.Length
    modifies dst
    ensures dst[dstOffset..dstOffset + count] == src[srcOffset..srcOffset + count]
    ensures dst[..dstOffset] == old(dst[..dstOffset]) && dst[dstOffset + count..] == old(dst[dstOffset + count..])
  {
    for i := 0 to count
      invariant forall k :: dstOffset <= k < dstOffset + i ==> dst[k] == src[srcOffset + (k - dstOffset)]
      invariant forall k :: 0 <= k < dst.Length && !(dstOffset <= k < dstOffset + i) ==> dst[k] == old(dst[k])
    {
      dst[dstOffset + i] := src[srcOffset + i];
    }
  }

  /** What a read sees of the array. */
  function Peek(data: Bytes, readPos: nat, writePos: nat, headerSize: nat): Segment
    requires readPos <= writePos <= |data|
  {
    if writePos - readPos < headerSize then Nothing
    else if readPos + 2 > |data| then Throws
    else
      var n := ToInt16(data[readPos], data[readPos + 1]);
      if writePos - readPos < n then Nothing
      else if n < 0 then Throws
      else Frame(data[readPos..readPos + n])
  }

  class PacketBufferManager {
    var bufferSize: nat
    var readPos: nat
    var writePos: nat
    var headerSize: nat
    var maxPacketSize: nat
    var packetData: array<byte>
    var packetDataTemp: array<byte>

    ghost predicate Valid()
      reads this
    {
      && packetData != packetDataTemp && packetData.Length == bufferSize == packetDataTemp.Length
      && readPos <= writePos <= bufferSize
    }

    ghost function View(): Linear
      requires Valid()
      reads this, packetData
    {
      Linear(readPos, packetData[readPos..writePos])
    }

    ghost function Settings(): Config
      reads this
    {
      Config(bufferSize, headerSize, maxPacketSize)
    }

    constructor ()
      ensures Valid() && fresh(packetData) && fresh(packetDataTemp) && View() == Linear(0, [])
      ensures Settings() == Config(0, 0, 0)
    {
      bufferSize, readPos, writePos, headerSize, maxPacketSize := 0, 0, 0, 0, 0;
      packetData := new byte[0];
      packetDataTemp := new byte[0];
    }

    /**
     Only room for two frames is asked for. The positions are not reset: after a second Init they may
     lie behind the end of the new array.
     */
    method Init(size: int, headerSize: int, maxPacketSize: int) returns (ok: bool)
      modifies this
      ensures ok == (size >= 2 * maxPacketSize && size >= 1 && headerSize >= 1 && maxPacketSize >= 1)
      ensures readPos == old(readPos) && writePos == old(writePos)
      ensures ok ==> Settings() == Config(size, headerSize, maxPacketSize)
      ensures ok ==> fresh(packetData) && fresh(packetDataTemp) && forall k :: 0 <= k < packetData.Length ==> packetData[k] == 0
      ensures ok && old(readPos) <= old(writePos) ==> (Valid() <==> old(writePos) <= size)
      ensures !ok ==> packetData == old(packetData) && packetDataTemp == old(packetDataTemp) && Settings() == old(Settings())
    {
      if size < maxPacketSize * 2 || size < 1 || headerSize < 1 || maxPacketSize < 1 {
        return false;
      }
      bufferSize := size;
      packetData := new byte[size](_ => 0);
      packetDataTemp := new byte[size](_ => 0);
      this.headerSize, this.maxPacketSize := headerSize, maxPacketSize;
      ok := true;
    }

    method Write(data: array?<byte>, pos: nat, size: nat) returns (ok: bool)
      requires Valid() && (data != null ==> data != packetData && data != packetDataTemp)
      modifies this`readPos, this`writePos, packetData, packetDataTemp
      ensures Valid()
      ensures ok == (data != null && pos + size <= data.Length && old(writePos) + size <= bufferSize)
      ensures ok ==> Written(old(View()), old(data[pos..pos + size]), Settings()) == Some(View())
      ensures !ok ==> View() == old(View())
    {
      if data == null || data.Length < pos + size {
        return false;
      }
      var remainBufferSize := bufferSize - writePos;
      if remainBufferSize < size {
        return false;
      }
      ghost var unread, chunk := packetData[readPos..writePos], data[pos..pos + size];
      BlockCopy(data, pos, packetData, writePos, size);
      assert packetData[readPos..writePos + size] == unread + chunk by {
        assert packetData[readPos..writePos] == packetData[..writePos][readPos..];
      }
      writePos := writePos + size;
      var free := NextFree();
      if !free {
        BufferRelocate();
      }
      ok := true;
    }

    /**
     ToInt16 of the two bytes at readPos is the length of the next frame, also when a header size of 1
     lets the second one lie behind the unread bytes or, which throws, behind the array.
     */
    method Read() returns (segment: Segment)
      requires Valid() && headerSize >= 1
      modifies this`readPos
      ensures Valid() && writePos == old(writePos)
      ensures segment == Peek(old(packetData[..]), old(readPos), writePos, headerSize)
      ensures View() == if segment.Frame? then Skip(old(View()), |segment.bytes|) else old(View())
      ensures headerSize >= 2 ==> segment == Look(old(View()), headerSize)
    {
      var enableReadSize := writePos - readPos;
      if enableReadSize < headerSize {
        return Nothing;
      }
      if readPos + 2 > packetData.Length {
        return Throws;
      }
      ghost var unread := packetData[readPos..writePos];
      assert headerSize >= 2 ==> unread[0] == packetData[readPos] && unread[1] == packetData[readPos + 1];
      var packetDataSize := ToInt16(packetData[readPos], packetData[readPos + 1]);
      if enableReadSize < packetDataSize {
        return Nothing;
      }
      if packetDataSize < 0 {
        return Throws;
      }
      segment := Frame(packetData[readPos..readPos + packetDataSize]);
      assert segment.bytes == unread[..packetDataSize];
      readPos := readPos + packetDataSize;
      assert packetData[readPos..writePos] == unread[packetDataSize..];
    }

    method NextFree() returns (free: bool)
      requires Valid()
      ensures free == (bufferSize - writePos >= maxPacketSize)
    {
      var enableWriteSize := bufferSize - writePos;
      if enableWriteSize < maxPacketSize {
        return false;
      }
      return true;
    }

    /** The unread bytes move to the front, by way of the second array. */
    method BufferRelocate()
      requires Valid()
      modifies this`readPos, this`writePos, packetData, packetDataTemp
      ensures Valid() && View() == Linear(0, old(View()).unread)
    {
      var enableReadSize := writePos - readPos;
      BlockCopy(packetData, readPos, packetDataTemp, 0, enableReadSize);
      BlockCopy(packetDataTemp, 0, packetData, 0, enableReadSize);
      readPos := 0;
      writePos := enableReadSize;
    }

    /** The inner loop of the client: until there is no frame, or an exception. */
    method ReadAll() returns (received: seq<Bytes>, threw: bool)
      requires Valid() && headerSize >= 2
      modifies this`readPos
      ensures Valid() && Heard(received, View(), threw) == ReadLoop(old(View()), headerSize)
    {
      hide Look;
      received, threw := [], false;
      while true
        invariant Valid() && !threw
        invariant var h := ReadLoop(View(), headerSize); h.(frames := received + h.frames) == ReadLoop(old(View()), headerSize)
        decreases |View().unread|
      {
        assert received + [] == received;
        var data := Read();
        if data.Nothing? || data == Frame([]) {
          return;
        }
        if data.Throws? || |data.bytes| < headerSize {
          threw := true;
          return;
        }
        ghost var h := ReadLoop(View(), headerSize);
        assert received + ([data.bytes] + h.frames) == received + [data.bytes] + h.frames;
        received := received + [data.bytes];
      }
    }
  }

  /**
   The receiving thread of the client: each chunk is written, and then all complete frames are read.
   Nobody looks at what Write returns.
   */
  method Receive(c: Config, chunks: seq<Bytes>) returns (received: seq<Bytes>, threw: bool)
    requires c.Usable()
    ensures var h := Listen(Linear(0, []), chunks, c); received == h.frames && threw == h.threw
  {
    hide ReadLoop, Written, Listen;
    var manager := new PacketBufferManager();
    var ok := manager.Init(c.size, c.header, c.most);
    received, threw := [], false;
    assert chunks[0..] == chunks;
    for i := 0 to |chunks|
      invariant manager.Valid() && manager.Settings() == c && !threw
      invariant fresh(manager) && fresh(manager.packetData) && fresh(manager.packetDataTemp)
      invariant var h, all := Listen(manager.View(), chunks[i..], c), Listen(Linear(0, []), chunks, c);
        received + h.frames == all.frames && h.threw == all.threw
    {
      var recvData := new byte[|chunks[i]|](k requires 0 <= k < |chunks[i]| => chunks[i][k]);
      assert recvData[0..0 + |chunks[i]|] == chunks[i];
      NextChunk(manager.View(), chunks, i, c);
      WriteTest(manager.View(), chunks[i], c);
      ok := manager.Write(recvData, 0, |chunks[i]|);
      var more;
      more, threw := manager.ReadAll();
      ghost var h := Listen(manager.View(), chunks[i + 1..], c);
      assert received + (more + h.frames) == received + more + h.frames;
      received := received + more;
      if threw {
        return;
      }
    }
    NoChunk(manager.View(), chunks, c);
    assert received + [] == received;
  }

  lemma {:induction false} NextChunk(s: Linear, chunks: seq<Bytes>, i: nat, c: Config)
    requires c.header >= 2 && i < |chunks|
    ensures var h := ReadLoop(match Written(s, chunks[i], c) case None => s case Some(w) => w, c.header);
      var r := Listen(h.buffer, chunks[i + 1..], c);
      Listen(s, chunks[i..], c) == if h.threw then h else r.(frames := h.frames + r.frames)
  {
    hide ReadLoop, Written;
    assert chunks[i..][0] == chunks[i] && chunks[i..][1..] == chunks[i + 1..];
  }

  lemma {:induction false} NoChunk(s: Linear, chunks: seq<Bytes>, c: Config)
    requires c.header >= 2
    ensures Listen(s, chunks[|chunks|..], c) == Heard([], s, false)
  {
  }

  lemma {:induction false} WriteTest(s: Linear, chunk: Bytes, c: Config)
    ensures Written(s, chunk, c) == None <==> s.WritePos() + |chunk| > c.size
  {
  }

  /** The packet buffer of a connection on the server. */
  class User {
    var packetDataBufferWPos: nat
    var packetDataBufferRPos: nat
    const packetDataBuffer: array<byte>

    ghost predicate Valid()
      reads this
    {
      && packetDataBuffer.Length == PACKET_DATA_BUFFER_SIZE
      && packetDataBufferRPos <= packetDataBufferWPos <= PACKET_DATA_BUFFER_SIZE
    }

    ghost function View(): Linear
      requires Valid()
      reads this, packetDataBuffer
    {
      Linear(packetDataBufferRPos, packetDataBuffer[packetDataBufferRPos..packetDataBufferWPos])
    }

    constructor ()
      ensures Valid() && fresh(packetDataBuffer) && View() == Linear(0, [])
    {
      packetDataBufferWPos, packetDataBufferRPos := 0, 0;
      packetDataBuffer := new byte[PACKET_DATA_BUFFER_SIZE](_ => 0);
    }

    /** Nothing checks that the copy ends inside the buffer; false stands for one that does not. */
    method SetPacketData(dataSize: nat, data: array<byte>) returns (fits: bool)
      requires Valid() && data != packetDataBuffer && dataSize <= data.Length
      modifies this, packetDataBuffer
      ensures Valid() && fits == !Overruns(old(View()), old(data[..dataSize]))
      ensures fits ==> View() == Stored(old(View()), old(data[..dataSize]))
    {
      ghost var unread, chunk := View().unread, data[..dataSize];
      if packetDataBufferWPos + dataSize >= PACKET_DATA_BUFFER_SIZE {
        Compact();
      }
      var r, w := packetDataBufferRPos, packetDataBufferWPos;
      if w + dataSize > PACKET_DATA_BUFFER_SIZE {
        return false;
      }
      BlockCopy(data, 0, packetDataBuffer, w, dataSize);
      assert packetDataBuffer[r..w] == packetDataBuffer[..w][r..];
      assert packetDataBuffer[r..w + dataSize] == unread + chunk;
      packetDataBufferWPos := packetDataBufferWPos + dataSize;
      fits := true;
    }

    /** The unread bytes move to the front, if there are any. */
    method Compact()
      requires Valid()
      modifies this, packetDataBuffer
      ensures Valid() && View() == Linear(0, old(View()).unread)
    {
      var remainDataSize := packetDataBufferWPos - packetDataBufferRPos;
      if remainDataSize > 0 {
        MoveDown(remainDataSize);
        packetDataBufferWPos := remainDataSize;
      } else {
        packetDataBufferWPos := 0;
      }
      packetDataBufferRPos := 0;
    }

    /** CopyMemory of the unread bytes to the front of the same buffer, where the two may overlap. */
    method MoveDown(count: nat)
      requires Valid() && packetDataBufferRPos + count <= PACKET_DATA_BUFFER_SIZE
      modifies packetDataBuffer
      ensures packetDataBuffer[..count] == old(packetDataBuffer[packetDataBufferRPos..packetDataBufferRPos + count])
    {
      for i := 0 to count
        invariant forall k :: 0 <= k < i ==> packetDataBuffer[k] == old(packetDataBuffer[packetDataBufferRPos + k])
        invariant forall k :: i <= k < PACKET_DATA_BUFFER_SIZE ==> packetDataBuffer[k] == old(packetDataBuffer[k])
      {
        packetDataBuffer[i] := packetDataBuffer[packetDataBufferRPos + i];
      }
    }

    /** The next packet, header included, if all of it is there. */
    method GetPacket() returns (packet: Option<Bytes>)
      requires Valid()
      modifies this`packetDataBufferRPos
      ensures Valid() && packet == ReadFrame(old(View()), PACKET_HEADER_LENGTH)
      ensures View() == if packet == None then old(View()) else Skip(old(View()), |packet.value|)
    {
      var r := packetDataBufferRPos;
      var remainByte := packetDataBufferWPos - r;
      if remainByte < PACKET_HEADER_LENGTH {
        return None;
      }
      ghost var unread := packetDataBuffer[r..packetDataBufferWPos];
      assert unread[0] == packetDataBuffer[r] && unread[1] == packetDataBuffer[r + 1];
      var packetLength := FrameLength([packetDataBuffer[r], packetDataBuffer[r + 1]]);
      if packetLength > remainByte {
        return None;
      }
      packet := Some(packetDataBuffer[r..r + packetLength]);
      assert packet.value == unread[..packetLength];
      packetDataBufferRPos := r + packetLength;
      assert packetDataBuffer[packetDataBufferRPos..packetDataBufferWPos] == unread[packetLength..];
    }
  }

  /** A connection's life on the server, chunks stored and packets got in any order, until a copy overruns the buffer. */
  method ServeConnection(steps: seq<Step>) returns (ok: bool, packets: seq<Bytes>, user: User)
    ensures fresh(user) && user.Valid() && ok == Serve(Linear(0, []), steps).Received?
    ensures ok ==> Received(packets, user.View()) == Serve(Linear(0, []), steps)
  {
    hide ReadFrame, Stored, Skip, Overruns;
    user := new User();
    packets, ok := [], true;
    var i := 0;
    assert steps[0..] == steps;
    while i < |steps|
      invariant 0 <= i <= |steps| && ok && user.Valid() && fresh(user) && fresh(user.packetDataBuffer)
      invariant var r := Serve(user.View(), steps[i..]);
        (if r.Refused? then Refused else Received(packets + r.frames, r.buffer)) == Serve(Linear(0, []), steps)
    {
      assert steps[i..][0] == steps[i] && steps[i..][1..] == steps[i + 1..];
      match steps[i] {
        case SetPacketData(chunk) =>
          var data := new byte[|chunk|](k requires 0 <= k < |chunk| => chunk[k]);
          assert data[..|chunk|] == chunk;
          ok := user.SetPacketData(|chunk|, data);
          if !ok {
            return;
          }
        case GetPacket =>
          var packet := user.GetPacket();
          if packet.Some? {
            ghost var r := Serve(user.View(), steps[i + 1..]);
            assert r.Received? ==> packets + ([packet.value] + r.frames) == packets + [packet.value] + r.frames;
            packets := packets + [packet.value];
          }
      }
      i := i + 1;
    }
    assert steps[i..] == [];
  }
}
