/** The TCP command channel of eth_comms.c, without the sockets: the
    1024-byte receive ring buffer (Eth_Comms_Receive,
    Eth_Comms_Buffer_Bytes_Available, Eth_Comms_Get_Byte) and the framing
    state machine of Eth_Comms_Process_Commands, which hunts for the 0xACED
    sync word, reads a 16-bit length, reads the rest of the message into a
    64-byte buffer and dispatches on the command id.

    Host assumption: the header's unsigned shorts are laid out in memory
    little-endian (low byte first), as on the Raspberry Pi the program runs
    on; the length and command id are read byte-wise into that memory. */
module EthComms {

  /** BULK_BUFFER_SIZE: capacity of the receive ring. */
  const BulkBufferSize: nat := 1024
  /** sizeof(msg): the static message buffer of the parser. */
  const MsgSize: nat := 64
  /** SYNC_PATTERN. */
  const SyncPattern: int := 0xACED
  /** sizeof(header->sync_pattern) and sizeof(header->length). */
  const SyncSize: nat := 2
  const LengthSize: nat := 2
  /** Offset of the payload: sizeof(msg_header_type), three unsigned shorts. */
  const HeaderSize: nat := 6

  type Byte = x: int | 0 <= x < 256

  // ---------------------------------------------------------------------
  // Ring buffer

  /** Bytes between the out and in indices, counted round the ring. */
  function Available(idxIn: int, idxOut: int): int
  {
    (idxIn - idxOut) % BulkBufferSize
  }

  /** The ring index `j` places after `start`. */
  function Slot(start: nat, j: nat): nat
  {
    (start + j) % BulkBufferSize
  }

  /** The `count` bytes of the ring starting at index `start`. */
  function Ring(buf: seq<Byte>, start: nat, count: nat): (r: seq<Byte>)
    requires |buf| == BulkBufferSize
    ensures |r| == count
    ensures forall j :: 0 <= j < count ==> r[j] == buf[Slot(start, j)]
  {
    seq(count, j requires 0 <= j < count => buf[Slot(start, j)])
  }

  /** Counting j slots on from the slot a places after start is counting
      a + j places from start. */
  lemma SlotAdd(start: nat, a: nat, j: nat)
    ensures Slot(Slot(start, a), j) == Slot(start, a + j)
  {
    var q := (start + a) / BulkBufferSize;
    assert Slot(start, a) + j == (start + a + j) - q * BulkBufferSize;
  }

  /** Reading a + b bytes from start reads a bytes, then b bytes from
      where the first read stopped: Eth_Comms_Get_Byte takes bytes from
      successive slots, wrapping at 1024. */
  lemma RingSplit(buf: seq<Byte>, start: nat, a: nat, b: nat)
    requires |buf| == BulkBufferSize
    ensures Ring(buf, start, a + b) == Ring(buf, start, a) + Ring(buf, Slot(start, a), b)
  {
    var whole, first, second := Ring(buf, start, a + b), Ring(buf, start, a), Ring(buf, Slot(start, a), b);
    forall k | a <= k < a + b ensures whole[k] == second[k - a] {
      SlotAdd(start, a, k - a);
    }
    assert whole == first + second;
  }

  /** The ring after storing `data` byte by byte from index `start` on,
      wrapping at the end and overwriting whatever was there. */
  function RingWrite(buf: seq<Byte>, start: nat, data: seq<Byte>): (r: seq<Byte>)
    requires |buf| == BulkBufferSize
    ensures |r| == BulkBufferSize
    decreases |data|
  {
    if data == [] then buf
    else RingWrite(buf, start, data[..|data| - 1])[Slot(start, |data| - 1) := data[|data| - 1]]
  }

  /** The next index round the ring: one on, and back to 0 after 1023. */
  lemma SlotNext(start: nat, j: nat)
    ensures Slot(start, j + 1) == if Slot(start, j) + 1 >= BulkBufferSize then 0 else Slot(start, j) + 1
  {
  }

  /** Two offsets less than a ring apart land on different indices. */
  lemma ModDistinct(base: nat, a: nat, b: nat)
    requires a < b < a + BulkBufferSize
    ensures Slot(base, a) != Slot(base, b)
  {
  }

  /** Within one lap, byte j of the data ends up at index start + j. */
  lemma {:induction false} RingWriteAt(buf: seq<Byte>, start: nat, data: seq<Byte>, j: nat)
    requires |buf| == BulkBufferSize && |data| <= BulkBufferSize && j < |data|
    ensures RingWrite(buf, start, data)[Slot(start, j)] == data[j]
    decreases |data|
  {
    if j < |data| - 1 {
      ModDistinct(start, j, |data| - 1);
      RingWriteAt(buf, start, data[..|data| - 1], j);
    }
  }

  /** Indices the data does not reach keep their old byte. */
  lemma {:induction false} RingWriteElsewhere(buf: seq<Byte>, start: nat, data: seq<Byte>, p: nat)
    requires |buf| == BulkBufferSize && p < BulkBufferSize
    requires forall j :: 0 <= j < |data| ==> Slot(start, j) != p
    ensures RingWrite(buf, start, data)[p] == buf[p]
    decreases |data|
  {
    if data != [] {
      RingWriteElsewhere(buf, start, data[..|data| - 1], p);
    }
  }

  /** idxIn lies `c` places after idxOut round the ring. */
  lemma InAfterOut(idxIn: nat, idxOut: nat)
    requires idxIn < BulkBufferSize && idxOut < BulkBufferSize
    ensures var c := Available(idxIn, idxOut);
      0 <= c < BulkBufferSize && (idxIn == idxOut + c || idxIn + BulkBufferSize == idxOut + c)
  {
  }

  /** Counting from idxIn is counting from idxOut, `c` places further on. */
  lemma SlotShift(idxIn: nat, idxOut: nat, c: nat, j: nat)
    requires idxIn == idxOut + c || idxIn + BulkBufferSize == idxOut + c
    ensures Slot(idxIn, j) == Slot(idxOut, c + j)
  {
    if idxIn + BulkBufferSize == idxOut + c {
      assert idxOut + c + j == (idxIn + j) + BulkBufferSize;
    }
  }

  /** An unread byte, j places after idxOut, survives receiving data that
      does not reach round to it. */
  lemma UnreadKept(buf: seq<Byte>, idxIn: nat, idxOut: nat, data: seq<Byte>, j: nat)
    requires |buf| == BulkBufferSize && idxIn < BulkBufferSize && idxOut < BulkBufferSize
    requires j < Available(idxIn, idxOut) && Available(idxIn, idxOut) + |data| < BulkBufferSize
    ensures RingWrite(buf, idxIn, data)[Slot(idxOut, j)] == buf[Slot(idxOut, j)]
  {
    var c := Available(idxIn, idxOut);
    InAfterOut(idxIn, idxOut);
    forall j' | 0 <= j' < |data| ensures Slot(idxIn, j') != Slot(idxOut, j) {
      SlotShift(idxIn, idxOut, c, j');
      ModDistinct(idxOut, j, c + j');
    }
    RingWriteElsewhere(buf, idxIn, data, Slot(idxOut, j));
  }

  /** Received byte j lands c + j places after idxOut. */
  lemma ReceivedPlaced(buf: seq<Byte>, idxIn: nat, idxOut: nat, data: seq<Byte>, j: nat)
    requires |buf| == BulkBufferSize && idxIn < BulkBufferSize && idxOut < BulkBufferSize
    requires j < |data| && Available(idxIn, idxOut) + |data| < BulkBufferSize
    ensures RingWrite(buf, idxIn, data)[Slot(idxOut, Available(idxIn, idxOut) + j)] == data[j]
  {
    InAfterOut(idxIn, idxOut);
    SlotShift(idxIn, idxOut, Available(idxIn, idxOut), j);
    RingWriteAt(buf, idxIn, data, j);
  }

  /** Moving idxIn k places on adds k to the count, short of a full lap. */
  lemma AvailableGrows(idxIn: nat, idxOut: nat, k: nat)
    requires idxIn < BulkBufferSize && idxOut < BulkBufferSize
    requires Available(idxIn, idxOut) + k < BulkBufferSize
    ensures Available(Slot(idxIn, k), idxOut) == Available(idxIn, idxOut) + k
  {
    InAfterOut(idxIn, idxOut);
    SlotShift(idxIn, idxOut, Available(idxIn, idxOut), k);
  }

  /** While fewer than 1024 bytes are outstanding, the ring is a FIFO:
      receiving appends the data to the unread bytes, in arrival order. */
  lemma ReceiveAppends(buf: seq<Byte>, idxIn: nat, idxOut: nat, data: seq<Byte>)
    requires |buf| == BulkBufferSize && idxIn < BulkBufferSize && idxOut < BulkBufferSize
    requires Available(idxIn, idxOut) + |data| < BulkBufferSize
    ensures Ring(RingWrite(buf, idxIn, data), idxOut, Available(idxIn, idxOut) + |data|)
         == Ring(buf, idxOut, Available(idxIn, idxOut)) + data
  {
    var c := Available(idxIn, idxOut);
    UnreadAllKept(buf, idxIn, idxOut, data, c);
    ReceivedAllPlaced(buf, idxIn, idxOut, data, c);
    RingAppend(RingWrite(buf, idxIn, data), buf, idxOut, c, data);
  }

  /** Every unread byte survives receiving. */
  lemma UnreadAllKept(buf: seq<Byte>, idxIn: nat, idxOut: nat, data: seq<Byte>, c: nat)
    requires |buf| == BulkBufferSize && idxIn < BulkBufferSize && idxOut < BulkBufferSize
    requires c == Available(idxIn, idxOut) && c + |data| < BulkBufferSize
    ensures forall j :: 0 <= j < c ==> RingWrite(buf, idxIn, data)[Slot(idxOut, j)] == buf[Slot(idxOut, j)]
  {
    forall j | 0 <= j < c ensures RingWrite(buf, idxIn, data)[Slot(idxOut, j)] == buf[Slot(idxOut, j)] {
      UnreadKept(buf, idxIn, idxOut, data, j);
    }
  }

  /** Every received byte lands after the unread ones. */
  lemma ReceivedAllPlaced(buf: seq<Byte>, idxIn: nat, idxOut: nat, data: seq<Byte>, c: nat)
    requires |buf| == BulkBufferSize && idxIn < BulkBufferSize && idxOut < BulkBufferSize
    requires c == Available(idxIn, idxOut) && c + |data| < BulkBufferSize
    ensures forall j :: 0 <= j < |data| ==> RingWrite(buf, idxIn, data)[Slot(idxOut, c + j)] == data[j]
  {
    forall j | 0 <= j < |data| ensures RingWrite(buf, idxIn, data)[Slot(idxOut, c + j)] == data[j] {
      ReceivedPlaced(buf, idxIn, idxOut, data, j);
    }
  }

  /** A ring that keeps the first c bytes from `start` and holds `data`
      after them reads back as those bytes followed by `data`. */
  lemma RingAppend(w: seq<Byte>, buf: seq<Byte>, start: nat, c: nat, data: seq<Byte>)
    requires |w| == BulkBufferSize && |buf| == BulkBufferSize
    requires forall j :: 0 <= j < c ==> w[Slot(start, j)] == buf[Slot(start, j)]
    requires forall j :: 0 <= j < |data| ==> w[Slot(start, c + j)] == data[j]
    ensures Ring(w, start, c + |data|) == Ring(buf, start, c) + data
  {
    var lhs, unread := Ring(w, start, c + |data|), Ring(buf, start, c);
    forall k | 0 <= k < c + |data| ensures lhs[k] == (unread + data)[k] {
      if k >= c {
        assert w[Slot(start, c + (k - c))] == data[k - c];
      }
    }
  }

  /** Receiving exactly enough bytes to fill all 1024 slots makes the ring
      look empty: there is no overflow check, so unread data can be lost. */
  lemma FullRingLooksEmpty(idxIn: nat, idxOut: nat, k: nat)
    requires idxIn < BulkBufferSize && idxOut < BulkBufferSize
    requires Available(idxIn, idxOut) + k == BulkBufferSize
    ensures Available(Slot(idxIn, k), idxOut) == 0
  {
    InAfterOut(idxIn, idxOut);
    SlotShift(idxIn, idxOut, Available(idxIn, idxOut), k);
  }

  /** g_bulk_buffer with its in and out indices. */
  class RingBuffer {
    const buffer: array<Byte>
    var idxIn: int
    var idxOut: int

    ghost predicate Valid()
      reads this
    {
      buffer.Length == BulkBufferSize && 0 <= idxIn < BulkBufferSize && 0 <= idxOut < BulkBufferSize
    }

    /** The bytes received and not yet read, oldest first. */
    ghost function Pending(): seq<Byte>
      reads this, buffer
      requires Valid()
    {
      Ring(buffer[..], idxOut, Available(idxIn, idxOut))
    }

    /** The zeroed static buffer and the indices set by Eth_Comms_Init. */
    constructor ()
      ensures Valid() && fresh(buffer)
      ensures idxIn == 0 && idxOut == 0 && Pending() == []
    {
      buffer := new Byte[BulkBufferSize](_ => 0);
      idxIn, idxOut := 0, 0;
    }

    /** Eth_Comms_Receive: store each byte at idxIn and advance it, wrapping
        at 1024, with no check against idxOut. */
    method Receive(data: seq<Byte>)
      requires Valid()
      modifies this`idxIn, buffer
      ensures Valid()
      ensures buffer[..] == RingWrite(old(buffer[..]), old(idxIn), data)
      ensures idxIn == (old(idxIn) + |data|) % BulkBufferSize
      ensures Available(old(idxIn), idxOut) + |data| < BulkBufferSize ==>
        Pending() == old(Pending()) + data
    {
      var i := 0;
      while i < |data|
        invariant 0 <= i <= |data|
        invariant 0 <= idxIn < BulkBufferSize
        invariant idxIn == Slot(old(idxIn), i)
        invariant buffer[..] == RingWrite(old(buffer[..]), old(idxIn), data[..i])
      {
        assert data[..i + 1][..i] == data[..i];
        SlotNext(old(idxIn), i);
        buffer[idxIn] := data[i];
        idxIn := idxIn + 1;
        if idxIn >= BulkBufferSize {
          idxIn := 0;
        }
        i := i + 1;
      }
      assert data[..i] == data;
      if Available(old(idxIn), idxOut) + |data| < BulkBufferSize {
        AvailableGrows(old(idxIn), idxOut, |data|);
        ReceiveAppends(old(buffer[..]), old(idxIn), idxOut, data);
      }
    }

    /** Eth_Comms_Buffer_Bytes_Available. */
    method BytesAvailable() returns (n: int)
      requires Valid()
      ensures n == Available(idxIn, idxOut) && n == |Pending()|
      ensures 0 <= n < BulkBufferSize
      ensures n == 0 <==> idxIn == idxOut
    {
      if idxIn >= idxOut {
        n := idxIn - idxOut;
      } else {
        n := BulkBufferSize - idxOut + idxIn;
      }
    }

    /** Eth_Comms_Get_Byte: 0 and nothing changed when the ring is empty;
        otherwise 1, the oldest unread byte, and one byte fewer pending. */
    method GetByte() returns (result: int, ch: Byte)
      requires Valid()
      modifies this`idxOut
      ensures Valid()
      ensures old(Pending()) == [] <==> old(idxIn == idxOut)
      ensures old(Pending()) == [] ==> result == 0 && ch == 0 && idxOut == old(idxOut)
      ensures old(Pending()) != [] ==>
        && result == 1
        && ch == old(Pending())[0]
        && Pending() == old(Pending())[1..]
        && Available(idxIn, idxOut) == old(Available(idxIn, idxOut)) - 1
    {
      result, ch := 0, 0;
      InAfterOut(idxIn, idxOut);
      if idxIn != idxOut {
        ghost var before := Pending();
        ch := buffer[idxOut];
        idxOut := idxOut + 1;
        if idxOut >= BulkBufferSize {
          idxOut := 0;
        }
        result := 1;
        assert Available(idxIn, idxOut) == |before| - 1;
        assert Pending() == before[1..] by {
          forall j | 0 <= j < |before| - 1 ensures Pending()[j] == before[j + 1] {
            if old(idxOut) + 1 == BulkBufferSize {
              assert (idxOut + j) % BulkBufferSize == (old(idxOut) + j + 1) % BulkBufferSize;
            }
          }
        }
      }
    }
  }

  // ---------------------------------------------------------------------
  // Framing parser

  datatype ParserState = FindSync | GetMsgLength | GetMessageRemainder | VerifyCrc | ProcessMsg

  /** What the parser does to the outside: text written to the connection
      by Eth_Print, or the setpoint command with the four payload bytes that
      are memcpy'd into a float. */
  datatype Event = Print(text: string) | SetCabinetSetpoint(payload: seq<Byte>)

  const SearchingText := "Searching for sync\r\n"
  const InvalidLengthText := "Invalid length\r\n"

  /** The parser's static variables: its state, msg[64] and the write
      pointer pCh, as an index into msg. */
  datatype Parser = Parser(state: ParserState, msg: seq<Byte>, pCh: int)

  /** header->sync_pattern, header->length and header->cmd_id, read from
      msg on a little-endian host. */
  function Sync(msg: seq<Byte>): int
    requires |msg| == MsgSize
  {
    msg[0] + 256 * (msg[1] as int)
  }

  function Length(msg: seq<Byte>): int
    requires |msg| == MsgSize
  {
    msg[2] + 256 * (msg[3] as int)
  }

  function CmdId(msg: seq<Byte>): int
    requires |msg| == MsgSize
  {
    msg[4] + 256 * (msg[5] as int)
  }

  /** `((sync << 8) & 0xFF00) | (ch & 0x00FF)`: the shifted word's bits
      above 15 fall away and its low byte is zero, so the OR is an add. */
  function ShiftSync(sync: int, ch: Byte): int
  {
    (sync * 256) % 0x1_0000 + ch
  }

  /** The sync register is a two-byte shift register: the new word holds the
      previous low byte above the byte just consumed. */
  lemma ShiftSyncBytes(msg: seq<Byte>, ch: Byte)
    requires |msg| == MsgSize
    ensures ShiftSync(Sync(msg), ch) == 256 * (msg[0] as int) + ch
  {
    assert Sync(msg) * 256 == (msg[0] as int) * 256 + (msg[1] as int) * 0x1_0000;
  }

  /** i = header->length - sizeof(header->length) - sizeof(header->sync_pattern):
      the bytes still to read once sync and length are in. */
  function RemainderCount(length: int): int
  {
    length - LengthSize - SyncSize
  }

  /** The length test of eth_comms.c:170 as written: only lengths beyond the
      message buffer are refused. */
  predicate LengthRejectedAsWritten(length: int)
  {
    length > MsgSize
  }

  /** Iterations of `while (i--)` on a C int: i of them for i >= 0; for a
      negative i the loop runs on until i wraps round through the most
      negative int back to 0. */
  function WhileDecrementIterations(i: int): nat
    requires -0x8000_0000 <= i
  {
    if i >= 0 then i else 0x1_0000_0000 + i
  }

  /** The corrected length test used by the model: lengths shorter than the
      sync and length fields, as well as those beyond the buffer, go back to
      sync hunting. */
  predicate LengthAccepted(length: int)
  {
    SyncSize + LengthSize <= length <= MsgSize
  }

  /** With the corrected test the remainder is never negative and its bytes,
      written from index 4 on, stay inside msg[0..63]; on every length of 4
      or more it agrees with the test as written. */
  lemma LengthAcceptedKeepsWritesInside(length: int)
    ensures LengthAccepted(length) ==>
      0 <= RemainderCount(length) && SyncSize + LengthSize + RemainderCount(length) <= MsgSize
    ensures length >= SyncSize + LengthSize ==>
      (LengthAccepted(length) <==> !LengthRejectedAsWritten(length))
  {
  }

  /** The parser invariant: msg is 64 bytes, and while reading the remainder
      pCh sits just after the length field of an accepted length. */
  ghost predicate WellFormed(p: Parser)
  {
    && |p.msg| == MsgSize
    && (p.state == GetMessageRemainder ==> p.pCh == SyncSize + LengthSize && LengthAccepted(Length(p.msg)))
  }

  /** The command-id switch of STATE_PROCESS_MSG (message_id_type). */
  function Dispatch(msg: seq<Byte>): seq<Event>
    requires |msg| == MsgSize
  {
    var id := CmdId(msg);
    if id == 0 then [Print("CMD_GET_VERSION\r\n")]
    else if id == 1 then [SetCabinetSetpoint(msg[HeaderSize..HeaderSize + 4])]
    else if id == 2 then [Print("CMD_SET_KP\r\n")]
    else if id == 3 then [Print("CMD_SET_KI\r\n")]
    else if id == 4 then [Print("CMD_SET_KL\r\n")]
    else if id == 5 then [Print("CMD_SET_CHANNEL_NAME\r\n")]
    else if id == 6 then [Print("CMD_GET_STATUS\r\n")]
    else []
  }

  /** One pass of the `while (!done)` switch: the new parser, how many of
      the buffered bytes it consumed, what it emitted, and whether it set
      `done`. */
  datatype StepResult = StepResult(parser: Parser, consumed: nat, events: seq<Event>, done: bool)

  /** Order in which the states follow each other without consuming input. */
  function Rank(s: ParserState): nat
  {
    match s
    case FindSync => 0
    case ProcessMsg => 1
    case VerifyCrc => 2
    case GetMessageRemainder => 3
    case GetMsgLength => 4
  }

  /** STATE_FIND_SYNC: announce the search, then shift the next byte, if
      any, into the sync register msg[0..1]. */
  function HuntStep(p: Parser, input: seq<Byte>): (r: StepResult)
    requires |p.msg| == MsgSize && p.state == FindSync
    ensures |r.parser.msg| == MsgSize && r.parser.msg[2..] == p.msg[2..] && r.parser.pCh == p.pCh
    ensures r.parser.state == FindSync || r.parser.state == GetMsgLength
    ensures r.events == [Print(SearchingText)]
    ensures r.done <==> input == []
    ensures r.consumed == if input == [] then 0 else 1
    ensures r.done ==> r.parser == p
  {
    if input == [] then StepResult(p, 0, [Print(SearchingText)], true)
    else
      var s := ShiftSync(Sync(p.msg), input[0]);
      var msg := p.msg[0 := s % 256][1 := s / 256];
      StepResult(Parser(if s == SyncPattern then GetMsgLength else FindSync, msg, p.pCh),
                 1, [Print(SearchingText)], false)
  }

  /** STATE_GET_MSG_LENGTH: once two bytes are buffered, read them into
      msg[2..3] and test the length. */
  function LengthStep(p: Parser, input: seq<Byte>): (r: StepResult)
    requires |p.msg| == MsgSize && p.state == GetMsgLength
    ensures WellFormed(r.parser)
    ensures r.done <==> |input| < LengthSize
    ensures r.consumed == if |input| < LengthSize then 0 else LengthSize
    ensures r.done ==> r.parser == p && r.events == []
    ensures !r.done ==> r.parser.state == FindSync || r.parser.state == GetMessageRemainder
  {
    if |input| >= LengthSize then
      var msg := p.msg[2 := input[0]][3 := input[1]];
      if LengthAccepted(Length(msg)) then
        StepResult(Parser(GetMessageRemainder, msg, SyncSize + LengthSize), LengthSize, [], false)
      else
        StepResult(Parser(FindSync, msg, SyncSize + LengthSize), LengthSize, [Print(InvalidLengthText)], false)
    else StepResult(p, 0, [], true)
  }

  /** STATE_GET_MESSAGE_REMAINDER: once the rest of the message is buffered,
      read it into msg from pCh on. */
  function RemainderStep(p: Parser, input: seq<Byte>): (r: StepResult)
    requires WellFormed(p) && p.state == GetMessageRemainder
    ensures |r.parser.msg| == MsgSize
    ensures r.done <==> |input| < RemainderCount(Length(p.msg))
    ensures r.done ==> r.parser == p && r.consumed == 0 && r.events == []
    ensures !r.done ==> r.parser.state == VerifyCrc && r.consumed == RemainderCount(Length(p.msg))
  {
    var i := RemainderCount(Length(p.msg));
    if |input| >= i then
      StepResult(Parser(VerifyCrc, p.msg[..p.pCh] + input[..i] + p.msg[p.pCh + i..], p.pCh + i), i, [], false)
    else StepResult(p, 0, [], true)
  }

  /** STATE_GET_MSG_LENGTH as written: the same as LengthStep except that
      only lengths beyond msg are refused. */
  function LengthStepAsWritten(p: Parser, input: seq<Byte>): (r: StepResult)
    requires |p.msg| == MsgSize && p.state == GetMsgLength
    ensures |r.parser.msg| == MsgSize
    ensures r.done <==> |input| < LengthSize
    ensures !r.done ==>
      && r.consumed == LengthSize && r.parser.pCh == SyncSize + LengthSize
      && Length(r.parser.msg) == input[0] + 256 * (input[1] as int)
      && (r.parser.state == GetMessageRemainder <==> !LengthRejectedAsWritten(Length(r.parser.msg)))
  {
    if |input| >= LengthSize then
      var msg := p.msg[2 := input[0]][3 := input[1]];
      if LengthRejectedAsWritten(Length(msg)) then
        StepResult(Parser(FindSync, msg, SyncSize + LengthSize), LengthSize, [Print(InvalidLengthText)], false)
      else
        StepResult(Parser(GetMessageRemainder, msg, SyncSize + LengthSize), LengthSize, [], false)
    else StepResult(p, 0, [], true)
  }

  /** The two length tests differ only on lengths shorter than the sync and
      length fields: on every other length field the corrected step is the
      step as written. */
  lemma LengthStepAgrees(p: Parser, input: seq<Byte>)
    requires |p.msg| == MsgSize && p.state == GetMsgLength
    requires |input| >= LengthSize ==> input[0] + 256 * (input[1] as int) >= SyncSize + LengthSize
    ensures LengthStepAsWritten(p, input) == LengthStep(p, input)
  {
  }

  /** The stores made by `while (i--) Eth_Comms_Get_Byte(pCh++)` over
      `passes` passes, as (offset in msg, byte) pairs: each pass stores the
      next pending byte at pCh when there is one, and pCh advances on every
      pass; once the ring is empty no further byte is stored. */
  function DrainAsWritten(pCh: int, pending: seq<Byte>, passes: nat): (stores: seq<(int, Byte)>)
    ensures |stores| == if passes < |pending| then passes else |pending|
    decreases passes
  {
    if passes == 0 || pending == [] then []
    else [(pCh, pending[0])] + DrainAsWritten(pCh + 1, pending[1..], passes - 1)
  }

  /** Pass k, while bytes remain, stores pending byte k at pCh + k. */
  lemma {:induction false} DrainStoresAt(pCh: int, pending: seq<Byte>, passes: nat, k: nat)
    requires k < |pending| && k < passes
    ensures DrainAsWritten(pCh, pending, passes)[k] == (pCh + k, pending[k])
    decreases k
  {
    if k > 0 {
      DrainStoresAt(pCh + 1, pending[1..], passes - 1, k - 1);
    }
  }

  /** STATE_GET_MESSAGE_REMAINDER as written: the stores of the remainder
      loop when `available >= i` holds, none otherwise. */
  function RemainderStoresAsWritten(p: Parser, input: seq<Byte>): seq<(int, Byte)>
    requires |p.msg| == MsgSize
  {
    var i := RemainderCount(Length(p.msg));
    if |input| >= i then DrainAsWritten(p.pCh, input, WhileDecrementIterations(i)) else []
  }

  /** As written, a length field of 2 passes the check of eth_comms.c:170;
      the remainder count is then -2, so `available >= i` holds whatever is
      buffered and `while (i--)` drains every pending byte into memory from
      msg[4] on: with more than 60 bytes pending, byte 60 is stored at
      offset 64, one beyond msg[63]. */
  lemma ShortLengthOverrunsMsg(msg: seq<Byte>, rest: seq<Byte>)
    requires |msg| == MsgSize && MsgSize - SyncSize - LengthSize < |rest| < BulkBufferSize
    ensures var s := LengthStepAsWritten(Parser(GetMsgLength, msg, 0), [2, 0] + rest);
      && !s.done && s.events == [] && s.parser.state == GetMessageRemainder
      && RemainderCount(Length(s.parser.msg)) < 0
      && |RemainderStoresAsWritten(s.parser, rest)| == |rest|
      && RemainderStoresAsWritten(s.parser, rest)[MsgSize - SyncSize - LengthSize]
         == (MsgSize, rest[MsgSize - SyncSize - LengthSize])
  {
    var input: seq<Byte> := [2, 0] + rest;
    var s := LengthStepAsWritten(Parser(GetMsgLength, msg, 0), input);
    assert input[0] == 2 && input[1] == 0;
    assert Length(s.parser.msg) == 2;
    assert WhileDecrementIterations(RemainderCount(2)) == 0x1_0000_0000 - 2;
    DrainStoresAt(SyncSize + LengthSize, rest, 0x1_0000_0000 - 2, MsgSize - SyncSize - LengthSize);
  }

  /** STATE_PROCESS_MSG: dispatch, clear the sync register, hunt again. */
  function ProcessStep(p: Parser): (r: StepResult)
    requires |p.msg| == MsgSize
    ensures |r.parser.msg| == MsgSize && r.parser.state == FindSync && Sync(r.parser.msg) == 0
    ensures r.parser.msg[2..] == p.msg[2..]
  {
    StepResult(Parser(FindSync, p.msg[0 := 0][1 := 0], p.pCh), 0, Dispatch(p.msg), false)
  }

  function Step(p: Parser, input: seq<Byte>): (r: StepResult)
    requires WellFormed(p)
    ensures WellFormed(r.parser)
    ensures r.consumed <= |input|
    ensures r.done ==> r.parser == p && r.consumed == 0
    ensures !r.done ==> r.consumed > 0 || Rank(r.parser.state) < Rank(p.state)
  {
    match p.state
    case FindSync => HuntStep(p, input)
    case GetMsgLength => LengthStep(p, input)
    case GetMessageRemainder => RemainderStep(p, input)
    case VerifyCrc => StepResult(p.(state := ProcessMsg), 0, [], false)
    case ProcessMsg => ProcessStep(p)
  }

  /** The parser's final state, the bytes left in the ring and the events
      of one call of Eth_Comms_Process_Commands. */
  datatype RunResult = RunResult(parser: Parser, rest: seq<Byte>, events: seq<Event>)

  function Run(p: Parser, input: seq<Byte>): (r: RunResult)
    requires WellFormed(p)
    ensures WellFormed(r.parser)
    decreases |input|, Rank(p.state)
  {
    var s := Step(p, input);
    if s.done then RunResult(p, input, s.events)
    else
      var r := Run(s.parser, input[s.consumed..]);
      RunResult(r.parser, r.rest, s.events + r.events)
  }

  /** In sync hunting the parser leaves FindSync exactly when the byte it
      just consumed is 0xED and the one consumed before it (the low byte of
      the sync register) is 0xAC; the register then holds those two bytes. */
  lemma SyncFound(p: Parser, input: seq<Byte>)
    requires WellFormed(p) && p.state == FindSync && input != []
    ensures Step(p, input).parser.state == GetMsgLength <==> p.msg[0] == 0xAC && input[0] == 0xED
    ensures Step(p, input).parser.state != GetMsgLength ==> Step(p, input).parser.state == FindSync
    ensures Step(p, input).parser.msg[0] == input[0] && Step(p, input).parser.msg[1] == p.msg[0]
    ensures Step(p, input).consumed == 1
  {
    ShiftSyncBytes(p.msg, input[0]);
  }

  /** A length beyond the 64-byte buffer (or, corrected, shorter than the
      sync and length fields) is refused: "Invalid length" and back to sync
      hunting.  An accepted length leads to reading length - 4 more bytes,
      which all land inside msg. */
  lemma LengthChecked(p: Parser, input: seq<Byte>)
    requires WellFormed(p) && p.state == GetMsgLength && |input| >= LengthSize
    ensures var len := input[0] + 256 * (input[1] as int);
      && Length(Step(p, input).parser.msg) == len
      && (len > MsgSize ==> Step(p, input).parser.state == FindSync
                            && Step(p, input).events == [Print(InvalidLengthText)])
      && (Step(p, input).parser.state == GetMessageRemainder <==> LengthAccepted(len))
      && (LengthAccepted(len) ==> Step(p, input).parser.pCh + RemainderCount(len) <= MsgSize)
      && (len >= SyncSize + LengthSize ==>
            && Step(p, input) == LengthStepAsWritten(p, input)
            && (Step(p, input).parser.state == GetMessageRemainder <==> !LengthRejectedAsWritten(len)))
  {
    if input[0] + 256 * (input[1] as int) >= SyncSize + LengthSize {
      LengthStepAgrees(p, input);
    }
  }

  /** With too few bytes buffered the parser stops without consuming any,
      and the next call resumes in the same state. */
  lemma WaitsForMoreBytes(p: Parser, input: seq<Byte>)
    requires WellFormed(p)
    requires (p.state == FindSync && input == [])
          || (p.state == GetMsgLength && |input| < LengthSize)
          || (p.state == GetMessageRemainder && |input| < RemainderCount(Length(p.msg)))
    ensures Run(p, input) == RunResult(p, input, Step(p, input).events)
  {
  }

  /** After a message is processed the sync register is cleared and the
      parser is back to sync hunting. */
  lemma ProcessedResetsSync(p: Parser, input: seq<Byte>)
    requires WellFormed(p) && p.state == ProcessMsg
    ensures Step(p, input).parser.state == FindSync
    ensures Sync(Step(p, input).parser.msg) == 0
    ensures Step(p, input).events == Dispatch(p.msg)
  {
  }

  /** The bytes of a well-formed frame: sync word, little-endian length
      (the whole frame), little-endian command id, payload. */
  function Frame(cmdId: int, payload: seq<Byte>): seq<Byte>
    requires 0 <= cmdId < 0x1_0000 && |payload| <= MsgSize - HeaderSize
  {
    var len := HeaderSize + |payload|;
    [0xAC, 0xED, len % 256, len / 256, cmdId % 256, cmdId / 256] + payload
  }

  /** The dispatch reads nothing of the sync register. */
  lemma DispatchIgnoresSync(m: seq<Byte>, m': seq<Byte>)
    requires |m| == MsgSize && |m'| == MsgSize && m[2..] == m'[2..]
    ensures Dispatch(m) == Dispatch(m')
  {
    assert m[4] == m[2..][2] == m'[4];
    assert m[5] == m[2..][3] == m'[5];
    assert m[HeaderSize..HeaderSize + 4] == m[2..][4..8] == m'[HeaderSize..HeaderSize + 4];
  }

  /** A run whose events are preceded by `events`. */
  function Prefixed(events: seq<Event>, r: RunResult): RunResult
  {
    r.(events := events + r.events)
  }

  /** Hunting over the two sync bytes finds the sync word, whatever the
      register held before, announcing the search once per byte. */
  lemma HuntsSyncWord(p: Parser, rest: seq<Byte>) returns (q: Parser)
    requires WellFormed(p) && p.state == FindSync
    ensures WellFormed(q) && q.state == GetMsgLength && Sync(q.msg) == SyncPattern
    ensures q.msg[2..] == p.msg[2..]
    ensures Run(p, [0xAC, 0xED] + rest) == Prefixed([Print(SearchingText), Print(SearchingText)], Run(q, rest))
  {
    var input := [0xAC, 0xED] + rest;
    var s1 := Step(p, input);
    ShiftSyncBytes(p.msg, 0xAC);
    var p1 := s1.parser;
    assert p1.state == FindSync && p1.msg[0] == 0xAC;
    assert input[1..] == [0xED] + rest;
    var s2 := Step(p1, input[1..]);
    ShiftSyncBytes(p1.msg, 0xED);
    q := s2.parser;
    assert input[1..][1..] == rest;
    assert Run(p1, input[1..]) == Prefixed([Print(SearchingText)], Run(q, rest));
    assert Run(p, input) == Prefixed([Print(SearchingText)], Run(p1, input[1..]));
  }

  /** From the length state, a length field and the length - 4 bytes that
      follow it fill msg[2..length-1] and lead to the CRC state. */
  lemma ReadsLengthAndBody(p: Parser, len: int, body: seq<Byte>) returns (q: Parser)
    requires WellFormed(p) && p.state == GetMsgLength
    requires LengthAccepted(len) && |body| == RemainderCount(len)
    ensures WellFormed(q) && q.state == VerifyCrc
    ensures q.msg[..2] == p.msg[..2] && Length(q.msg) == len
    ensures q.msg[SyncSize + LengthSize..len] == body && q.pCh == len
    ensures Run(p, [len % 256, len / 256] + body) == Run(q, [])
  {
    var input: seq<Byte> := [len % 256, len / 256] + body;
    var s3 := Step(p, input);
    var p3 := s3.parser;
    assert Length(p3.msg) == len;
    assert input[2..] == body;
    var s4 := Step(p3, body);
    q := s4.parser;
    assert body[s4.consumed..] == [];
    assert q.msg == p3.msg[..4] + body + p3.msg[len..];
  }

  /** From the CRC state the message is dispatched, the register cleared,
      and with no byte left the parser stops in sync hunting. */
  lemma Completes(p: Parser)
    requires WellFormed(p) && p.state == VerifyCrc
    ensures var q := ProcessStep(p.(state := ProcessMsg)).parser;
      Run(p, []) == RunResult(q, [], Dispatch(p.msg) + [Print(SearchingText)])
  {
    var p5 := p.(state := ProcessMsg);
    var q := ProcessStep(p5).parser;
    assert Run(q, []) == RunResult(q, [], [Print(SearchingText)]);
    assert Run(p5, []) == Prefixed(Dispatch(p.msg), Run(q, []));
  }

  /** The command id and the payload of a frame's body, once read into
      msg[4..] and kept there when the sync register is cleared. */
  lemma CommandInPlace(m4: seq<Byte>, m: seq<Byte>, cmdId: int, payload: seq<Byte>)
    requires |m4| == MsgSize && |m| == MsgSize && m[2..] == m4[2..]
    requires 0 <= cmdId < 0x1_0000 && |payload| <= MsgSize - HeaderSize
    requires m4[SyncSize + LengthSize..HeaderSize + |payload|] == [cmdId % 256, cmdId / 256] + payload
    ensures CmdId(m) == cmdId
    ensures m[HeaderSize..HeaderSize + |payload|] == payload
  {
    var len := HeaderSize + |payload|;
    var body := [cmdId % 256, cmdId / 256] + payload;
    assert m[4..len] == m[2..][2..len - 2] == m4[2..][2..len - 2] == m4[4..len];
    assert m[4] == m[4..len][0] == body[0];
    assert m[5] == m[4..len][1] == body[1];
    assert m[HeaderSize..len] == m[4..len][2..] == body[2..] == payload;
  }

  /** The stages of a frame's run: hunting over the sync word, reading the
      length and the body, and dispatching from the resulting message. */
  lemma FrameStages(p: Parser, cmdId: int, payload: seq<Byte>) returns (m: seq<Byte>)
    requires WellFormed(p) && p.state == FindSync
    requires 0 <= cmdId < 0x1_0000 && |payload| <= MsgSize - HeaderSize
    ensures |m| == MsgSize
    ensures m[SyncSize + LengthSize..HeaderSize + |payload|] == [cmdId % 256, cmdId / 256] + payload
    ensures Run(p, Frame(cmdId, payload))
         == RunResult(Parser(FindSync, m[0 := 0][1 := 0], HeaderSize + |payload|), [],
                      [Print(SearchingText), Print(SearchingText)] + (Dispatch(m) + [Print(SearchingText)]))
  {
    var len := HeaderSize + |payload|;
    var body: seq<Byte> := [cmdId % 256, cmdId / 256] + payload;
    assert LengthAccepted(len) && |body| == RemainderCount(len);
    var lengthBytes: seq<Byte> := [len % 256, len / 256];
    assert Frame(cmdId, payload) == [0xAC, 0xED] + (lengthBytes + body);
    var q2 := HuntsSyncWord(p, lengthBytes + body);
    var q4 := ReadsLengthAndBody(q2, len, body);
    Completes(q4);
    m := q4.msg;
    var q := Parser(FindSync, m[0 := 0][1 := 0], len);
    assert ProcessStep(q4.(state := ProcessMsg)).parser == q;
    var tail := Dispatch(m) + [Print(SearchingText)];
    assert Run(q2, lengthBytes + body) == RunResult(q, [], tail);
    assert Run(p, Frame(cmdId, payload)) == Prefixed([Print(SearchingText), Print(SearchingText)], RunResult(q, [], tail));
  }

  /** One more remainder byte stored at msg[start + k]: the bytes read so
      far grow by one and the rest of msg is untouched. */
  lemma StoreNext(before: seq<Byte>, start: nat, input: seq<Byte>, k: nat,
                  stored: seq<Byte>, b: Byte, after: seq<Byte>)
    requires start + k < |before| && k < |input| && b == input[k]
    requires stored == before[..start] + input[..k] + before[start + k..]
    requires after == stored[start + k := b]
    ensures after == before[..start] + input[..k + 1] + before[start + k + 1..]
  {
    assert input[..k + 1] == input[..k] + [b];
    var rhs := before[..start] + input[..k + 1] + before[start + k + 1..];
    assert |after| == |rhs|;
    forall j | 0 <= j < |after|
      ensures after[j] == rhs[j]
    {
      if j < start + k {
        assert after[j] == stored[j];
      } else if j > start + k {
        assert after[j] == stored[j] == before[j];
      }
    }
  }

  /** Run unfolded by one step, given the events emitted before it. */
  lemma RunUnfold(p: Parser, input: seq<Byte>, events: seq<Event>)
    requires WellFormed(p)
    ensures var s := Step(p, input);
      && (s.done ==> Prefixed(events, Run(p, input)) == RunResult(p, input, events + s.events))
      && (!s.done ==> Prefixed(events, Run(p, input))
                      == Prefixed(events + s.events, Run(s.parser, input[s.consumed..])))
  {
  }

  /** Framing round trip: a frame arriving while the parser hunts for sync
      is consumed completely and dispatched on its own command id with its
      own payload in place, after which the parser is hunting again with the
      sync register cleared. */
  lemma FrameDispatched(p: Parser, cmdId: int, payload: seq<Byte>)
    requires WellFormed(p) && p.state == FindSync
    requires 0 <= cmdId < 0x1_0000 && |payload| <= MsgSize - HeaderSize
    ensures var r := Run(p, Frame(cmdId, payload));
      && r.rest == []
      && r.parser.state == FindSync && Sync(r.parser.msg) == 0
      && CmdId(r.parser.msg) == cmdId
      && r.parser.msg[HeaderSize..HeaderSize + |payload|] == payload
      && r.events == [Print(SearchingText), Print(SearchingText)] + Dispatch(r.parser.msg) + [Print(SearchingText)]
  {
    var m := FrameStages(p, cmdId, payload);
    var cleared := m[0 := 0][1 := 0];
    assert cleared[2..] == m[2..];
    DispatchIgnoresSync(cleared, m);
    CommandInPlace(m, cleared, cmdId, payload);
  }

  /** The parser's static variables. */
  class FrameParser {
    var state: ParserState
    const msg: array<Byte>
    var pCh: int

    ghost function View(): Parser
      reads this, msg
    {
      Parser(state, msg[..], pCh)
    }

    ghost predicate Valid()
      reads this, msg
    {
      msg.Length == MsgSize && WellFormed(View())
    }

    /** The static initial values: FindSync, a zeroed msg, a null pCh. */
    constructor ()
      ensures Valid() && fresh(msg)
      ensures state == FindSync && msg[..] == seq(MsgSize, _ => 0)
    {
      state := FindSync;
      msg := new Byte[MsgSize](_ => 0);
      pCh := 0;
    }

    /** STATE_FIND_SYNC. */
    method Hunt(ring: RingBuffer) returns (events: seq<Event>, done: bool)
      requires Valid() && ring.Valid() && ring.buffer != msg && state == FindSync
      modifies this`state, msg, ring`idxOut
      ensures ring.Valid()
      ensures var s := HuntStep(old(View()), old(ring.Pending()));
        && View() == s.parser
        && ring.Pending() == old(ring.Pending())[s.consumed..]
        && events == s.events && done == s.done
    {
      events, done := [Print(SearchingText)], false;
      ghost var before := msg[..];
      var got, ch := ring.GetByte();
      if got == 1 {
        var s := ShiftSync(msg[0] + 256 * (msg[1] as int), ch);
        assert s == ShiftSync(Sync(before), ch);
        msg[0] := s % 256;
        msg[1] := s / 256;
        ghost var shifted: seq<Byte> := before[0 := s % 256][1 := s / 256];
        assert msg[..] == shifted;
        if s == SyncPattern {
          state := GetMsgLength;
        }
      } else {
        done := true;
      }
    }

    /** STATE_GET_MSG_LENGTH. */
    method ReadLength(ring: RingBuffer) returns (events: seq<Event>, done: bool)
      requires Valid() && ring.Valid() && ring.buffer != msg && state == GetMsgLength
      modifies this`state, this`pCh, msg, ring`idxOut
      ensures ring.Valid()
      ensures var s := LengthStep(old(View()), old(ring.Pending()));
        && View() == s.parser
        && ring.Pending() == old(ring.Pending())[s.consumed..]
        && events == s.events && done == s.done
    {
      ghost var input := ring.Pending();
      events, done := [], false;
      var n := ring.BytesAvailable();
      if n >= LengthSize {
        pCh := SyncSize;
        var _, b := ring.GetByte();
        msg[pCh] := b;
        pCh := pCh + 1;
        var _, b' := ring.GetByte();
        msg[pCh] := b';
        pCh := pCh + 1;
        assert input[2..] == input[1..][1..];
        if msg[2] + 256 * (msg[3] as int) > MsgSize || msg[2] + 256 * (msg[3] as int) < SyncSize + LengthSize {
          events := [Print(InvalidLengthText)];
          state := FindSync;
        } else {
          state := GetMessageRemainder;
        }
      } else {
        done := true;
      }
    }

    /** STATE_GET_MESSAGE_REMAINDER: `while (i--) Eth_Comms_Get_Byte(pCh++)`. */
    method ReadRemainder(ring: RingBuffer) returns (done: bool)
      requires Valid() && ring.Valid() && ring.buffer != msg && state == GetMessageRemainder
      modifies this`state, this`pCh, msg, ring`idxOut
      ensures ring.Valid()
      ensures var s := RemainderStep(old(View()), old(ring.Pending()));
        && View() == s.parser
        && ring.Pending() == old(ring.Pending())[s.consumed..]
        && s.events == [] && done == s.done
    {
      done := false;
      var i := msg[2] + 256 * (msg[3] as int) - LengthSize - SyncSize;
      var n := ring.BytesAvailable();
      if n >= i {
        CopyFromRing(ring, i);
        state := VerifyCrc;
      } else {
        done := true;
      }
    }

    /** `while (i--) Eth_Comms_Get_Byte(pCh++)`: copy `count` buffered
        bytes into msg from pCh on. */
    method CopyFromRing(ring: RingBuffer, count: nat)
      requires msg.Length == MsgSize && ring.Valid() && ring.buffer != msg
      requires 0 <= pCh && pCh + count <= MsgSize && count <= |ring.Pending()|
      modifies this`pCh, msg, ring`idxOut
      ensures ring.Valid() && pCh == old(pCh) + count
      ensures ring.Pending() == old(ring.Pending())[count..]
      ensures msg[..] == old(msg[..])[..old(pCh)] + old(ring.Pending())[..count] + old(msg[..])[old(pCh) + count..]
    {
      ghost var input := ring.Pending();
      ghost var start := pCh;
      ghost var before := msg[..];
      var i := count;
      while i > 0
        invariant 0 <= i <= count && pCh == start + (count - i)
        invariant ring.Valid() && ring.Pending() == input[count - i..]
        invariant msg[..] == before[..start] + input[..count - i] + before[pCh..]
      {
        ghost var stored := msg[..];
        i := i - 1;
        var _, b := ring.GetByte();
        assert input[count - i - 1..][1..] == input[count - i..];
        ghost var pending := ring.Pending();
        msg[pCh] := b;
        assert ring.Pending() == pending;
        StoreNext(before, start, input, count - i - 1, stored, b, msg[..]);
        pCh := pCh + 1;
      }
    }

    /** One pass of the switch in Eth_Comms_Process_Commands. */
    method StepOnce(ring: RingBuffer) returns (events: seq<Event>, done: bool)
      requires Valid() && ring.Valid() && ring.buffer != msg
      modifies this, msg, ring`idxOut
      ensures Valid() && ring.Valid()
      ensures var s := Step(old(View()), old(ring.Pending()));
        && View() == s.parser
        && ring.Pending() == old(ring.Pending())[s.consumed..]
        && events == s.events
        && done == s.done
    {
      events, done := [], false;
      match state {
        case FindSync =>
          events, done := Hunt(ring);
        case GetMsgLength =>
          events, done := ReadLength(ring);
        case GetMessageRemainder =>
          done := ReadRemainder(ring);
        case VerifyCrc =>
          state := ProcessMsg;
        case ProcessMsg =>
          events := Dispatch(msg[..]);
          msg[0] := 0;
          msg[1] := 0;
          state := FindSync;
      }
    }

    /** Eth_Comms_Process_Commands: run the state machine over the buffered
        bytes until it needs more than the ring holds. */
    method ProcessCommands(ring: RingBuffer) returns (events: seq<Event>)
      requires Valid() && ring.Valid() && ring.buffer != msg
      modifies this, msg, ring`idxOut
      ensures Valid() && ring.Valid()
      ensures var r := Run(old(View()), old(ring.Pending()));
        View() == r.parser && ring.Pending() == r.rest && events == r.events
    {
      ghost var p0, s0 := View(), ring.Pending();
      events := [];
      var done := false;
      while !done
        invariant Valid() && ring.Valid() && ring.buffer != msg
        invariant !done ==> Run(p0, s0) == Prefixed(events, Run(View(), ring.Pending()))
        invariant done ==> Run(p0, s0) == RunResult(View(), ring.Pending(), events)
        decreases !done, |ring.Pending()|, Rank(state)
      {
        ghost var v, s := View(), ring.Pending();
        ghost var before := events;
        var ev;
        ev, done := StepOnce(ring);
        events := events + ev;
        RunUnfold(v, s, before);
      }
    }
  }
}
