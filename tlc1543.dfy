/** Acquisition from the TLC1543 11-channel, 10-bit ADC (tlc1543.c).

    The converter is pipelined: the transfer that commands channel i shifts
    out the result of the conversion commanded by the previous transfer.
    Tlc1543_Init primes the pipeline with channel 0; each pass of the
    Tlc1543_Service loop then commands channels 1, 2, ..., N-1, 0 and stores
    every reply one slot back, so that every slot ends up holding its own
    channel's conversion.  The SPI link itself is not modelled: the converter
    is an object whose Transfer stands for one 2-byte spiXfer. */
module Tlc1543 {

  /** NBR_ADC_CHANNELS: the eleven analog inputs of the TLC1543. */
  const NbrAdcChannels: nat := 11

  type Byte = x: int | 0 <= x < 256

  /** The 10-bit sample in a reply: `((b0 << 8) + b1) >> 6`, computed in the
      uint16 `result` (the sum is at most 0xFFFF, so it never wraps). */
  function Decode(b0: Byte, b1: Byte): (r: int)
    ensures 0 <= r < 1024
  {
    (b0 * 256 + b1) / 64
  }

  /** How the converter shifts out a 10-bit result: left-justified in the
      16 clocks of the transfer, most significant bit first, so the low six
      bits of the second byte are zero. */
  function Encode(code: int): (Byte, Byte)
    requires 0 <= code < 1024
  {
    (code / 4, (code % 4) * 64)
  }

  /** Decoding undoes the converter's left-justification. */
  lemma DecodeEncode(code: int)
    requires 0 <= code < 1024
    ensures Decode(Encode(code).0, Encode(code).1) == code
  {
    var q, m := code / 4, code % 4;
    assert code == 4 * q + m;
    assert q * 256 + m * 64 == 64 * code;
  }

  /** The bytes of a uint16_t array as the little-endian host lays them
      out: element k is byte 2k (low) and byte 2k + 1 (high). */
  function U16Bytes(a: seq<int>): (r: seq<Byte>)
    requires forall k :: 0 <= k < |a| ==> 0 <= a[k] < 0x1_0000
    ensures |r| == 2 * |a|
  {
    seq(2 * |a|, k requires 0 <= k < 2 * |a| => if k % 2 == 0 then a[k / 2] % 256 else a[k / 2] / 256)
  }

  /** A byte image read back as uint16_t elements, as the readers'
      `memcpy` into `uint16_t local_adc_results[11]` does. */
  function U16Values(b: seq<Byte>): (r: seq<int>)
    ensures |r| == |b| / 2
    ensures forall k :: 0 <= k < |r| ==> 0 <= r[k] < 0x1_0000
  {
    seq(|b| / 2, k requires 0 <= k < |b| / 2 => (b[2 * k] as int) + 256 * (b[2 * k + 1] as int))
  }

  /** Element c of an `unsigned int` array (32 bits, little-endian) in a
      byte image. */
  function UIntAt(b: seq<Byte>, c: nat): int
    requires 4 * c + 4 <= |b|
  {
    (b[4 * c] as int) + 256 * (b[4 * c + 1] as int) + 0x1_0000 * (b[4 * c + 2] as int) + 0x100_0000 * (b[4 * c + 3] as int)
  }

  /** Reading back the bytes of a uint16_t array yields that array: a
      copy of `sizeof(channel_adc_result)` bytes into a uint16_t[11] hands
      every reader exactly the slots. */
  lemma ReadersSeeSlots(a: seq<int>)
    requires forall k :: 0 <= k < |a| ==> 0 <= a[k] < 0x1_0000
    ensures U16Values(U16Bytes(a)) == a
  {
    var b := U16Bytes(a);
    forall k | 0 <= k < |a| ensures U16Values(b)[k] == a[k] {
      assert (2 * k) % 2 == 0 && (2 * k) / 2 == k;
      assert (2 * k + 1) % 2 == 1 && (2 * k + 1) / 2 == k;
      assert b[2 * k] == a[k] % 256 && b[2 * k + 1] == a[k] / 256;
    }
  }

  /** The bytes the publishing `memcpy` reads, as written: it copies
      `sizeof(p_shared_data->adc_results)`, the 44 bytes of an
      `unsigned int[11]`, starting at the 22-byte `uint16_t
      channel_adc_result[11]`; `beyond` stands for the 22 bytes of the
      stack that follow the local array. */
  function PublishedAsWritten(slots: seq<int>, beyond: seq<Byte>): seq<Byte>
    requires |slots| == NbrAdcChannels && |beyond| == 2 * NbrAdcChannels
    requires forall k :: 0 <= k < |slots| ==> 0 <= slots[k] < 0x1_0000
  {
    U16Bytes(slots) + beyond
  }

  /** As written, the copy is twice the size of the local array: its
      second half is whatever follows channel_adc_result on the stack, and
      element 0 of `adc_results` as declared packs slots 0 and 1.  Only the
      readers' view of the first 22 bytes is the slots. */
  lemma PublishOverReads(slots: seq<int>, beyond: seq<Byte>)
    requires |slots| == NbrAdcChannels && |beyond| == 2 * NbrAdcChannels
    requires forall k :: 0 <= k < |slots| ==> 0 <= slots[k] < 0x1_0000
    ensures var image := PublishedAsWritten(slots, beyond);
      && |image| == 4 * NbrAdcChannels
      && image[2 * NbrAdcChannels..] == beyond
      && UIntAt(image, 0) == slots[0] + 0x1_0000 * slots[1]
      && U16Values(image[..2 * NbrAdcChannels]) == slots
  {
    var image := PublishedAsWritten(slots, beyond);
    var b := U16Bytes(slots);
    assert image[..2 * NbrAdcChannels] == b;
    assert b[0] == slots[0] % 256 && b[1] == slots[0] / 256;
    assert b[2] == slots[1] % 256 && b[3] == slots[1] / 256;
    ReadersSeeSlots(slots);
  }

  /** The two command bytes for channel c: `(c << 4, 0)`, the address in the
      upper nibble of the first byte (held in a uint8). */
  function Command(channel: nat): (Byte, Byte)
    requires channel < 16
  {
    ((channel * 16) % 256, 0)
  }

  /** The channel address the converter reads from a command byte. */
  function Address(b0: Byte): nat
  {
    b0 / 16
  }

  /** The converter reads back the channel that was commanded. */
  lemma AddressOfCommand(channel: nat)
    requires channel < 16
    ensures Address(Command(channel).0) == channel
  {
  }

  /** A conversion held in the converter's pipeline: which channel it came
      from and its 10-bit code. */
  datatype Conversion = Conversion(channel: nat, code: int)

  ghost predicate ValidCodes(inputs: seq<int>)
  {
    |inputs| == NbrAdcChannels && forall c :: 0 <= c < |inputs| ==> 0 <= inputs[c] < 1024
  }

  /** The converter as a pipeline: it holds the result of the conversion the
      previous transfer commanded. */
  class Converter {
    var held: Conversion

    ghost predicate Valid()
      reads this
    {
      held.channel < NbrAdcChannels && 0 <= held.code < 1024
    }

    constructor (initial: Conversion)
      requires initial.channel < NbrAdcChannels && 0 <= initial.code < 1024
      ensures Valid() && held == initial
    {
      held := initial;
    }

    /** One 2-byte transfer: shift out the held result and start converting
        the addressed channel, whose input currently converts to
        inputs[address]. */
    method Transfer(b0: Byte, b1: Byte, inputs: seq<int>) returns (r0: Byte, r1: Byte)
      requires Valid() && ValidCodes(inputs) && Address(b0) < NbrAdcChannels
      modifies this
      ensures Valid()
      ensures (r0, r1) == Encode(old(held).code)
      ensures held == Conversion(Address(b0), inputs[Address(b0)])
    {
      r0, r1 := Encode(held.code).0, Encode(held.code).1;
      held := Conversion(Address(b0), inputs[Address(b0)]);
    }
  }

  /** The driver: the converter it talks to, the loop's local result array,
      the shared adc_results and adc_data_available, and (ghost) which
      conversion each slot of the local array was filled from. */
  class Acquisition {
    const adc: Converter
    const channelAdcResult: array<int>
    var adcResults: seq<int>
    var adcDataAvailable: bool
    ghost var slotSource: seq<Conversion>

    /** Between two service passes the pipeline holds a conversion of
        channel 0. */
    ghost predicate Valid()
      reads this, adc
    {
      && adc.Valid()
      && adc.held.channel == 0
      && channelAdcResult.Length == NbrAdcChannels
      && |adcResults| == NbrAdcChannels
      && |slotSource| == NbrAdcChannels
    }

    /** Tlc1543_Init: command a conversion of channel 0 (the reply of this
        write is discarded) so that the first service pass has valid data.
        The shared data starts zeroed. */
    constructor (converter: Converter, inputs: seq<int>)
      requires converter.Valid() && ValidCodes(inputs)
      modifies converter
      ensures Valid() && adc == converter && fresh(channelAdcResult)
      ensures adc.held == Conversion(0, inputs[0])
      ensures adcResults == seq(NbrAdcChannels, _ => 0) && !adcDataAvailable
    {
      adc := converter;
      channelAdcResult := new int[NbrAdcChannels];
      adcResults := seq(NbrAdcChannels, _ => 0);
      adcDataAvailable := false;
      slotSource := seq(NbrAdcChannels, c => Conversion(0, 0));
      var b0, b1 := Command(0).0, Command(0).1;
      AddressOfCommand(0);
      var _, _ := converter.Transfer(b0, b1, inputs);
    }

    /** One pass of the Tlc1543_Service loop.  `inputs[c]` is the code that
        channel c converts to when it is commanded during this pass.  Slot c
        ends up holding a conversion of channel c: slot 0 the one commanded at
        the end of the previous pass (or by Init), every other slot the one
        commanded during this pass.  The ghost result instruments the array
        writes: the index of a slot is appended to it right next to each
        write `channelAdcResult[i - 1] := …`, so it lists the slots in the
        order they are written, and its ensures says each is written exactly
        once, in ascending order. */
    method Service(inputs: seq<int>) returns (ghost written: seq<nat>)
      requires Valid() && ValidCodes(inputs)
      modifies this, adc, channelAdcResult
      ensures Valid()
      ensures adc.held == Conversion(0, inputs[0])
      ensures forall c :: 0 <= c < NbrAdcChannels ==>
        slotSource[c].channel == c && adcResults[c] == slotSource[c].code
      ensures slotSource[0] == old(adc.held)
      ensures forall c :: 1 <= c < NbrAdcChannels ==> slotSource[c] == Conversion(c, inputs[c])
      ensures adcDataAvailable
      ensures written == seq(NbrAdcChannels, k => k)
    {
      written := [];
      var i: nat := 1;
      while i < NbrAdcChannels
        invariant 1 <= i <= NbrAdcChannels
        invariant adc.Valid()
        invariant adc.held == if i == 1 then old(adc.held) else Conversion(i - 1, inputs[i - 1])
        invariant |slotSource| == NbrAdcChannels
        invariant written == seq(i - 1, k => k)
        invariant forall j :: 0 <= j < i - 1 ==>
          slotSource[j].channel == j && channelAdcResult[j] == slotSource[j].code
        invariant slotSource[0] == old(adc.held) || i == 1
        invariant forall j :: 1 <= j < i - 1 ==> slotSource[j] == Conversion(j, inputs[j])
      {
        var b0, b1 := Command(i).0, Command(i).1;
        AddressOfCommand(i);
        ghost var prev := adc.held;
        var r0, r1 := adc.Transfer(b0, b1, inputs);
        DecodeEncode(prev.code);
        slotSource := slotSource[i - 1 := prev];
        channelAdcResult[i - 1] := Decode(r0, r1);
        written := written + [i - 1];
        i := i + 1;
      }
      var b0, b1 := Command(0).0, Command(0).1;
      AddressOfCommand(0);
      ghost var last := adc.held;
      var r0, r1 := adc.Transfer(b0, b1, inputs);
      DecodeEncode(last.code);
      slotSource := slotSource[i - 1 := last];
      channelAdcResult[i - 1] := Decode(r0, r1);
      written := written + [i - 1];
      adcResults := channelAdcResult[..];
      adcDataAvailable := true;
    }
  }
}
