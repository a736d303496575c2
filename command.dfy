/** The SSD1322 command set: each operation's byte encoding (opcode followed by its
    parameters) and the two-phase transmission of an encoded command. */
module Commands {
  import opened DisplayInterface
  import opened Wrappers

  /** The subset of controller commands the driver uses. */
  datatype Command =
    | Unlock
    | SetColumnAddress(a: bv8, b: bv8)
    | SetRowAddress(a: bv8, b: bv8)
    | SetDisplayClock(a: bv8)
    | SetMuxRatio(a: bv8)
    | SetDisplayOffset(a: bv8)
    | SetStartLine(a: bv8)
    | SetRemapFormat(a: bv8, b: bv8)
    | SetGPIO(a: bv8)
    | SetFunctionSelection(a: bv8)
    | SetDisplayEnhancementA(a: bv8, b: bv8)
    | SetContrastCurrent(a: bv8)
    | SetMasterCurrent(a: bv8)
    | SetLinearGrayScaleTable
    | SetPhaseLength(a: bv8)
    | SetDisplayEnhancementB(a: bv8, b: bv8)
    | SetPrechargeVoltage(a: bv8)
    | SetPrechargePeriod(a: bv8)
    | SetVCOMH(a: bv8)
    | NormalDisplayMode
    | AllPixelsOn
    | AllPixelsOff
    | ExitPartialDisplay
    | WriteRAM
    | DisplayOn
    | DisplayOff

  /** The controller's byte table: the opcode, then the parameters in declared order. */
  function Encode(c: Command): (r: seq<bv8>)
    ensures 1 <= |r| <= 3
  {
    match c
    case Unlock => [0xFD, 0x12]
    case SetColumnAddress(a, b) => [0x15, a, b]
    case SetRowAddress(a, b) => [0x75, a, b]
    case SetDisplayClock(a) => [0xB3, a]
    case SetMuxRatio(a) => [0xCA, a]
    case SetDisplayOffset(a) => [0xA2, a]
    case SetStartLine(a) => [0xA1, a]
    case SetRemapFormat(a, b) => [0xA0, a, b]
    case SetGPIO(a) => [0xB5, a]
    case SetFunctionSelection(a) => [0xAB, a]
    case SetDisplayEnhancementA(a, b) => [0xB4, a, b]
    case SetContrastCurrent(a) => [0xC1, a]
    case SetMasterCurrent(a) => [0xC7, a]
    case SetLinearGrayScaleTable => [0xB9]
    case SetPhaseLength(a) => [0xB1, a]
    case SetDisplayEnhancementB(a, b) => [0xD1, a, b]
    case SetPrechargeVoltage(a) => [0xBB, a]
    case SetPrechargePeriod(a) => [0xB6, a]
    case SetVCOMH(a) => [0xBE, a]
    case NormalDisplayMode => [0xA6]
    case AllPixelsOff => [0xA4]
    case AllPixelsOn => [0xA5]
    case ExitPartialDisplay => [0xA9]
    case WriteRAM => [0x5C]
    case DisplayOn => [0xAF]
    case DisplayOff => [0xAE]
  }

  /** The datasheet's opcode table: how many parameter bytes follow each opcode
      (None for a byte that is not one of the 26 opcodes). */
  function ParamCount(op: bv8): Option<nat> {
    if op in {0xB9, 0xA6, 0xA4, 0xA5, 0xA9, 0x5C, 0xAF, 0xAE} then Some(0)
    else if op in {0xFD, 0xB3, 0xCA, 0xA2, 0xA1, 0xB5, 0xAB, 0xC1, 0xC7, 0xB1, 0xBB, 0xB6, 0xBE} then Some(1)
    else if op in {0x15, 0x75, 0xA0, 0xB4, 0xD1} then Some(2)
    else None
  }

  /** Reads a command back from its encoding; None for any byte string that is not one. */
  function Decode(bytes: seq<bv8>): Option<Command> {
    if |bytes| == 1 then
      var op := bytes[0];
      if op == 0xB9 then Some(SetLinearGrayScaleTable)
      else if op == 0xA6 then Some(NormalDisplayMode)
      else if op == 0xA4 then Some(AllPixelsOff)
      else if op == 0xA5 then Some(AllPixelsOn)
      else if op == 0xA9 then Some(ExitPartialDisplay)
      else if op == 0x5C then Some(WriteRAM)
      else if op == 0xAF then Some(DisplayOn)
      else if op == 0xAE then Some(DisplayOff)
      else None
    else if |bytes| == 2 then
      var op, a := bytes[0], bytes[1];
      if op == 0xFD then (if a == 0x12 then Some(Unlock) else None)
      else if op == 0xB3 then Some(SetDisplayClock(a))
      else if op == 0xCA then Some(SetMuxRatio(a))
      else if op == 0xA2 then Some(SetDisplayOffset(a))
      else if op == 0xA1 then Some(SetStartLine(a))
      else if op == 0xB5 then Some(SetGPIO(a))
      else if op == 0xAB then Some(SetFunctionSelection(a))
      else if op == 0xC1 then Some(SetContrastCurrent(a))
      else if op == 0xC7 then Some(SetMasterCurrent(a))
      else if op == 0xB1 then Some(SetPhaseLength(a))
      else if op == 0xBB then Some(SetPrechargeVoltage(a))
      else if op == 0xB6 then Some(SetPrechargePeriod(a))
      else if op == 0xBE then Some(SetVCOMH(a))
      else None
    else if |bytes| == 3 then
      var op, a, b := bytes[0], bytes[1], bytes[2];
      if op == 0x15 then Some(SetColumnAddress(a, b))
      else if op == 0x75 then Some(SetRowAddress(a, b))
      else if op == 0xA0 then Some(SetRemapFormat(a, b))
      else if op == 0xB4 then Some(SetDisplayEnhancementA(a, b))
      else if op == 0xD1 then Some(SetDisplayEnhancementB(a, b))
      else None
    else None
  }

  /** Every encoding agrees with the opcode table: its first byte is an opcode and the
      number of bytes after it is that opcode's parameter count. */
  lemma EncodeMatchesTable(c: Command)
    ensures ParamCount(Encode(c)[0]) == Some(|Encode(c)| - 1)
  {
  }

  /** Decoding undoes encoding. */
  lemma DecodeEncode(c: Command)
    ensures Decode(Encode(c)) == Some(c)
  {
  }

  /** Decoding accepts only encodings: whatever it reads back encodes to the same bytes. */
  lemma EncodeDecode(bytes: seq<bv8>)
    requires Decode(bytes).Some?
    ensures Encode(Decode(bytes).value) == bytes
  {
    if |bytes| == 2 {
      assert bytes == [bytes[0], bytes[1]];
    } else if |bytes| == 3 {
      assert bytes == [bytes[0], bytes[1], bytes[2]];
    } else {
      assert bytes == [bytes[0]];
    }
  }

  /** The 26 opcodes are distinct, so the byte string determines the command. */
  lemma EncodeInjective(c1: Command, c2: Command)
    requires Encode(c1) == Encode(c2)
    ensures c1 == c2
  {
    DecodeEncode(c1);
    DecodeEncode(c2);
  }

  /** The transfers `send` issues: the opcode alone as the command phase, then the
      parameters, if any, as one data-phase transfer. */
  function Transfers(c: Command): (r: seq<Event>)
    ensures 1 <= |r| <= 2
    ensures r[0].Cmd? && |r[0].bytes| == 1
    ensures |r| == 2 ==> r[1].Data?
  {
    var data := Encode(c);
    [Cmd(data[0..1])] + if |data| > 1 then [Data(data[1..])] else []
  }

  /** Exactly one command-phase transfer carrying only the opcode comes first; a
      data-phase transfer of the parameters follows if and only if there are any. */
  lemma TransfersShape(c: Command)
    ensures 1 <= |Transfers(c)| <= 2
    ensures Transfers(c)[0] == Cmd([Encode(c)[0]])
    ensures |Transfers(c)| == 2 <==> |Encode(c)| > 1
    ensures |Transfers(c)| == 2 ==> Transfers(c)[1] == Data(Encode(c)[1..])
    ensures [Encode(c)[0]] + (if |Transfers(c)| == 2 then Transfers(c)[1].bytes else []) == Encode(c)
  {
  }

  /** The eight parameterless commands, and only they, produce no data phase. */
  lemma NoDataPhaseIff(c: Command)
    ensures |Transfers(c)| == 1 <==>
      c in {SetLinearGrayScaleTable, NormalDisplayMode, AllPixelsOff, AllPixelsOn,
            ExitPartialDisplay, WriteRAM, DisplayOn, DisplayOff}
  {
  }

  /** `Unlock` is opcode 0xFD with its fixed parameter 0x12. */
  lemma UnlockTransfers()
    ensures Transfers(Unlock) == [Cmd([0xFD]), Data([0x12])]
  {
    var data := Encode(Unlock);
    assert data[0..1] == [0xFD];
    assert data[1..] == [0x12];
  }

  /** `Command::send`: both transfers are issued in order and their answers are
      discarded, so the result is always Ok. */
  method Send(c: Command, iface: Interface) returns (r: Outcome)
    modifies iface
    ensures iface.trace == old(iface.trace) + Transfers(c)
    ensures r == Ok
  {
    var data := Encode(c);
    var ignored := iface.SendCommands(data[0..1]);
    if |data| > 1 {
      ignored := iface.SendData(data[1..|data|]);
      assert data[1..|data|] == data[1..];
      assert iface.trace == old(iface.trace) + ([Cmd(data[0..1])] + [Data(data[1..])]);
    }
    r := Ok;
  }

  /** The transfers of a sequence of commands sent one after the other. */
  function Transmit(cs: seq<Command>): seq<Event> {
    if cs == [] then [] else Transfers(cs[0]) + Transmit(cs[1..])
  }

  /** Reads a command-only trace back into the commands that produced it, using the
      opcode table to tell whether a data phase belongs to the command before it. */
  function DecodeTrace(evs: seq<Event>): Option<seq<Command>>
    decreases |evs|
  {
    if evs == [] then Some([])
    else if !evs[0].Cmd? || |evs[0].bytes| != 1 then None
    else
      match ParamCount(evs[0].bytes[0])
      case None => None
      case Some(n) =>
        var used := if n == 0 then 1 else 2;
        if |evs| < used || (n > 0 && !evs[1].Data?) then None
        else
          var bytes := if n == 0 then evs[0].bytes else evs[0].bytes + evs[1].bytes;
          match Decode(bytes)
          case None => None
          case Some(c) =>
            match DecodeTrace(evs[used..])
            case None => None
            case Some(rest) => Some([c] + rest)
  }

  /** Concatenation is associative. */
  lemma Associative<T>(a: seq<T>, b: seq<T>, c: seq<T>)
    ensures (a + b) + c == a + (b + c)
  {
  }

  /** Sending one command more in front puts its transfers in front. */
  lemma TransmitCons(c: Command, cs: seq<Command>)
    ensures Transmit([c] + cs) == Transfers(c) + Transmit(cs)
  {
    assert ([c] + cs)[0] == c && ([c] + cs)[1..] == cs;
  }

  lemma {:induction false} TransmitAppend(a: seq<Command>, b: seq<Command>)
    ensures Transmit(a + b) == Transmit(a) + Transmit(b)
  {
    if a == [] {
      assert a + b == b;
    } else {
      var ab := a + b;
      assert ab[0] == a[0] && ab[1..] == a[1..] + b;
      TransmitAppend(a[1..], b);
      Associative(Transfers(a[0]), Transmit(a[1..]), Transmit(b));
    }
  }

  /** Sending the next command of `cs` extends the transmission of its first i. */
  lemma TransmitSnoc(cs: seq<Command>, i: nat)
    requires i < |cs|
    ensures Transmit(cs[..i + 1]) == Transmit(cs[..i]) + Transfers(cs[i])
  {
    assert cs[..i + 1] == cs[..i] + [cs[i]];
    TransmitAppend(cs[..i], [cs[i]]);
    TransmitCons(cs[i], []);
    assert [cs[i]] + [] == [cs[i]];
  }

  /** Decoding one command's transfers at the head of a trace. */
  lemma DecodeTraceCons(c: Command, rest: seq<Event>)
    requires DecodeTrace(rest).Some?
    ensures DecodeTrace(Transfers(c) + rest) == Some([c] + DecodeTrace(rest).value)
  {
    var evs := Transfers(c) + rest;
    var t := Transfers(c);
    TransfersShape(c);
    EncodeMatchesTable(c);
    DecodeEncode(c);
    assert evs[0] == t[0];
    assert |t| == 2 ==> evs[1] == t[1];
    assert evs[|t|..] == rest;
  }

  /** A command trace determines the commands sent: DecodeTrace undoes Transmit. */
  lemma {:induction false} DecodeTransmit(cs: seq<Command>)
    ensures DecodeTrace(Transmit(cs)) == Some(cs)
  {
    if cs != [] {
      DecodeTransmit(cs[1..]);
      DecodeTraceCons(cs[0], Transmit(cs[1..]));
      assert [cs[0]] + cs[1..] == cs;
    }
  }

  /** The head of a trace that decodes: the first command and the one or two transfers
      it was read from. */
  lemma {:induction false} DecodeTraceHead(evs: seq<Event>) returns (c: Command, used: nat)
    requires evs != [] && DecodeTrace(evs).Some?
    ensures 1 <= used <= |evs|
    ensures Transfers(c) == evs[..used]
    ensures DecodeTrace(evs[used..]).Some?
    ensures DecodeTrace(evs).value == [c] + DecodeTrace(evs[used..]).value
  {
    var n := ParamCount(evs[0].bytes[0]).value;
    used := if n == 0 then 1 else 2;
    var bytes := if n == 0 then evs[0].bytes else evs[0].bytes + evs[1].bytes;
    c := Decode(bytes).value;
    EncodeDecode(bytes);
    EncodeMatchesTable(c);
    assert bytes[0] == evs[0].bytes[0];
    assert |bytes| == n + 1;
    assert bytes[0..1] == evs[0].bytes;
    if n == 0 {
      assert evs[..1] == [Cmd(bytes[0..1])];
    } else {
      assert bytes[1..] == evs[1].bytes;
      assert evs[..2] == [Cmd(bytes[0..1]), Data(bytes[1..])];
    }
  }

  /** ... and only command traces decode: a trace that decodes is the transmission of
      what it decodes to. */
  lemma {:induction false} TransmitDecode(evs: seq<Event>)
    requires DecodeTrace(evs).Some?
    ensures Transmit(DecodeTrace(evs).value) == evs
    decreases |evs|
  {
    if evs != [] {
      var c, used := DecodeTraceHead(evs);
      TransmitDecode(evs[used..]);
      TransmitCons(c, DecodeTrace(evs[used..]).value);
      assert evs == evs[..used] + evs[used..];
    }
  }
}
