# Smoker controller cores in Dafny

A Dafny model of the sequential cores of a propane-smoker controller for the
Raspberry Pi. The program itself is mostly threads, sockets, named pipes,
ncurses and file logging. Inside that plumbing are seven small cores, one
Dafny file per C file:

- `monitor.dfy` (module `FlameMonitor`): the flame-loss monitor. It is a
  debounced three-state machine (waiting, detected, lost) run every 100 ms
  over the flame temperature, and it sends a notification on each
  transition.
- `servo.dfy` (module `Servo`): one pass of the servo loop. It is a
  bang-bang / 20-count stepper on `250 - cabinet temperature`, with a
  deadband of 1 and a clamp to the valve's travel.
- `tlc1543.dfy` (module `Tlc1543`): acquisition from the pipelined 11-channel
  TLC1543 ADC. The converter is modelled as a pipeline object.
- `pid.dfy` (module `Pid`): `Pid_Reset` and `Pid_Update` on the fields of
  `pid_type`, with the anti-windup clamp.
- `eth_comms.dfy` (module `EthComms`): the 1024-byte receive ring and the
  framing state machine that hunts for the 0xACED sync word, checks the
  length and reads the rest of the message.
- `cmd_line.dfy` (module `CmdLine`): the console line editor and the
  case-insensitive prefix lookup of console commands.
- `file_fifo.dfy` (module `FileFifo`): the named-pipe command interface. It
  covers strtok tokenizing, case-insensitive lookup, the response codes, the
  output and error buffers with their pending byte counts, the list builders,
  and the line read.

Two helper modules support them. `wrappers.dfy` holds `Option`.
`cstrings.dfy` holds NUL-terminated strings and ASCII case folding.

The modelling follows the C code:

- Code that mutates state becomes a class whose methods are tied, in their
  `ensures`, to pure step functions. The lemmas are stated about those
  functions.
- C `float`/`double` values are `real`, with no rounding and no NaN.
- Bytes are the subset type `0 <= x < 256`.
- Unsigned wrap-around is written out where it matters, namely the sync
  shift register and the ring indices.

Host assumption: the host is little-endian. The Ethernet header fields
and the bytes of the converter's `uint16_t` slots are laid out low byte
first.

Several behaviours of the code are easy to assume otherwise; the model
follows the code:

- `Pid_Update` with `dt == 0` leaves the derivative unset. It is not held at
  zero.
- Gains and setpoints are not validated anywhere in the code that is
  modelled here.
- The flame debounce is 100 ticks (10 s), not 10.
- An out-of-range monitor state is handled like "fire lost". It is not fatal.
- `Monitor_Light_Fire` does not publish the state.
- The actuator is the fixed-target stepper of `servo.c`. It has no enable
  timer, no re-arm and no PID input.

## Model

| member | source | states |
|---|---|---|
| FlameMonitor.Step | monitor.c:107-150 | a tick that starts with the timer below the 3000-tick repeat interval leaves it below that interval |
| FlameMonitor.Monitor.constructor | monitor.c:34 | the state starts as WaitingForFire with the debounce timer at 0 |
| FlameMonitor.Monitor.Init | monitor.c:49-57 | publishes the current state and sends the single "Application is starting" notice |
| FlameMonitor.Monitor.LightFire | monitor.c:42-46 | forces WaitingForFire and sends one lighting notice; the timer is left as it is |
| FlameMonitor.Monitor.Tick | monitor.c:69-155 | the new state, timer and notices are those of Step, and the published state equals the internal one |
| FlameMonitor.WaitingCounts | monitor.c:109-118 | while hot ticks have not completed the debounce, the monitor stays waiting, counts them and is silent |
| FlameMonitor.WaitingDetects | monitor.c:109-118 | the hot tick that completes the debounce moves to FireDetected with exactly one notice and resets the timer |
| FlameMonitor.FireDetectedAfterDebounce | monitor.c:71-73 | from a fresh start, 100 ticks above 250 give FireDetected with one "Fire detected" notice, and 99 do not |
| FlameMonitor.DetectedLoses | monitor.c:125-139 | 100 consecutive ticks below 150 move FireDetected to FireLost with exactly one warning |
| FlameMonitor.DebounceReset | monitor.c:119-122 | a tick at or below 250 while waiting, or at or above 150 while detected, resets the timer and changes nothing else |
| FlameMonitor.HysteresisBand | monitor.c:109-139 | from WaitingForFire or FireDetected, temperatures within [150, 250] never change the state or notify |
| FlameMonitor.StaysWaitingWhenCold | monitor.c:109-123 | a flame never above 250 never leaves WaitingForFire and never notifies |
| FlameMonitor.LostRepeats | monitor.c:141-149 | FireLost (or any other state value) never leaves by itself; over n ticks it sends (timer + n) / 3000 warnings and ends with timer (timer + n) % 3000 |
| FlameMonitor.LeftoverTimerShortensDebounce | monitor.c:81 | because LightFire keeps the static timer, a leftover count of 99 makes a single hot tick detect the fire |
| FlameMonitor.LightThenHeat | monitor.c:42-57 | start, light and 100 hot ticks end in FireDetected, published, with exactly the three notices in order |
| Servo.Clamp | servo.c:91-94 | the result lies in [600, 1200] and a position already inside is kept |
| Servo.ServoController.constructor | servo.c:28-31 | the loop starts at the middle position 900 with the drive disabled |
| Servo.ServoController.Step | servo.c:41-105 | the new position is the clamped decision on 250 - temperature, the drive is 0 when disabled or else the position, and the published position equals the local one |
| Servo.EnableNotCarried | servo.c:43-88 | every branch assigns the flag, so its old value never affects a pass |
| Servo.EnabledIffMoved | servo.c:43-88 | within the travel, the drive is enabled exactly on the passes that change the position |
| Servo.MovesTowardTarget | servo.c:43-94 | error > 50 opens fully, error < -50 goes to 620, inside the deadband nothing moves and the drive is off, and otherwise the valve steps 20 towards the target, floored at 620 |
| Servo.ReachableStep | servo.c:67-94 | multiples of 20 in [620, 1200] are closed under a pass, and the final clamp then never changes the position |
| Servo.InitialReachable | servo.c:28 | the initial 900 is such a position |
| Servo.DriveWithinTravel | servo.c:98-101 | the pin-18 command is 0 or a position inside [600, 1200] |
| Servo.RunStaysReachable | servo.c:33-106 | over any sequence of temperatures, a run from 900 stays on a 20-count step within [620, 1200] |
| Tlc1543.Decode | tlc1543.c:77-78 | the decoded sample always lies in [0, 1023] |
| Tlc1543.DecodeEncode | tlc1543.c:93-94 | decoding undoes the converter's left-justified output of a 10-bit code |
| Tlc1543.AddressOfCommand | tlc1543.c:67-68 | the command (i << 4, 0) addresses channel i |
| Tlc1543.Converter.Transfer | tlc1543.c:71 | one transfer returns the conversion held from the previous command and starts converting the addressed channel |
| Tlc1543.Acquisition.constructor | tlc1543.c:35-46 | Tlc1543_Init primes the pipeline with a conversion of channel 0 |
| Tlc1543.ReadersSeeSlots | thermistor.c:65-67 | reading back the bytes of a uint16_t array as uint16_t elements yields that array, so a copy of the 22 bytes of `channel_adc_result` hands every reader exactly the slots |
| Tlc1543.PublishOverReads | tlc1543.c:99-101 | as written, the copy is 44 bytes: its second half is whatever follows `channel_adc_result` on the stack, element 0 of the declared `unsigned int` array packs slots 0 and 1, and only the readers' view of the first 22 bytes is the slots |
| Tlc1543.Acquisition.Service | tlc1543.c:60-103 | after the commands 1..10 and then 0, every slot holds its own channel's conversion, each slot is written exactly once and in order, the shared results, as the readers read them, are the array, data is flagged available, and channel 0 is primed for the next pass |
| Pid.ClampBounds | pid.c:18-22 | with a non-negative guard the clamped integral lies in [-guard, guard], and a value inside is unchanged |
| Pid.ClampNegativeGuard | pid.c:19-22 | with a negative guard the clamp as written always yields one of the two bounds |
| Pid.IntegralStaysBounded | pid.c:10-22 | over any non-empty run of updates (dt = 0 included) the integral stays within the guard |
| Pid.PidController.constructor | pid.h:1-10 | a controller whose fields hold the given gains and guard, with zero errors and output |
| Pid.PidController.Reset | pid.c:3-8 | zeroes the previous and the integrated error only |
| Pid.PidController.Update | pid.c:10-40 | the integral grows by error * dt and is clamped; the output is Kp * error + Ki * integral + Kd * (error - prev) / dt when dt != 0; prev_error becomes the error; gains and guard are untouched |
| EthComms.SlotAdd | eth_comms.c:270 | advancing a slot by a and then by j, wrapping at 1024, is advancing it by a + j |
| EthComms.RingSplit | eth_comms.c:262-275 | reading a + b bytes from a slot reads a bytes and then b bytes from where the first read stopped |
| EthComms.RingWrite | eth_comms.c:235-240 | storing bytes from idx_in onwards keeps the 1024-byte buffer size |
| EthComms.RingWriteAt | eth_comms.c:237-239 | within one lap, received byte j lands at slot idx_in + j |
| EthComms.RingWriteElsewhere | eth_comms.c:235-240 | slots the data does not reach keep their byte |
| EthComms.UnreadKept | eth_comms.c:235-240 | unread bytes survive a receive that does not fill the ring |
| EthComms.ReceivedPlaced | eth_comms.c:235-240 | received bytes land right after the unread ones |
| EthComms.AvailableGrows | eth_comms.c:250-253 | receiving k bytes raises the available count by k, short of a full lap |
| EthComms.ReceiveAppends | eth_comms.c:231-275 | while fewer than 1024 bytes are outstanding, received bytes are read back after the unread ones, in arrival order |
| EthComms.RingAppend | eth_comms.c:266-270 | a ring that keeps its first c bytes and holds the data after them reads back as those bytes followed by the data |
| EthComms.FullRingLooksEmpty | eth_comms.c:250-253 | receiving enough to make 1024 outstanding makes idx_in equal idx_out, so the ring reads as empty |
| EthComms.RingBuffer.constructor | eth_comms.c:54-55 | both indices start at 0 with nothing pending |
| EthComms.RingBuffer.Receive | eth_comms.c:231-241 | stores each byte at idx_in, advances idx_in by the count mod 1024 and leaves idx_out alone; without overflow the pending bytes are the old ones followed by the data |
| EthComms.RingBuffer.BytesAvailable | eth_comms.c:246-256 | returns (in - out) mod 1024, in [0, 1023], and 0 exactly when in == out |
| EthComms.RingBuffer.GetByte | eth_comms.c:262-275 | returns 0 and changes nothing iff the ring is empty; otherwise returns 1 with buffer[out], advances out mod 1024 and drops that byte from the pending ones |
| EthComms.ShiftSyncBytes | eth_comms.c:154 | the sync register shifts the previous low byte up and puts the new byte below it |
| EthComms.LengthStepAsWritten | eth_comms.c:163-180 | as written, a read length field is refused with "Invalid length" exactly when it exceeds 64; any other length goes to the remainder state |
| EthComms.LengthStepAgrees | eth_comms.c:170 | on every length field of at least 4 the step as written and the corrected step coincide |
| EthComms.DrainAsWritten | eth_comms.c:262-275 | `while (i--) Eth_Comms_Get_Byte(pCh++)` over n passes stores min(n, pending) bytes, since Get_Byte stores only while a byte is pending |
| EthComms.DrainStoresAt | eth_comms.c:186-187 | pass k, while bytes remain, stores pending byte k at pCh + k |
| EthComms.ShortLengthOverrunsMsg | eth_comms.c:170-187 | as written, a length field of 2 passes the check with a negative remainder count; with more than 60 bytes pending the drain loop stores every one of them and byte 60 lands at offset 64, beyond msg[63] |
| EthComms.LengthAcceptedKeepsWritesInside | eth_comms.c:183-187 | with the corrected check 4 <= length <= 64, the remainder count is non-negative and its writes stay inside msg |
| EthComms.HuntStep | eth_comms.c:150-161 | announces the search, consumes one byte if there is one and shifts it into the sync register, else stops |
| EthComms.LengthStep | eth_comms.c:163-180 | (corrected length test) with two bytes buffered it reads the length and goes on to the remainder when 4 <= length <= 64, else back to hunting; with fewer it stops without consuming |
| EthComms.RemainderStep | eth_comms.c:182-192 | with length - 4 bytes buffered it consumes exactly those and goes to the CRC state; otherwise it stops without consuming |
| EthComms.ProcessStep | eth_comms.c:198-223 | clears the sync register and returns to FindSync, keeping the rest of msg |
| EthComms.Step | eth_comms.c:146-224 | (corrected length test) one pass keeps the parser invariant, consumes only buffered bytes, and either stops unchanged or makes progress |
| EthComms.Run | eth_comms.c:116-226 | (corrected length test) the run keeps the parser invariant |
| EthComms.SyncFound | eth_comms.c:154-157 | hunting leaves FindSync exactly when the last two bytes were 0xAC then 0xED |
| EthComms.LengthChecked | eth_comms.c:164-180 | (corrected length test) a length above 64 prints "Invalid length" and resumes hunting; the remainder is read iff 4 <= length <= 64, and its writes then fit msg; for every length of at least 4 the step is the step as written, which goes on to the remainder iff the length is not above 64 |
| EthComms.WaitsForMoreBytes | eth_comms.c:178-191 | with too few bytes buffered the parser stops without consuming and keeps its state for the next call |
| EthComms.ProcessedResetsSync | eth_comms.c:198-223 | processing dispatches on the message, clears sync and returns to FindSync |
| EthComms.DispatchIgnoresSync | eth_comms.c:202-219 | the dispatch reads nothing of the sync field |
| EthComms.HuntsSyncWord | eth_comms.c:150-161 | from hunting, the bytes 0xAC 0xED lead to the length state with the sync word in msg |
| EthComms.ReadsLengthAndBody | eth_comms.c:163-192 | an accepted length field and its body put the length and the body into msg and reach the CRC state |
| EthComms.Completes | eth_comms.c:194-223 | from the CRC state the message is dispatched and, with no input left, the parser stops hunting |
| EthComms.RunUnfold | eth_comms.c:144-226 | the `while (!done)` loop is one pass of the switch followed by the rest of the loop, or stops after the pass that sets done |
| EthComms.CommandInPlace | eth_comms.c:202-212 | the command id and the payload read into msg are what the dispatch sees after the sync field is cleared |
| EthComms.FrameStages | eth_comms.c:116-226 | a frame runs through hunting, the length, the body and the dispatch, ending in FindSync with no byte left |
| EthComms.FrameDispatched | eth_comms.c:116-226 | a whole frame arriving during hunting is consumed completely and dispatched on its own command id with its own payload in place, leaving the parser hunting with sync cleared |
| EthComms.FrameParser.constructor | eth_comms.c:121-123 | the parser starts in FindSync with a zeroed msg |
| EthComms.FrameParser.Hunt | eth_comms.c:150-161 | the state, msg, ring and events are those of HuntStep |
| EthComms.FrameParser.ReadLength | eth_comms.c:163-180 | (corrected length test) the state, msg, ring and events are those of LengthStep |
| EthComms.FrameParser.ReadRemainder | eth_comms.c:182-192 | the `while (i--)` loop leaves what RemainderStep describes |
| EthComms.FrameParser.CopyFromRing | eth_comms.c:186-187 | `while (i--) Eth_Comms_Get_Byte(pCh++)` copies the next i pending bytes into msg from pCh on, advances pCh by i and leaves the rest of msg alone |
| EthComms.FrameParser.StepOnce | eth_comms.c:148-224 | (corrected length test) one pass of the switch leaves what Step describes |
| EthComms.FrameParser.ProcessCommands | eth_comms.c:116-226 | (corrected length test) the parser, the ring's pending bytes and the events are those of Run on the old state and the old pending bytes |
| CmdLine.LookupFrom | cmd_line.c:132-140 | finds the first entry from k on that is a case-insensitive prefix of the line, or none iff none is |
| CmdLine.Lookup | cmd_line.c:132-140 | finds the first matching entry in table order, or none iff no entry matches |
| CmdLine.TablePrefixFree | cmd_line.c:37-49 | no entry of the table is a case-insensitive prefix of another |
| CmdLine.AtMostOneMatch | cmd_line.c:37-49 | at most one entry matches any line |
| CmdLine.LookupFindsMatch | cmd_line.c:132-140 | the lookup returns entry i exactly when entry i matches |
| CmdLine.Process | cmd_line.c:126-202 | "not found" iff no entry matches; otherwise the matching entry's action with the suffix after the prefix as parameter |
| CmdLine.SettersRoute | cmd_line.c:165-197 | SETTEMP=, SERVO=, KP=, KI=, KD= and KL= in any letter case route to their setters with the rest of the line |
| CmdLine.BackspaceAtStartUnderflows | cmd_line.c:103-106 | as written, backspace on an empty line leaves index -1, and the next key writes outside g_cmd |
| CmdLine.TypeAsWritten | cmd_line.c:113-117 | a typed key with room left goes at index and index advances; the NUL written after it was already there |
| CmdLine.TypingKp12AsWritten | cmd_line.c:99-119 | typing "KP=12" and then backspace, as written, leaves index 4 with the 2 still in the buffer |
| CmdLine.Kp12Read | cmd_line.c:134 | the C string left in g_cmd is still "KP=12" |
| CmdLine.Kp12Processed | cmd_line.c:179-182 | so KP= is dispatched with "12" |
| CmdLine.BackspaceKeepsCharacter | cmd_line.c:103-108 | as written, "KP=12" then backspace is processed as KP=12, not KP=1 |
| CmdLine.KeyCorrected | cmd_line.c:99-119 | the corrected keystroke keeps index in [0, 49] and keeps the terminator at index |
| CmdLine.KeysCorrected | cmd_line.c:94-120 | a run of corrected keystrokes keeps the same bounds and terminator invariant |
| CmdLine.KeyEdits | cmd_line.c:99-119 | with the corrected backspace, g_cmd[0..index) is the edited line, followed by NUL |
| CmdLine.KeysEdit | cmd_line.c:94-120 | the same holds over any run of keys |
| CmdLine.AfterEnterEdits | cmd_line.c:94-123 | from the state after Enter (index 0 over the kept previous line), once some key types a character, g_cmd holds the line edited from empty, terminated at index |
| CmdLine.CommandIsEditedLine | cmd_line.c:122-137 | the command processed is exactly the line as the user edited it, both from a terminated state and from the state after Enter, on every line in which a character is typed |
| CmdLine.EditedAllBounded | cmd_line.c:113-117 | the edited line never holds more than 49 characters |
| CmdLine.Console.constructor | cmd_line.c:51 | the buffer starts zeroed with index 0 |
| CmdLine.Console.GetCommand | cmd_line.c:85-124 | consumes keys up to and including the first newline, leaves g_cmd as the corrected editor does, and resets index to 0 on Enter |
| FileFifo.SkipDelims | file_fifo.c:216 | strtok skips a leading run of spaces and newlines |
| FileFifo.TokenLength | file_fifo.c:216 | the token runs up to the first delimiter |
| FileFifo.StrTok | file_fifo.c:216-220 | returns NULL iff only delimiters remain; otherwise a non-empty delimiter-free token and a strictly shorter rest |
| FileFifo.StrTokWord | file_fifo.c:216-220 | a word followed by a delimiter is read back as the token, with the text after the delimiter left over |
| FileFifo.StrTokWhole | file_fifo.c:220 | a word that ends the text is the last token |
| FileFifo.StrTokLastWord | file_fifo.c:220 | a word followed by the newline is the last token |
| FileFifo.LookupFrom | file_fifo.c:222-226 | finds the first entry from k on that equals the word up to case, or none iff none does |
| FileFifo.Lookup | file_fifo.c:222-226 | finds the first entry equal up to case, or none iff no entry is |
| FileFifo.TableDistinct | file_fifo.c:57-74 | no two entries are equal up to case |
| FileFifo.LookupFindsEqual | file_fifo.c:222-226 | the lookup returns entry i exactly when the word equals entry i up to case |
| FileFifo.WithCommasJoin | file_fifo.c:513-521 | the comma-after-each-item text is the comma-joined list plus a final comma |
| FileFifo.BuildList | file_fifo.c:512-521 | the loop and the final-character patch yield "1\n", the comma-joined items and "\n" |
| FileFifo.SetHandler | file_fifo.c:304-404 | without an argument it reports the error and answers -1; with one it forwards the parsed value and answers 0 |
| FileFifo.GetHandler | file_fifo.c:406-444 | answers with code 1 and the formatted value, without setting anything |
| FileFifo.GetProbeTemp | file_fifo.c:446-480 | answers with code 1 and the channel's temperature exactly when 0 <= channel < 10, and otherwise -1; reports an error only when no channel is given |
| FileFifo.SetChannelNameHandler | file_fifo.c:482-505 | without a channel it answers -1; with a channel and no name token it dereferences NULL; otherwise it answers 0 and passes on the channel with the name token when it is shorter than 127 characters, and with no defined name otherwise |
| FileFifo.Handle | file_fifo.c:228-297 | every answer keeps the response-code rules |
| FileFifo.ProcessCmd | file_fifo.c:209-298 | keeps the response-code rules (leading -1, 0 or 1; an error only with -1; 0 exactly when something is set), and an empty line or an unknown word is answered "-1\n" alone |
| FileFifo.Dispatched | file_fifo.c:216-236 | a line whose first word is entry i, in any case, is handled by command i with the next token as argument |
| FileFifo.NotImplementedRejected | file_fifo.c:243-248 | EXIT, SET_PROBE_TARGET and GET_PROBE_TARGET are answered "-1\n" with "Cmd not implemented\n" |
| FileFifo.SetKpAnswer | file_fifo.c:330-351 | SET_KP with an argument forwards the gain and answers 0; without one it reports "Set P Gain" and answers -1 |
| FileFifo.HandleSetPGain | file_fifo.c:330-351 | the SET_KP handler answers -1 with its error text when no value follows, else 0 and forwards the parsed value as Kp |
| FileFifo.SetKpLine | file_fifo.c:209-351 | the line "SET_KP v\n" sets Kp to the parsed v and is answered 0 |
| FileFifo.BareSetKpRefused | file_fifo.c:209-351 | the line "SET_KP\n" is refused with the "Set P Gain" error and answered -1 |
| FileFifo.ProbeTempRange | file_fifo.c:453-479 | GET_PROBE_TEMP answers with data exactly for a channel in [0, 10), and with an error text exactly when no channel is given |
| FileFifo.HandleGetProbeTemp | file_fifo.c:453-479 | the GET_PROBE_TEMP handler answers with data exactly for a channel in [0, 10), with an error text exactly when no channel is given, and calls nothing |
| FileFifo.LineLength | file_fifo.c:151-156 | the read stops after the first newline or at the buffer limit |
| FileFifo.LineRead | file_fifo.c:151-156 | at least one and at most `limit` characters are read |
| FileFifo.StaleTailAsWritten | file_fifo.c:150-156 | as written, reading "SET_KP\n" over the leftovers of "SET_KP 1.5\n" leaves the C string "SET_KP\n1.5" |
| FileFifo.FirstLineLeavesValue | file_fifo.c:150-156 | "SET_KP 1.5\n", once read and tokenized, leaves "1.5" and a NUL at positions 7 to 10 |
| FileFifo.StaleLineAccepted | file_fifo.c:330-351 | the stale line is accepted with Kp 1.5, where "SET_KP\n" alone is refused |
| FileFifo.ReadLineTerminated | file_fifo.c:150-158 | the corrected read leaves exactly the new line to the tokenizer, whatever the buffer held |
| FileFifo.BareSetKpRead | file_fifo.c:150-158 | with the corrected read, the line "SET_KP\n" reaches the tokenizer alone, whatever the buffer held |
| FileFifo.CorrectedReadRefusesBareSetKp | file_fifo.c:150-158 | with the corrected read, "SET_KP\n" is refused for its missing value whatever was read before |
| FileFifo.Pipes.constructor | file_fifo.c:88-93 | the buffers start zeroed with no bytes pending |
| FileFifo.Pipes.ReadLineAsWritten | file_fifo.c:150-156 | the loop stores the characters read up to the first newline or 1024 of them, and leaves the rest of the buffer as it was |
| FileFifo.Pipes.ReadLine | file_fifo.c:150-156 | the corrected loop stores at most 1023 characters and then a NUL |
| FileFifo.Pipes.Respond | file_fifo.c:193-197 | the output buffer holds the copied C string and that many bytes are pending |
| FileFifo.Pipes.ReportError | file_fifo.c:199-203 | the error buffer holds the copied C string and that many bytes are pending |
| FileFifo.Pipes.ServiceOutput | file_fifo.c:177-186 | writes exactly the pending bytes of the output buffer, in order, and resets the count to 0 |
| FileFifo.Pipes.ServiceInput | file_fifo.c:146-160 | reads a line (corrected), processes it, and leaves its response and error text pending; the error buffer and its count are unchanged unless an error is reported, and the output is unchanged when the handler dereferences NULL |

## Left out

- Threads, mutexes and signal handlers are left out. Each locked snapshot or publish is one atomic read or write of the modelled state; interleavings are not modelled.
- Hardware and OS calls are left out: SPI (`spiOpen`, `spiXfer`, `spiWrite`), `gpioServo`, sockets, `mkfifo`, `fopen`/`fclose`, ncurses, `usleep`, and the `system("mail …")` notifier. They become parameters: flame and cabinet temperatures, the converter object, a byte stream, keys, and emitted notifications and events.
- Floating-point formatting and parsing are left out. `sprintf("%4.2f")` and `sscanf("%f"/"%d")` are the uninterpreted fields of `FileFifo.Libc`. `atof` and `atoi` are not applied: the console actions carry the parameter text.
- The application accessors `App_Set_*` and `App_Get_*` are not defined in any of the modelled files. In `file_fifo.dfy`, reads come from an `App` snapshot and writes come out as an `AppCall`. The Ethernet `CMD_SET_TEMPERATURE_SETPOINT` event carries the raw payload instead of a decoded float.
- thermistor.c, logging.c, main.c, app.c and node/ are left out. They are polynomial filtering, CSV logging, thread start-up, sleep wrappers and the HTTP bridge. None of them is part of the cores.
- The monitor's display throttle `print_timer` is left out, and so is every `printw`/`printf`. They only affect the screen.
- EthComms.LengthStep, EthComms.FrameParser.ReadLength use the corrected length test 4 <= length <= 64, and so do EthComms.Step, EthComms.Run, EthComms.FrameParser.StepOnce and EthComms.FrameParser.ProcessCommands, which are built on them. What is lost: for a length field of 0 to 3 the code enters the remainder state with a negative count, `while (i--)` drains every pending byte into memory from msg[4] on, past the end of msg, and the frame then goes to the CRC state and the dispatch. Only that one step is modelled as written, by `EthComms.LengthStepAsWritten` and `EthComms.DrainAsWritten`.
- EthComms.LengthChecked states the corrected test; it ties to the code's test only for lengths of at least 4, where the two agree.
- EthComms.FrameParser.ReadLength: the method refuses lengths below 4 as the corrected step does; the as-written step exists only as the function `EthComms.LengthStepAsWritten`.
- FileFifo.Handle departs from the code for `VER`: `file_fifo.c:239` uses `FIRMWARE_REVISION`, but `rev_history.h:8` defines only `FIMRWARE_REVISION`, so the file as written does not compile. The model answers with the evidently intended `"1\n0.1.1\n"`.
- Tlc1543.Acquisition.Service: `adcResults` is the `uint16_t[11]` view that the readers (thermistor.c:65-67, logging.c:85) take of the first 22 bytes of `adc_results`. The over-read of the other 22 bytes and the declared `unsigned int` layout appear only in `Tlc1543.PublishOverReads` (see Findings).
- The Ethernet CRC state checks nothing in the code, and in the model it passes straight to processing as well. The response messages and `Eth_Comms_Service` are left out.
- Buffer capacities are left out. These are `g_out_buffer`/`g_err_buffer` (1024) and the handlers' 50-, 128-, 150- and 1024-byte local buffers. Channel names or real-number texts long enough to overflow them are not modelled.
- strtok's NUL writes into the input buffer appear only in `FileFifo.FirstLineLeavesValue`. Elsewhere the tokenizer works on a copy of the line.
- As written, the read loop does not NUL-terminate the line. A line of exactly 1024 characters with no NUL is tokenized past the buffer's end. Its C string is taken to be the whole buffer.
- The error buffer is filled but never drained: no writer for it exists in the code. The model keeps the buffer and its count only.
- `File_Fifo_Set_Channel_Name` may pass an uninitialised `name`. The model marks that case `name: None` and does not say what the buffer would hold.
- CmdLine.Console.GetCommand: the uninitialised `int ch` is not modelled. `ch` is an automatic local, so on every call the C loop may skip reading if its indeterminate value happens to be '\n'. The method always reads.
- CmdLine.Console.GetCommand: Enter on an empty line after a command is not stated as a separate property. In the C code it resubmits the stale `g_cmd`, because index is reset to 0 with the buffer kept. The model keeps the buffer, as the code does.
- CmdLine.Console.GetCommand uses the corrected backspace (see Findings). The literal keystroke function is `CmdLine.KeyAsWritten`.
- FileFifo.Pipes.ServiceInput uses the corrected line read (see Findings). `FileFifo.Pipes.ReadLineAsWritten` is the loop as written.
- Pid.PidController.Update: when `dt == 0` the output is stated only when Kd is 0, because the C code then uses an uninitialised `diff`.
- Range validation of setpoints and gains, an enable timer and re-arm for the actuator, and an orchestrator that drives the actuator from the PID output exist in none of the modelled files and are not modelled.
- `NBR_ADC_CHANNELS` is not defined in any modelled file. It is taken as 11, from the converter described at tlc1543.c:30; `NBR_OF_THERMISTORS` is then 10.

## Findings

| source | as written | input that shows it | evidently intended | confidence | as-written member | corrected member |
|---|---|---|---|---|---|---|
| eth_comms.c:170 | only `length > 64` is refused; with `length < 4` the remainder count `i` at line 183 is negative and `while (i--)` runs until `i` wraps; Get_Byte stores only while a byte is pending, so the loop drains the whole ring into memory from `msg[4]` on, and with more than 60 bytes pending one lands at offset 64, beyond `msg[63]` | a sync word, the length field 2, then 61 or more bytes | refuse lengths shorter than the sync and length fields (4 <= length <= 64) | not executed | EthComms.ShortLengthOverrunsMsg | EthComms.LengthAcceptedKeepsWritesInside |
| cmd_line.c:103-106 | backspace decrements `index` with no lower bound | backspace on an empty line, then any key | ignore backspace at the start of the line | not executed | CmdLine.BackspaceAtStartUnderflows | CmdLine.KeyCorrected |
| cmd_line.c:105-106 | backspace clears `g_cmd[index]`, which is already the terminator, before decrementing, so the character it should delete stays in the command | typing "KP=12", backspace, Enter: processed as KP=12 | step back first, then clear the character | not executed | CmdLine.BackspaceKeepsCharacter | CmdLine.CommandIsEditedLine |
| file_fifo.c:151-156 | the line read is never NUL-terminated, so a shorter line inherits the NUL-separated tail of the previous one | "SET_KP 1.5\n" then "SET_KP\n": the second line is accepted with Kp 1.5 instead of refused with the missing-value error | terminate the line after the last character read | not executed | FileFifo.StaleTailAsWritten | FileFifo.CorrectedReadRefusesBareSetKp |
| tlc1543.c:99-101 | the publish copies `sizeof(p_shared_data->adc_results)`, the 44 bytes of `unsigned int[11]` (main.h:24), out of the 22-byte `uint16_t channel_adc_result[11]`, reading 22 bytes past the local array | any pass of the acquisition loop | declare `adc_results` as `uint16_t[11]`, the layout every reader copies back, so that the copy is the 22 bytes of the slots | not executed | Tlc1543.PublishOverReads | Tlc1543.ReadersSeeSlots |
