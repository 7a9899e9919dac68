# Radio, scheduler, bootloader and bus code: a Dafny model

The repository is a collection of AVR projects. This model covers the parts of
it that keep state from one call or interrupt to the next:

- the RF12 packet driver (`examples/RFM12_to_Pi/RF12x.cpp`): framing, running
  CRC-16, XXTEA with a packed sequence number, and the easy-send retry layer;
- its watchdog variant (`examples/RFM12b_watchdog/RF12mods.cpp`) with a shadow
  power register and a wakeup timer;
- the Ports library (`examples/keypad_sender/Portsx.cpp`): task scheduler,
  paged memory stream, command parser, sleep accounting;
- the DFU and Caterina bootloaders, which program flash through a page buffer;
- the bit-banged I2C master (`examples/I2C/I2cMaster/I2cMaster.cpp`).

## How it is organised

Every object that the source updates in place is a class whose methods work the
way the source does: arrays written in place, loops with the source's bounds,
fields reassigned. Each method is proved equal to a function on values, and the
properties are lemmas about those functions, so that they hold of the classes.

| part | functions and lemmas | class |
|---|---|---|
| radio link | `Bytes`, `Crc16`, `Xxtea`, `Rf12`, `RadioSeal`, `RadioLink`, `RadioDelivery`, `RadioPackets`, `RadioRun` | `Rf12Node.Node` |
| easy-send layer | `EasySend` | `EasyNode.EasyNode` |
| watchdog variant | `Rf12Power`, `PowerRadio`, `PowerRun` | `Rf12PowerNode.PowerNode` |
| scheduler, sleep | `Scheduler`, `Sleepy` | `Scheduler.Tasks` |
| memory stream | `MemoryStream` | `MemoryStream.PlugStream` |
| command parser | `InputParser`, `TypedLines` | `CommandReader.Reader` |
| bootloaders | `Flash`, `DfuFlash`, `Caterina`, `Replies` | `Flash.Chip`, `Dfu.Bootloader`, `CaterinaLoader.Loader` |
| I2C | `I2cBus`, `I2cMaster` | `SoftI2c.Master` |

The model stands on these facts about the hardware and compiler: `int` has 16
bits and `long` 32, both little-endian; `_crc16_update` is avr-libc's reflected
CRC-16 with polynomial 0xA001; an erased flash byte is 0xFF and writing a page
can only clear bits; the flash page size (SPM_PAGESIZE) is 128 bytes, that of
the ATmega32U4; a receiver gets exactly the bytes after its sync pattern, and a
radio that was set to idle raises no FIFO interrupt. Where two nodes are taken
together, the listener's radio holds up to two bytes, its interrupts are not so
late that it would have to hold more, and a plain node that asks to send senses
the carrier of a transmitting one.

## Where the code does less than it seems to

Each of these is proved as a statement about all inputs, with the condition
under which the code does what is expected of it.

- **Encrypted payloads of 64 to 66 bytes are lost.** Sealing makes 68 bytes of
  them, beyond the 66 that a receiver accepts; it reports a bad checksum. The
  limit is 63 (`RadioDelivery.ArrivesWithinLimit`). The comment on
  `rf12_sendStart` allows 0 to 65 bytes, that on `rf12_encrypt` 4 to 62.
- **Encrypting 65 or 66 bytes writes past the packet buffer**, by one or two
  bytes of the sequence number. The store is in bounds if and only if the
  payload is at most 64 bytes long (`RadioSeal.StaysInsideExactly`). The model's
  memory holds the buffer and the two bytes after it.
- **The Caterina `A` command** computes the high byte shifted by nine in a
  16-bit `int`. The address is right if and only if that byte is below 0x40
  (`Caterina.AddressExact`).
- **A closing quote with one free byte** overwrites the first byte of the string
  it stores (`InputParser.TextSurvives`).
- **A power-on reset during a transmission** leaves the watchdog variant in a
  state in which one more byte request is handled as a reception while the
  transmitter is on. The register stays in step with the
  transceiver state through a run if and only if the run has no such request,
  other than in an interrupt that also reports a reset or an overflow
  (`Rf12Power.RunHalfDuplexExactly`). If such a request finds the buffer full
  from the last reception, the next byte is stored behind the buffer; otherwise
  all stores stay inside (`Rf12Power.RunStoresInsideExactly`).
- **A fixed packet length with no group set** makes the watchdog variant wait
  for one byte more than asked for, as the place for the group byte is counted
  but not filled; with a length of 255 it is off (`PowerRadio.FixedReception`,
  `PowerRadio.FixedOff`).
- **`MilliTimer::poll`** reports nothing when it is late by 5535 ms or more on
  the 16-bit clock, as its comments say, and, since it returns the lateness as a
  byte, when it is late by one less than a multiple of 256 ms
  (`Scheduler.TimerEnds`).
- **`Scheduler::timer`** with 65535 tenths, the idle mark, is lost: with 0
  remaining the task is cancelled, with nothing running the countdown never
  starts (`Scheduler.TimerRuns`). Otherwise the task is set, but as long as its
  countdown stands at the idle mark a timer of 0 tenths for another task cancels
  it (`Scheduler.LostToTimer`).
- **A flash download that starts inside a page** counts its words as if it
  started on one. Its range holds every payload if and only if all of it lies
  within one page (`DfuFlash.ProgramHoldsExactly`); likewise a Caterina block
  (`Caterina.BlockHoldsExactly`).
- **A DFU range of a whole 64 KB page** counts as no bytes at all, in 16-bit
  arithmetic; every other range counts its bytes (`Dfu.CountInNumbers`).
- **The characters `.` and `:`** write two or four bytes without looking for
  room. Strings survive them if and only if that many bytes are free
  (`InputParser.StringsSparedExactly`).
- **`MemoryStream::position`** is wrong while reading the last of all 65536
  pages (`MemoryStream.PositionGot`).
- The comment on `rf12_easySend` says that only packets that differ from the
  previous one are sent. The code also accepts a repetition while the earlier
  one is not acknowledged (`EasySend.SuppressedExactly`).

## Model

| member | source | states |
|---|---|---|
| `Crc16.FrameChecks` | examples/RFM12_to_Pi/RF12x.cpp:293-294 | from any running value, any bytes followed by the low and high byte of their checksum leave zero |
| `Crc16.DifferencePersists` | examples/RFM12_to_Pi/RF12x.cpp:278 | two running values that differ stay different over any common continuation |
| `Crc16.PairDetected` | examples/RFM12_to_Pi/RF12x.cpp:278 | no two different pairs of adjacent bytes lead to the same running value |
| `Crc16.BurstDetected` | examples/RFM12_to_Pi/RF12x.cpp:278 | changing one byte or two adjacent bytes anywhere changes the checksum of the whole |
| `Crc16.CheckValue` | examples/RFM12_to_Pi/RF12x.cpp:278 | the checksum of the nine characters 123456789 is 0x4B37, the check value of this CRC |
| `Xxtea.DownUndoesUp` | examples/RFM12_to_Pi/RF12x.cpp:796-834 | subtracting the mixing term undoes adding it in 32-bit arithmetic, for every key |
| `Xxtea.UnPassUndoesPass` | examples/RFM12_to_Pi/RF12x.cpp:819-836 | a decoding pass from the last word down undoes an encoding pass from the first word up, for every mixing term |
| `Xxtea.UnRoundsUndoesRounds` | examples/RFM12_to_Pi/RF12x.cpp:816-837 | any number of rounds is undone, for every count of two or more words |
| `Xxtea.DecoderRunsSixRounds` | examples/RFM12_to_Pi/RF12x.cpp:829-837 | in 32-bit arithmetic the decoder's running sum is zero after its sixth round and not before |
| `Xxtea.WordsOfUnwords` | examples/RFM12_to_Pi/RF12x.cpp:800 | little-endian words written to bytes read back |
| `Xxtea.DecodeUndoesEncode` | examples/RFM12_to_Pi/RF12x.cpp:811-838 | the cipher is inverted on every buffer of whole words, the single word that is left alone included |
| `Xxtea.CipherExample` | examples/RFM12_to_Pi/RF12x.cpp:796-824 | under the key words 1, 2, 3, 4 six rounds turn the words 0x00010203 and 0x04050607 into 0x2909B4FA and 0xAFA96F0A |
| `Xxtea.CipherExampleBytes` | examples/RFM12_to_Pi/RF12x.cpp:796-824 | the same block as bytes, before and after: the words are little-endian |
| `Xxtea.NeighbourExample` | examples/RFM12_to_Pi/RF12x.cpp:796-824 | of three words the first is updated with the second as `y` and the third as `z`, in numbers |
| `Rf12.ReceiveByte` | examples/RFM12_to_Pi/RF12x.cpp:271-281 | a received byte keeps the invariant: stores stay within the buffer and the radio idles exactly when the packet is complete |
| `Rf12.SendByte` | examples/RFM12_to_Pi/RF12x.cpp:282-300 | a sent byte keeps the invariant: reads stay within the packet and the state in its range |
| `Rf12.RecvDone` | examples/RFM12_to_Pi/RF12x.cpp:365-382 | keeps the invariant; a reported packet leaves the driver free to send |
| `Rf12.CanSend` | examples/RFM12_to_Pi/RF12x.cpp:398-408 | keeps the invariant; permission leaves the driver free to send |
| `Rf12.SendStart` | examples/RFM12_to_Pi/RF12x.cpp:410-422 | keeps the invariant and starts with the preamble |
| `Rf12.LoadData` | examples/RFM12_to_Pi/RF12x.cpp:452-454 | the buffer holds the payload and its length, and nothing but the buffer changes |
| `Rf12.Encrypt` | examples/RFM12_to_Pi/RF12x.cpp:803-824 | the length grows to the next multiple of four, and only buffer and sequence number change |
| `Rf12.Decrypt` | examples/RFM12_to_Pi/RF12x.cpp:825-846 | for any bytes the length falls by at most four and never below zero |
| `Rf12.Strip` | examples/RFM12_to_Pi/RF12x.cpp:840-845 | whatever the last byte says, one to four bytes come off |
| `RadioSeal.GatherSeq` | examples/RFM12_to_Pi/RF12x.cpp:841-844 | the bytes kept, read back, are the sequence number modulo 2^(6 + 8 * pad) |
| `RadioSeal.StripUnseals` | examples/RFM12_to_Pi/RF12x.cpp:839-845 | stripping a sealed payload returns its length, its bytes and the part of the number that was sent |
| `RadioSeal.EncryptSeals` | examples/RFM12_to_Pi/RF12x.cpp:803-824 | after encryption the buffer holds the encoded form of payload, number and pad count |
| `RadioSeal.EncryptSpills` | examples/RFM12_to_Pi/RF12x.cpp:803-809 | what encryption leaves in the two bytes after the buffer, for every payload length up to 66 |
| `RadioSeal.StaysInsideExactly` | examples/RFM12_to_Pi/RF12x.cpp:803-809 | for every sequence number the memory after the buffer is left alone, if and only if the payload is at most 64 bytes long |
| `RadioLink.SendStep` | examples/RFM12_to_Pi/RF12x.cpp:282-300 | every interrupt sends the next byte of the packet on the air and leaves one fewer, the checksum covering what is out |
| `RadioLink.SendRunExact` | examples/RFM12_to_Pi/RF12x.cpp:282-300 | after any number of interrupts exactly that many bytes of the packet on the air are out, from anywhere in a transmission |
| `RadioLink.TransmitExact` | examples/RFM12_to_Pi/RF12x.cpp:282-300 | a transmission takes 11 + len interrupts, emits preamble, sync, packet, checksum and trailer, and ends idle in TXIDLE |
| `RadioLink.ReceiveStep` | examples/RFM12_to_Pi/RF12x.cpp:271-281 | every received byte joins what was collected, group byte included, and its checksum |
| `RadioLink.ReceiveExact` | examples/RFM12_to_Pi/RF12x.cpp:271-281 | for arbitrary bytes a reception takes exactly those up to the announced length or the buffer's end, and has their checksum |
| `RadioLink.ReceptionEnds` | examples/RFM12_to_Pi/RF12x.cpp:280-281 | at most 71 buffer bytes complete any reception |
| `RadioLink.PacketUndisturbed` | examples/RFM12_to_Pi/RF12x.cpp:365-408 | while a packet is received or sent, asking for a packet changes nothing; from the first byte of a packet on, and in every other state than listening, permission to send is refused |
| `RadioLink.ReportedPacketFits` | examples/RFM12_to_Pi/RF12x.cpp:365-377 | a packet reported with checksum zero was at most 66 bytes long, and decryption takes off none to four of them |
| `RadioDelivery.FrameReceived` | examples/RFM12_to_Pi/RF12x.cpp:271-281 | a well-formed frame, whatever follows it, is received whole with checksum zero, for a fixed group or group 0 |
| `RadioDelivery.OnAirOfSend` | examples/RFM12_to_Pi/RF12x.cpp:410-456 | the bytes on the air carry header, length and the payload, sealed and encoded if encryption is on |
| `RadioDelivery.DecryptUndoesEncrypt` | examples/RFM12_to_Pi/RF12x.cpp:799-847 | decryption restores payload, length and header, and yields the sequence number modulo its range |
| `RadioDelivery.EndToEnd` | examples/RFM12_to_Pi/RF12x.cpp:266-456 | every payload of up to 63 bytes encrypted or 66 plain reaches every accepting node with the same key and group, with header, length, data and sequence number |
| `RadioDelivery.NotAddressed` | examples/RFM12_to_Pi/RF12x.cpp:370-380 | a node the packet is not for reports nothing and listens afresh |
| `RadioDelivery.TooLong` | examples/RFM12_to_Pi/RF12x.cpp:280-369 | an encrypted payload of 64 to 66 bytes is reported with a bad checksum |
| `RadioDelivery.ArrivesWithinLimit` | examples/RFM12_to_Pi/RF12x.cpp:365-456 | a payload of up to 66 bytes arrives with a good checksum if and only if it is within the limit |
| `RadioDelivery.CorruptionDetected` | examples/RFM12_to_Pi/RF12x.cpp:271-377 | damage to one byte or two adjacent bytes of a good frame, its length byte excepted, leaves a non-zero checksum at the receiver |
| `RadioPackets.WhoAccepts` | examples/RFM12_to_Pi/RF12x.cpp:370-371 | a node takes a packet if and only if it has no destination bit, or the node is number 31, or the destination is its own number |
| `RadioPackets.SentHeader` | examples/RFM12_to_Pi/RF12x.cpp:410-422 | a header with the destination bit goes out as it is, any other with the number of the sender in its low five bits |
| `RadioPackets.PacketReceived` | examples/RFM12_to_Pi/RF12x.cpp:266-456 | every packet of up to 66 bytes, 63 if encrypted, is reported, among the nodes with the same group and key, by exactly those that its header bits name, with the header, length and bytes that were sent, and the low 6, 14, 22 or 30 bits of the number after the one the sender last used |
| `RadioPackets.SendingCounts` | examples/RFM12_to_Pi/RF12x.cpp:803-805 | sending an encrypted packet leaves the sequence number one higher modulo 2^32, a plain one leaves it alone |
| `RadioPackets.NumberedInOrder` | examples/RFM12_to_Pi/RF12x.cpp:803-847 | of any packets sent one after the other packet i arrives with the number of the first plus i |
| `RadioPackets.ListensWhenAsked` | examples/RFM12_to_Pi/RF12x.cpp:378-382 | asking an idle driver for a packet gives none and turns the receiver on, with an empty buffer and the checksum of the group alone |
| `RadioPackets.PermitsWhenQuiet` | examples/RFM12_to_Pi/RF12x.cpp:398-408 | a driver that listens and has heard nothing permits sending if and only if there is no carrier, and is idle then |
| `RadioRun.StepKeeps` | examples/RFM12_to_Pi/RF12x.cpp:266-408 | every interrupt at either node and every call keeps the link on its way: the sender at its byte, the listener with exactly what it took of what passed its sync pattern, its radio with the rest |
| `RadioRun.DeliveredInEverySchedule` | examples/RFM12_to_Pi/RF12x.cpp:266-456 | however the interrupts and calls of both nodes are interleaved, and whatever other carriers there are, the packet handed to the listener's program is the one sent, and it is handed over at the first call after the last of the 11 + len bytes |
| `Rf12Node.Node.constructor` | examples/RFM12_to_Pi/RF12x.cpp:125-130 | a new node satisfies the driver's invariant |
| `Rf12Node.Node.Interrupt` | examples/RFM12_to_Pi/RF12x.cpp:266-301 | the interrupt, in place, does what the model's receive and send steps say |
| `Rf12Node.Node.StoreByte` | examples/RFM12_to_Pi/RF12x.cpp:271-281 | its receiving branch stores in place what the model's receive step says |
| `Rf12Node.Node.StartReception` | examples/RFM12_to_Pi/RF12x.cpp:322-332 | the new state of starting to listen |
| `Rf12Node.Node.EncodeWords` | examples/RFM12_to_Pi/RF12x.cpp:811-824 | the nested loops over words of the byte buffer encode exactly the packet data, carrying the previous word in `z` |
| `Rf12Node.Node.DecodeWords` | examples/RFM12_to_Pi/RF12x.cpp:826-838 | the loop ending on `sum == 0` decodes exactly the packet data |
| `Rf12Node.Node.CryptFun` | examples/RFM12_to_Pi/RF12x.cpp:799-847 | encryption and decryption in place equal the model's, a bad checksum leaving all as it was |
| `Rf12Node.Node.StripSeq` | examples/RFM12_to_Pi/RF12x.cpp:839-845 | the loop that takes the number off the end finds the number and length that the model's strip does |
| `Rf12Node.Node.RecvDone` | examples/RFM12_to_Pi/RF12x.cpp:365-382 | the result and new state of asking for a packet |
| `Rf12Node.Node.CanSend` | examples/RFM12_to_Pi/RF12x.cpp:398-408 | the result and new state of asking to send |
| `Rf12Node.Node.SendStart` | examples/RFM12_to_Pi/RF12x.cpp:410-422 | the new state of starting a transmission |
| `Rf12Node.Node.SendData` | examples/RFM12_to_Pi/RF12x.cpp:452-456 | the new state of sending a payload |
| `EasySend.RunProper` | examples/RFM12_to_Pi/RF12x.cpp:726-791 | in every run of submits, acknowledgements and polls each transmission, suppression and acceptance is one its history allows, and the variables say what the history says |
| `EasySend.AtMostRetries` | examples/RFM12_to_Pi/RF12x.cpp:736-754 | at most eight transmissions follow an accepted submit, all of the payload installed last |
| `EasySend.FirstAttemptsApart` | examples/RFM12_to_Pi/RF12x.cpp:739-751 | two first attempts in any run are at least the configured interval, or the band's default, apart |
| `EasySend.RetriesApart` | examples/RFM12_to_Pi/RF12x.cpp:738-742 | in any run a repetition follows the transmission before it by at least one second |
| `EasySend.SuppressedExactly` | examples/RFM12_to_Pi/RF12x.cpp:781-791 | a submit is suppressed if and only if it repeats the installed payload and no transmission is unacknowledged |
| `EasySend.NothingUnacked` | examples/RFM12_to_Pi/RF12x.cpp:729-742 | with no transmission unacknowledged, after any earlier event an acknowledgement came or nothing was sent |
| `EasyNode.PollBothIsPoll` | examples/RFM12_to_Pi/RF12x.cpp:726-757 | polling driver and layer together is a poll event of the layer's runs, and the result tells whether transmissions are left |
| `EasyNode.PollSendsPayload` | examples/RFM12_to_Pi/RF12x.cpp:736-756 | when the payload is due and the channel free, the poll puts on the air exactly the installed payload, sealed and encoded if encryption is on, under header 0x20 with the number of the node |
| `EasyNode.PayloadArrives` | examples/RFM12_to_Pi/RF12x.cpp:736-756 | up to 66 bytes, 63 if encrypted, that packet is reported with a good checksum, the payload and that header by every node with the same group and key |
| `EasyNode.AckArrives` | examples/RFM12_to_Pi/RF12x.h:50-51 | the reply that RF12_ACK_REPLY forms to such a packet is reported at the sender and counts as its acknowledgement |
| `EasyNode.GapInNumbers` | examples/RFM12_to_Pi/RF12x.cpp:747-751 | the gap is 1000 ms for each second configured, else 13 ms for each byte and ten more in the 868 MHz band, and 100 ms elsewhere |
| `EasyNode.FirstAttemptsApartMs` | examples/RFM12_to_Pi/RF12x.cpp:739-751 | two first attempts in any run are at least that many milliseconds apart |
| `EasyNode.EasyNode.EasySend` | examples/RFM12_to_Pi/RF12x.cpp:781-791 | the result and new state of a submit, the driver untouched |
| `EasyNode.EasyNode.PollAck` | examples/RFM12_to_Pi/RF12x.cpp:727-735 | taking a packet and recognising an acknowledgement, over the state of both layers |
| `EasyNode.EasyNode.PollSend` | examples/RFM12_to_Pi/RF12x.cpp:736-755 | sending the payload when it is due and the channel free, over the state of both layers |
| `EasyNode.EasyNode.EasyPoll` | examples/RFM12_to_Pi/RF12x.cpp:726-757 | the result and the state of both layers after a poll |
| `Rf12Power.InterruptKeepsExactly` | examples/RFM12b_watchdog/RF12mods.cpp:348-419 | an interrupt that can happen, with any combination of status bits, keeps receiver and transmitter apart and in step with the transceiver state if and only if it is not a byte request after a reset of a sending radio |
| `Rf12Power.RecvDoneKeeps` | examples/RFM12b_watchdog/RF12mods.cpp:485-510 | so does asking for a packet, fixed length or not |
| `Rf12Power.SendDataKeeps` | examples/RFM12b_watchdog/RF12mods.cpp:556-604 | starting a transmission from TXIDLE, encrypted or not, turns on the transmitter alone and sends at most 68 data bytes |
| `Rf12Power.EventKeepsExactly` | examples/RFM12b_watchdog/RF12mods.cpp:338-604 | so does every event - interrupts, packets asked for, sends that were allowed, sleep, wakeup timer, restore, fixed length when idle - with that one exception |
| `Rf12Power.RunHalfDuplexExactly` | examples/RFM12b_watchdog/RF12mods.cpp:338-604 | all through a run the register stays in step with the transceiver state - receiver and transmitter never on together, both off in TXIDLE, only the receiver on in an unfinished reception and only the transmitter in a transmission - if and only if no byte is requested after a reset of a sending radio |
| `Rf12Power.RestoredIsHalfDuplex` | examples/RFM12b_watchdog/RF12mods.cpp:767-802 | restoring the configuration establishes the invariant from any state |
| `Rf12Power.ResetThenByteClashes` | examples/RFM12b_watchdog/RF12mods.cpp:348-419 | from every transmission a power-on reset and one more byte request are such a clash, and end in a reception with the transmitter on |
| `Rf12Power.GuardedKeepsExactly` | examples/RFM12b_watchdog/RF12mods.cpp:348-604 | every event that can happen, clashes included, stores within the buffer, and leaves the next store within it if and only if it is not a clash with a buffer still full from the last reception |
| `Rf12Power.RunStoresInsideExactly` | examples/RFM12b_watchdog/RF12mods.cpp:348-604 | every store of a run, and the next one after each event, is within the buffer, if and only if no clash finds the buffer full |
| `Rf12Power.HalfDuplexIsGuarded` | examples/RFM12b_watchdog/RF12mods.cpp:348-604 | runs that start with the register in step satisfy what the store theorem asks for |
| `Rf12Power.FifoRefines` | examples/RFM12b_watchdog/RF12mods.cpp:353-400 | with variable lengths and no reset, a byte taken or given is the one the plain driver takes or gives, checksum included, the register standing for its radio mode |
| `Rf12Power.RecvDoneRefines` | examples/RFM12b_watchdog/RF12mods.cpp:485-510 | asking for a packet has the result and effect it has in the plain driver: checksum forcing, decryption and sequence number included |
| `Rf12Power.CanSendRefines` | examples/RFM12b_watchdog/RF12mods.cpp:545-554 | asking to send is the plain driver's with listening before sending disabled |
| `Rf12Power.SendDataRefines` | examples/RFM12b_watchdog/RF12mods.cpp:556-604 | sending a payload is the plain driver's, encryption and checksum start included |
| `PowerRadio.ModesInBits` | examples/RFM12b_watchdog/RF12mods.cpp:338-571 | which bits of the register receiving, sending, idling and sleeping set and clear, and that they leave all others alone |
| `PowerRadio.SleepInBits` | examples/RFM12b_watchdog/RF12mods.cpp:869-877 | going to sleep turns crystal, synthesizer, transmitter, receiver and baseband off, waking up turns the crystal alone on, and nothing else changes |
| `PowerRadio.InStepInBits` | examples/RFM12b_watchdog/RF12mods.cpp:338-571 | the half-duplex invariant in the bits and state numbers themselves: 0x80 and 0x20 never both, neither in TXIDLE, 0x80 in a reception exactly until 71 or the wanted bytes are in |
| `PowerRadio.EventPower` | examples/RFM12b_watchdog/RF12mods.cpp:338-910 | every event, clashes included, keeps the supporting circuits on with receiver or transmitter and off without them, and leaves all other bits alone; only restoring the settings does more. The wakeup bit changes when the timer is set or stopped, and is cleared by its interrupt, which alone reports a wakeup |
| `PowerRadio.FixedReception` | examples/RFM12b_watchdog/RF12mods.cpp:355-530 | a reception of a set length takes that many bytes behind the group byte, at most 70, or without a group one more than that, at most 71; then the receiver is off and the packet is reported as it came in, with a bad checksum |
| `PowerRadio.FixedOff` | examples/RFM12b_watchdog/RF12mods.cpp:526-529 | lengths 0 and 255 turn fixed lengths off, and nothing but the length changes |
| `PowerRun.StepRefines` | examples/RFM12b_watchdog/RF12mods.cpp:348-604 | every interrupt for a byte and every call on a link of two nodes of the variant is that of plain nodes |
| `PowerRun.VariantDelivers` | examples/RFM12b_watchdog/RF12mods.cpp:348-604 | in every schedule in which the listener does not ask to send, what one node of the variant sends another is handed whole and good |
| `Rf12PowerNode.HalvedRounds` | examples/RFM12b_watchdog/RF12mods.cpp:889-893 | mantissa times 2^r is at most the time asked for, and one more mantissa step exceeds it |
| `Rf12PowerNode.HalvedAccurate` | examples/RFM12b_watchdog/RF12mods.cpp:889-893 | the time programmed is short by less than 1/128 of the time asked for |
| `Rf12PowerNode.HalvedFits` | examples/RFM12b_watchdog/RF12mods.cpp:889-893 | a 32-bit time needs an exponent of at most 24 |
| `Rf12PowerNode.FieldsApart` | examples/RFM12b_watchdog/RF12mods.cpp:902-907 | prefix, exponent and mantissa can each be read back from the command word |
| `Rf12PowerNode.WatchdogSetsTime` | examples/RFM12b_watchdog/RF12mods.cpp:887-910 | the last command but one is a wakeup timer command whose mantissa and exponent, read back from the word, give the time asked for rounded down by less than 1/128, and the last one turns the timer on |
| `Rf12PowerNode.WatchdogStops` | examples/RFM12b_watchdog/RF12mods.cpp:895-900 | a time of zero sends one command, which clears the wakeup bit, if the timer runs, and else none |
| `Rf12PowerNode.PowerNode.constructor` | examples/RFM12b_watchdog/RF12mods.cpp:767-802 | a new node satisfies the half-duplex invariant |
| `Rf12PowerNode.PowerNode.SetWatchdog` | examples/RFM12b_watchdog/RF12mods.cpp:887-910 | the shifting loop finds mantissa and exponent, the commands sent are the expected ones, and bit 1 ends up set exactly when the time is not zero |
| `Rf12PowerNode.PowerNode.Interrupt` | examples/RFM12b_watchdog/RF12mods.cpp:348-419 | the interrupt, in place and in every state with room for the byte, has the model's new state and sends its byte; from a state in step it stays in step exactly if it is no clash |
| `Rf12PowerNode.PowerNode.RecvDone` | examples/RFM12b_watchdog/RF12mods.cpp:485-510 | the result and new state of asking for a packet, in every state, checksum and decryption included; half duplex is kept |
| `Rf12PowerNode.PowerNode.CanSend` | examples/RFM12b_watchdog/RF12mods.cpp:545-554 | the result and new state of asking to send |
| `Rf12PowerNode.PowerNode.SendData` | examples/RFM12b_watchdog/RF12mods.cpp:600-604 | the new state of sending a payload |
| `Rf12PowerNode.PowerNode.SendStart` | examples/RFM12b_watchdog/RF12mods.cpp:556-570 | the new state of starting a transmission: header, encryption, checksum and register |
| `Rf12PowerNode.PowerNode.FeedByte` | examples/RFM12b_watchdog/RF12mods.cpp:377-399 | the sending branch of the interrupt, in place, equals the model's step |
| `Rf12PowerNode.PowerNode.StartReception` | examples/RFM12b_watchdog/RF12mods.cpp:440-452 | the new state of starting to listen: buffer, checksum and register |
| `Rf12PowerNode.PowerNode.SetFixedLength` | examples/RFM12b_watchdog/RF12mods.cpp:526-529 | the new fixed length, in 8-bit arithmetic |
| `Rf12PowerNode.PowerNode.Sleep` | examples/RFM12b_watchdog/RF12mods.cpp:869-877 | the new state of sleeping and waking |
| `Scheduler.TimerEnds` | examples/keypad_sender/Portsx.cpp:240-267 | for every moment it is polled at, the timer reports readiness if and only if its time has passed, by less than 5535 ms on the 16-bit clock, and not by 255 ms modulo 256 |
| `Scheduler.TimerRearms` | examples/keypad_sender/Portsx.cpp:240-267 | the poll that finds the time over sets the timer anew from that poll, for exactly the time it was given, even where it reports nothing |
| `Scheduler.TimerRepeats` | examples/keypad_sender/Portsx.cpp:240-267 | the poll after it, at any moment, is ready if and only if that second time is over, under the same two conditions, and never if it was zero |
| `Scheduler.TimerSetsOne` | examples/keypad_sender/Portsx.cpp:1203-1213 | seen as a table of countdowns, setting a timer changes that task's entry and no other, rebasing included, if and only if the time is below 65535 tenths or `remaining` is not 0 |
| `Scheduler.TimerRuns` | examples/keypad_sender/Portsx.cpp:1203-1213 | the entry is set and the scheduler counts if and only if the time is below 65535 tenths or `remaining` is neither 0 nor 65535 |
| `Scheduler.TimerKeepsBelow` | examples/keypad_sender/Portsx.cpp:1203-1213 | all countdowns stay below the idle mark, which keeps them safe from later timers, if and only if the time is below 65535 tenths or `remaining` is 0 |
| `Scheduler.LostToTimer` | examples/keypad_sender/Portsx.cpp:1203-1213 | a timer changes the countdown of another task if and only if that stands at 65535 tenths, the timer is for 0 tenths and `remaining` is not 0 |
| `Scheduler.CancelClearsOne` | examples/keypad_sender/Portsx.cpp:1215-1217 | cancelling clears that task's entry and no other |
| `Scheduler.PollStep` | examples/keypad_sender/Portsx.cpp:1154-1184 | a poll returns the first task due and takes it off the table, else leaves the table alone or lowers every running countdown by one on a tick; it reports nothing waiting only when the table is empty |
| `Scheduler.IdleMeansAllIdle` | examples/keypad_sender/Portsx.cpp:1179-1180 | 0xFFFF in `remaining` means that every task is idle |
| `Scheduler.PollsDrain` | examples/keypad_sender/Portsx.cpp:1154-1184 | with k tasks due the next k polls return them in index order and leave the other entries alone |
| `Scheduler.CallsCount` | examples/keypad_sender/Portsx.cpp:1154-1217 | over any calls that neither set, cancel nor return a task, its countdown falls by exactly the tenths counted |
| `Scheduler.TaskWaitsExactly` | examples/keypad_sender/Portsx.cpp:1154-1217 | a task set for some tenths, and neither set again nor cancelled, is returned only after exactly that many tenths, and is returned among the tasks then due |
| `Scheduler.Polled` | examples/keypad_sender/Portsx.cpp:1154-1184 | no word wraps, and countdowns below the idle mark stay below it |
| `Scheduler.Timed` | examples/keypad_sender/Portsx.cpp:1203-1213 | no word wraps, and countdowns below the idle mark stay below it for times below it |
| `Scheduler.Tasks.constructor` | examples/keypad_sender/Portsx.cpp:1143-1152 | a new scheduler has every task idle |
| `Scheduler.Tasks.Poll` | examples/keypad_sender/Portsx.cpp:1154-1184 | the poll over the array, in place, with the timer's new state |
| `Scheduler.Tasks.TakeOrRebase` | examples/keypad_sender/Portsx.cpp:1157-1178 | the one loop that both looks for a task due and finds the least countdown |
| `Scheduler.Tasks.MoveAll` | examples/keypad_sender/Portsx.cpp:1168-1172 | every running countdown moves by the same amount, idle ones stay idle |
| `Scheduler.Tasks.Timer` | examples/keypad_sender/Portsx.cpp:1203-1213 | setting a timer, in place, equals the model's |
| `Scheduler.Tasks.Cancel` | examples/keypad_sender/Portsx.cpp:1215-1217 | cancelling, in place, equals the model's |
| `Sleepy.NapsAccounted` | examples/keypad_sender/Portsx.cpp:1105-1134 | for every pattern of interruptions the time lost is the sum of the completed naps and half of the interrupted one, which is the last; undisturbed, less than 16 ms are left |
| `Sleepy.NapLengths` | examples/keypad_sender/Portsx.cpp:1105-1134 | the ten naps last 16 ms to 8192 ms, each twice the one before |
| `Sleepy.PeriodFrom` | examples/keypad_sender/Portsx.cpp:1111-1114 | the nap chosen fits into the time left and, below the longest, twice it would not |
| `Sleepy.HalvedBounds` | examples/keypad_sender/Portsx.cpp:1112-1114 | the halved copy the loop tests is at least 16 exactly when the nap of that period fits |
| `Sleepy.ChoosePeriod` | examples/keypad_sender/Portsx.cpp:1111-1114 | the loop that halves a copy of the time left finds the greatest period that fits |
| `Sleepy.LoseSomeTime` | examples/keypad_sender/Portsx.cpp:1105-1137 | terminates without underflow; it takes the naps that the rule for choosing them says, the clock advances by their time, half of an interrupted last one, and success means fewer than 16 ms unslept |
| `MemoryStream.PutWrites` | examples/keypad_sender/Portsx.cpp:405-411 | each byte put keeps full pages on the plug and the rest in the buffer, for either page order |
| `MemoryStream.FlushStores` | examples/keypad_sender/Portsx.cpp:413-419 | after a flush every byte put is on the plug |
| `MemoryStream.PageHolds` | examples/keypad_sender/Portsx.cpp:405-419 | after bytes are put and flushed, the page numbered start plus or minus j holds bytes 256 j to 256 j + 255, the last page filled up with 0xFF |
| `MemoryStream.OtherPages` | examples/keypad_sender/Portsx.cpp:405-419 | every page that none of the bytes goes to is as before |
| `MemoryStream.GetReads` | examples/keypad_sender/Portsx.cpp:397-403 | each byte got is the next one on the plug, across page boundaries |
| `MemoryStream.StreamRoundTrip` | examples/keypad_sender/Portsx.cpp:397-424 | any bytes put, flushed and read from the start come back, for step 1 or -1, up to the full 65536 pages |
| `MemoryStream.PositionPut` | examples/keypad_sender/Portsx.cpp:390-395 | the position equals the number of bytes put |
| `MemoryStream.PositionGot` | examples/keypad_sender/Portsx.cpp:390-395 | the position equals the number of bytes got if and only if reading has not entered the last of all pages |
| `MemoryStream.PlugStream.Put` | examples/keypad_sender/Portsx.cpp:405-411 | putting a byte, in place, equals the model's |
| `MemoryStream.PlugStream.Get` | examples/keypad_sender/Portsx.cpp:397-403 | getting a byte, in place, equals the model's |
| `MemoryStream.PlugStream.Flush` | examples/keypad_sender/Portsx.cpp:413-419 | flushing, in place, equals the model's and returns the page |
| `MemoryStream.PlugStream.Reset` | examples/keypad_sender/Portsx.cpp:421-424 | rewinding keeps plug and buffer |
| `InputParser.ModStep` | examples/keypad_sender/Portsx.cpp:1258-1277 | reducing to 32 bits before or after one more digit is the same |
| `InputParser.EndNumber` | examples/keypad_sender/Portsx.cpp:1284-1300 | the character that ends a number appends its low one, two or four bytes, least significant first |
| `InputParser.StringsSparedExactly` | examples/keypad_sender/Portsx.cpp:1284-1291 | a word or long that ends leaves the strings alone whatever its value, if and only if two or four bytes are free below them |
| `InputParser.CloseStringMoves` | examples/keypad_sender/Portsx.cpp:1246-1256 | with two bytes free the closing quote moves the string up whole, zero-terminated, and leaves its offset |
| `InputParser.TextSurvives` | examples/keypad_sender/Portsx.cpp:1246-1256 | a string survives its closing quote if and only if a second byte is free, or the byte that overwrites it is the same |
| `InputParser.LineFeeds` | examples/keypad_sender/Portsx.cpp:1238-1301 | every well-formed line that leaves room puts its arguments into the low end in order and its strings into the high end |
| `InputParser.CommandRuns` | examples/keypad_sender/Portsx.cpp:1310-1328 | the command then runs with that layout, zeros between the ends, and the parser is reset after it |
| `InputParser.ArgsReadBack` | examples/keypad_sender/Portsx.cpp:1340-1350 | the readers return the arguments' values in order |
| `InputParser.LineRoundTrip` | examples/keypad_sender/Portsx.cpp:1238-1350 | typing a line and a command letter at a fresh parser runs the command, whose readers return exactly the values of the line |
| `TypedLines.DecimalReads` | examples/keypad_sender/Portsx.cpp:1273-1277 | the digits 0 to 9 by which any number is written read as that number |
| `TypedLines.HexReads` | examples/keypad_sender/Portsx.cpp:1258-1272 | so do hexadecimal digits, in upper or lower case |
| `TypedLines.TypedNumberReads` | examples/keypad_sender/Portsx.cpp:1238-1344 | any number typed at a fresh parser in decimal or hexadecimal and ended for a size is what the reader gets, modulo 2^8, 2^16 or 2^32; with a minus, what it gets and the number add up to 0 modulo that |
| `TypedLines.TypedTextReads` | examples/keypad_sender/Portsx.cpp:1238-1350 | any text of printable ASCII without a quote, typed between quotes where it fits, is what the reader of strings gets |
| `TypedLines.ControlStartsAfresh` | examples/keypad_sender/Portsx.cpp:1242-1245 | any control character leaves the parser fresh, whatever was typed before |
| `TypedLines.RunsExactly` | examples/keypad_sender/Portsx.cpp:1310-1337 | between arguments a letter runs a command if and only if it is in the table and the first entry with it needs no more bytes than were typed; otherwise the line is kept for an unknown letter and dropped for too little data |
| `TypedLines.UnendedNumberRefused` | examples/keypad_sender/Portsx.cpp:1303-1309 | a command letter right behind a number without its end runs nothing and drops the line |
| `CommandReader.Reader.constructor` | examples/keypad_sender/Portsx.cpp:1221-1236 | a new reader is a fresh parser of that size |
| `CommandReader.Reader.Poll` | examples/keypad_sender/Portsx.cpp:1238-1338 | one character, in place, has the outcome and new state of the model's poll |
| `CommandReader.Reader.MoveUp` | examples/keypad_sender/Portsx.cpp:1248-1251 | moving a string up in place, end first, never overwrites a byte that is yet to move |
| `CommandReader.Reader.EndString` | examples/keypad_sender/Portsx.cpp:1247-1255 | the closing quote, in place, equals the model's |
| `CommandReader.Reader.RunCommand` | examples/keypad_sender/Portsx.cpp:1310-1337 | looking a command up and running it, in place, equals the model's |
| `CommandReader.Reader.GetNumber` | examples/keypad_sender/Portsx.cpp:1340-1344 | reading a number equals the model's |
| `CommandReader.Reader.GetString` | examples/keypad_sender/Portsx.cpp:1346-1350 | reading a string equals the model's, an offset outside the strings giving the empty one |
| `Flash.LaidParts` | caterina-lilypadusb/LUFA-111009/Bootloaders/DFU/BootloaderDFU.c:255-317 | in memory with data laid down the range holds the data, the rest of its last page is 0xFF, and every other byte is as before |
| `Flash.LaidRewrites` | caterina-lilypadusb/LUFA-111009/Bootloaders/DFU/BootloaderDFU.c:255-317 | byte by byte, in numbers: the data from the start on, 0xFF up to the next multiple of 128, every other byte as before |
| `Flash.LaidTwice` | caterina-lilypadusb/LUFA-111009/Bootloaders/DFU/BootloaderDFU.c:273-311 | laying down full pages and then more from the next page is laying down both at once |
| `Flash.WriteErased` | caterina-lilypadusb/LUFA-111009/Bootloaders/DFU/BootloaderDFU.c:296-298 | committing to an erased page, which can only clear bits, puts the page buffer there |
| `DfuFlash.PageOpsPaired` | caterina-lilypadusb/LUFA-111009/Bootloaders/DFU/BootloaderDFU.c:293-310 | in the log of a download every page is erased exactly once, right before it is written once |
| `DfuFlash.FillKeeps` | caterina-lilypadusb/LUFA-111009/Bootloaders/DFU/BootloaderDFU.c:286-291 | each word goes behind the data already in the page buffer |
| `DfuFlash.WriteKeeps` | caterina-lilypadusb/LUFA-111009/Bootloaders/DFU/BootloaderDFU.c:293-298 | a commit leaves exactly the bytes received so far laid down, and the log pairs every erase with a write |
| `DfuFlash.EraseKeeps` | caterina-lilypadusb/LUFA-111009/Bootloaders/DFU/BootloaderDFU.c:300-309 | erasing the page that follows keeps what is laid down |
| `DfuFlash.DownloadedLays` | caterina-lilypadusb/LUFA-111009/Bootloaders/DFU/BootloaderDFU.c:273-311 | from any point of a download that started on a page, the word loop ends with all data laid down and every erase in the log paired with a write |
| `DfuFlash.ProgrammedLays` | caterina-lilypadusb/LUFA-111009/Bootloaders/DFU/BootloaderDFU.c:258-317 | a download from a page start refines one contiguous write: data, blank rest of the last page, everything else as before, every touched page erased exactly once before its commit |
| `DfuFlash.ProgrammedInPage` | caterina-lilypadusb/LUFA-111009/Bootloaders/DFU/BootloaderDFU.c:258-317 | a download within one page replaces it: blank up to the start, the data, blank after it |
| `DfuFlash.ProgramHoldsExactly` | caterina-lilypadusb/LUFA-111009/Bootloaders/DFU/BootloaderDFU.c:258-317 | the range holds every payload, if and only if the start is on a page or the range within one page |
| `Dfu.Bootloader.DownloadFlash` | caterina-lilypadusb/LUFA-111009/Bootloaders/DFU/BootloaderDFU.c:258-317 | the word loop over the flash, in place and from any even start, is the model's |
| `Dfu.Bootloader.DownloadEeprom` | caterina-lilypadusb/LUFA-111009/Bootloaders/DFU/BootloaderDFU.c:319-341 | the EEPROM range holds the payload and the rest is as before |
| `Dfu.Bootloader.ProcessCommand` | caterina-lilypadusb/LUFA-111009/Bootloaders/DFU/BootloaderDFU.c:532-638 | commands 0x01 and 0x03 load the two addresses written out from the parameter bytes and change the state, 0x06 sets the 64 KB page; a flash program command erases the first page |
| `Dfu.RangeInNumbers` | caterina-lilypadusb/LUFA-111009/Bootloaders/DFU/BootloaderDFU.c:580-592 | the range of a command runs from 256 times the second parameter plus the third, to 256 times the fourth plus the fifth, inclusive |
| `Dfu.CountInNumbers` | caterina-lilypadusb/LUFA-111009/Bootloaders/DFU/BootloaderDFU.c:256 | from s to e there are e - s + 1 bytes, except that all of a 64 KB page counts as none |
| `Dfu.Bootloader.ProgramRange` | caterina-lilypadusb/LUFA-111009/Bootloaders/DFU/BootloaderDFU.c:255-317 | an even range in place, given by its parameter bytes: afterwards flash holds the firmware there, 0xFF in the rest of the 128-byte pages it touches, and every other byte as before |
| `Dfu.Bootloader.UploadRange` | caterina-lilypadusb/LUFA-111009/Bootloaders/DFU/BootloaderDFU.c:376-419 | an upload of such a range returns exactly the flash bytes from the first to the last address named |
| `Dfu.Bootloader.ProgramRangeEeprom` | caterina-lilypadusb/LUFA-111009/Bootloaders/DFU/BootloaderDFU.c:319-341 | an EEPROM range, given by its parameter bytes, holds the data and the rest is as before |
| `Dfu.Bootloader.UploadRangeEeprom` | caterina-lilypadusb/LUFA-111009/Bootloaders/DFU/BootloaderDFU.c:421-446 | an upload of an EEPROM range returns exactly the bytes from the first to the last address named |
| `Dfu.Bootloader.ProgramFlash` | caterina-lilypadusb/LUFA-111009/Bootloaders/DFU/BootloaderDFU.c:258-317 | command and download together program flash as the model does; from a page start they lay the payload down, erasing every touched page exactly once before its commit and no other |
| `Dfu.Bootloader.Upload` | caterina-lilypadusb/LUFA-111009/Bootloaders/DFU/BootloaderDFU.c:376-446 | an upload returns the bytes of the range in order |
| `Dfu.Bootloader.UploadFlash` | caterina-lilypadusb/LUFA-111009/Bootloaders/DFU/BootloaderDFU.c:376-419 | its flash loop, a word at a time, returns the bytes of the range in order |
| `Dfu.Bootloader.UploadEeprom` | caterina-lilypadusb/LUFA-111009/Bootloaders/DFU/BootloaderDFU.c:421-446 | its EEPROM loop returns the bytes of the range in order |
| `Dfu.Bootloader.ProgramThenUpload` | caterina-lilypadusb/LUFA-111009/Bootloaders/DFU/BootloaderDFU.c:255-446 | programming an even payload at a page start, or within one page, the range given by its parameter bytes, and uploading that range returns the payload; flash holds it there, 0xFF in the rest of its pages, and every other byte as before |
| `Dfu.Bootloader.ProgramThenUploadEeprom` | caterina-lilypadusb/LUFA-111009/Bootloaders/DFU/BootloaderDFU.c:319-446 | programming any EEPROM range and uploading it returns the data, the rest of the EEPROM and all flash unchanged |
| `Caterina.AddressExact` | caterina-lilypadusb/Caterina.c:505-513 | the `A` command sets twice the word address sent if and only if its high byte is below 0x40 |
| `Caterina.AddressValue` | caterina-lilypadusb/Caterina.c:505-513 | the address for every pair of bytes: the upper half is filled with ones for high bytes 0x40 to 0x7F, and from 0x80 on the top bit of the word address is lost |
| `Caterina.FillWordsPage` | caterina-lilypadusb/Caterina.c:335-353 | the words of a block fill the page buffer from its start |
| `Caterina.BlockReplacesPage` | caterina-lilypadusb/Caterina.c:327-373 | a block that starts on a page and fits it replaces that page, padded with 0xFF, and no other |
| `Caterina.BlockInPage` | caterina-lilypadusb/Caterina.c:327-373 | a block from anywhere in a page that does not cross its end replaces the page: blank up to the start, the whole words, blank after them |
| `Caterina.BlockRewrites` | caterina-lilypadusb/Caterina.c:327-373 | byte by byte, in numbers: the block, 0xFF in the rest of its 128-byte page, every other byte as before |
| `Caterina.BlockHoldsExactly` | caterina-lilypadusb/Caterina.c:327-373 | blocks of a size are stored whatever they hold, if and only if the size is even and the block does not cross the end of its page |
| `Caterina.BlocksContiguous` | caterina-lilypadusb/Caterina.c:267-381 | after any sequence of such blocks the memory holds them contiguously from the start, the last one padded to its page with 0xFF, and is otherwise as before |
| `Caterina.ImageLaid` | caterina-lilypadusb/Caterina.c:267-381 | an image whose last block is not empty is laid down as one contiguous write, like a download of the other bootloader |
| `Caterina.ImageRewrites` | caterina-lilypadusb/Caterina.c:267-381 | byte by byte, in numbers: the image, 0xFF up to the next multiple of 128, every other byte as before |
| `Caterina.ReadsContiguous` | caterina-lilypadusb/Caterina.c:293-324 | consecutive reads return consecutive bytes |
| `Caterina.ImageRoundTrip` | caterina-lilypadusb/Caterina.c:267-381 | an image written in page blocks is what any reads that cover it return first, byte for byte |
| `CaterinaLoader.Loader.Answer` | caterina-lilypadusb/Caterina.c:415-435 | queues one byte for the host, sending the bank when it is full |
| `CaterinaLoader.Loader.FinishReply` | caterina-lilypadusb/Caterina.c:664-690 | what is sent at the end of a command |
| `CaterinaLoader.Loader.AddressCommand` | caterina-lilypadusb/Caterina.c:505-513 | takes two bytes, sets the address and answers |
| `CaterinaLoader.Loader.ReadFlash` | caterina-lilypadusb/Caterina.c:298-314 | the loop that toggles between low and high byte answers the bytes in order and advances the address by the whole words |
| `CaterinaLoader.Loader.ReadEeprom` | caterina-lilypadusb/Caterina.c:298-323 | the loop answers the EEPROM bytes in order |
| `CaterinaLoader.Loader.WriteFlash` | caterina-lilypadusb/Caterina.c:327-373 | the loop pairs low and high bytes and writes the block as the model's block write does |
| `CaterinaLoader.Loader.WriteEeprom` | caterina-lilypadusb/Caterina.c:335-363 | the loop stores the bytes in order and nothing else |
| `CaterinaLoader.Loader.ReadWriteMemoryBlock` | caterina-lilypadusb/Caterina.c:267-381 | address, memories and reply after any block command, the unknown memory type included |
| `CaterinaLoader.Loader.CdcTask` | caterina-lilypadusb/Caterina.c:455-690 | a whole command with the end of its reply leaves an empty bank and the model's new state |
| `CaterinaLoader.FlashWriteObeyed` | caterina-lilypadusb/Caterina.c:267-690 | the command bytes B, size and F followed by a block write it - byte by byte in numbers if it is even and within a page - move the address on by the whole words and are answered by 0x0D |
| `CaterinaLoader.FlashReadObeyed` | caterina-lilypadusb/Caterina.c:267-690 | the command bytes g, size and F give the host, through the packets of the reply, exactly the bytes at the address |
| `CaterinaLoader.EepromWriteObeyed` | caterina-lilypadusb/Caterina.c:267-690 | the command bytes B, size and E followed by a block of any size replace exactly its range, at half the address, and are answered by 0x0D |
| `CaterinaLoader.EepromReadObeyed` | caterina-lilypadusb/Caterina.c:267-690 | the command bytes g, size and E give the host exactly the EEPROM bytes at half the address |
| `CaterinaLoader.AddressObeyed` | caterina-lilypadusb/Caterina.c:505-690 | the command bytes A and two more set the address, change no memory and are answered by 0x0D |
| `CaterinaLoader.UnknownMemory` | caterina-lilypadusb/Caterina.c:276-287 | a block command for a memory other than E and F is answered by a question mark, and changes neither the memories nor the address |
| `CaterinaLoader.Loader.WriteImage` | caterina-lilypadusb/Caterina.c:267-690 | consecutive block commands, each answered, write the model's sequence of blocks, the address moving on by exactly their length |
| `CaterinaLoader.Loader.ReadImage` | caterina-lilypadusb/Caterina.c:267-690 | consecutive read commands give the host, through the packets of their replies, consecutive bytes of flash |
| `CaterinaLoader.Loader.WriteThenRead` | caterina-lilypadusb/Caterina.c:267-690 | address, block writes, address again and reads of any even sizes that cover the image, every command run to the end of its reply, return the image first; flash holds it byte by byte, 0xFF up to the end of its last page, and the rest of both memories is as before |
| `CaterinaLoader.Loader.WriteThenReadEeprom` | caterina-lilypadusb/Caterina.c:267-690 | address, EEPROM block of any size, address again and read return the block to the host, the rest of both memories unchanged |
| `Replies.RespondKeeps` | caterina-lilypadusb/Caterina.c:415-435 | packets already sent are full and, with the bank, hold exactly the bytes answered so far |
| `Replies.HostReadsFull` | caterina-lilypadusb/Caterina.c:664-690 | a host reads through full packets and goes on with what follows |
| `Replies.ReplyRoundTrip` | caterina-lilypadusb/Caterina.c:415-690 | for every reply all packets but the last have 16 bytes, the last has fewer, and a host reading up to a short packet gets exactly the reply |
| `Replies.NextReply` | caterina-lilypadusb/Caterina.c:415-690 | a reply after others follows their packets, is read whole from there, and leaves the bank empty |
| `I2cBus.FromBitsOf` | examples/I2C/I2cMaster/I2cMaster.cpp:47-133 | a byte sent most significant bit first and shifted in again is the same |
| `I2cBus.BitsAreNumber` | examples/I2C/I2cMaster/I2cMaster.cpp:47-133 | bits, first one most significant, make the byte of the number they stand for in base two, and the bits sent for a byte stand for it |
| `I2cBus.ConditionsAreHighChanges` | examples/I2C/I2cMaster/I2cMaster.cpp:90-105 | on any trace at all the decoder reports a start or stop condition for each change of SDA while SCL is high, and no other |
| `I2cMaster.CallDecodes` | examples/I2C/I2cMaster/I2cMaster.cpp:47-133 | each call, from a bus at rest, decodes to its meaning and leaves the bus at rest |
| `I2cMaster.TraceDecodes` | examples/I2C/I2cMaster/I2cMaster.cpp:47-133 | every legal sequence of calls decodes to exactly its starts, repeated starts, bytes, acknowledge bits and stops, in order |
| `I2cMaster.ChangesAreConditions` | examples/I2C/I2cMaster/I2cMaster.cpp:77-105 | over every legal sequence of calls SDA changes while SCL is high exactly at the start and stop conditions |
| `SoftI2c.MaskBits` | examples/I2C/I2cMaster/I2cMaster.cpp:114-121 | the shifting mask selects the bits from the most significant down and is zero after the eighth |
| `SoftI2c.Master.constructor` | examples/I2C/I2cMaster/I2cMaster.cpp:32-39 | both lines are released |
| `SoftI2c.Master.SendBits` | examples/I2C/I2cMaster/I2cMaster.cpp:114-121 | the loop puts the bits of the byte on the bus in order |
| `SoftI2c.Master.Write` | examples/I2C/I2cMaster/I2cMaster.cpp:114-133 | the lines of a write, and whether the slave acknowledged |
| `SoftI2c.Master.Start` | examples/I2C/I2cMaster/I2cMaster.cpp:90-95 | the lines of a start condition and an address |
| `SoftI2c.Master.Restart` | examples/I2C/I2cMaster/I2cMaster.cpp:77-82 | the lines of a repeated start |
| `SoftI2c.Master.Stop` | examples/I2C/I2cMaster/I2cMaster.cpp:98-105 | the lines of a stop condition |
| `SoftI2c.Master.ReceiveBits` | examples/I2C/I2cMaster/I2cMaster.cpp:47-59 | the loop samples the slave's bits in order and assembles them |
| `SoftI2c.Master.Read` | examples/I2C/I2cMaster/I2cMaster.cpp:47-69 | returns the byte the slave sent, and the lines of a read with the chosen acknowledge bit |

## Left out

- Hardware access: SPI, USART, GPIO, watchdog and sleep registers, delays, interrupt masking and start-up timing. Radio modes and line levels are state instead.
- Radio sync detection, interference with a byte before the sync pattern, and a listener so late that its radio loses bytes.
- Rf12Power.Inside: what the watchdog variant does after a byte was stored behind its buffer.
- Rf12.SendStart: a payload longer than 66 bytes, beyond the documented range, is the caller's error. What becomes of the program whose memory an encrypted payload of 65 or 66 bytes overwrites is not modelled; no driver variable is assumed to lie there.
- `rf12_sleep`, `rf12_onOff`, `rf12_config` and the older send variants of RF12x.cpp, which add configuration only.
- Rf12PowerNode.PowerNode.StartReception: the signal-strength search (`drssi`) and its radio commands, here and in the interrupt.
- The watchdog variant's `rf12_onOff`, which switches the radio behind the power register's back, and its bit rate setting.
- Easy-send: wrap-around of the millisecond clock, and any claim that an acknowledgement proves delivery of the current payload, since acknowledgements carry no sequence number.
- `Scheduler::pollWaiting`, which combines the modelled sleep with the modelled poll.
- Scheduler.Timed: task numbers outside the table, which the code does not check.
- Scheduler.Tasks.Timer: likewise.
- Scheduler.Tasks.Cancel: likewise.
- Memory plug: I2C addressing and write timing; a plug is a map from page numbers to pages.
- Parser messages to the serial port, and what a command does: it is given the parser's state as it starts.
- CommandReader.Reader.Poll: the characters `.` and `:` write two or four bytes without checking for room; the model requires the memory to exist (`Fits`), as an input outside it has no defined result.
- Dfu.Bootloader.DownloadFlash: an odd start, at which the source does not say what the page buffer does, and ranges beyond the flash.
- Dfu.Bootloader.ProgramFlash: likewise.
- DFU filler and suffix bytes, secure mode (off in the source), blank check, chip erase, application start, status requests and zero-length downloads.
- USB endpoints beyond byte streams and 16-byte banks: host timing, detach.
- Other Caterina commands (identification, lock bits, single-word access) and its start-up timer. Its block loop is one loop with tests inside; here it is a loop per direction and memory.
- CaterinaLoader.Loader.ReadWriteMemoryBlock: addresses and block sizes beyond the memories are required away, since the hardware's behaviour there is not in the source.
- SoftI2c.Master.Read: clock stretching and a slave that changes its line while the clock is high.
- Hardware I2C (`TwiMaster`) and `PortI2C`, whose `read` issues a stop that callers repeat.
- The repository's other projects (displays, keyboards, lights, web server, sensor plugs) and the library sources they bring along.
