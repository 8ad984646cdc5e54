# JT/T 808 terminal and service: a verified model

A Dafny 4.11 model of the parts of this C++ implementation of JT/T 808 on which the
service and the terminal must agree, with proofs of what they guarantee. Everything is
checked by `dafny verify dfyconfig.toml`; nothing is executed. Paths below are relative to
the repository.

## What is modelled

**Framing** (`Bytes`, `Framing`, `Messages`). Network byte order, the exclusive-or check
byte, escaping in place over arrays, the tail of the packer and the head of the parser. Both
sides process one byte too many on purpose: the packer escapes a trailing zero that the
closing flag then replaces, the parser unescapes one byte behind the flag. `Messages.Message`
keeps the write pointer, the size and the 10-bit length as separate fields, as the packers
do, so that a packer's accounting error shows in its contract.

**Upgrade transfer** (`UpgradeWire`, `IdSets`, `UpgradeTerminal`, `UpgradeJob`,
`UpgradeSafety`, `UpgradeRecovery`, `UpgradeLimits`, `UpgradeAltered`, `UpgradeDamage`,
`UpgradeAsking`, `UpgradeMended`, `UpgradeHeld`, `ResendWire`, `UpgradeService`, `UpgradeDialogue`,
`UpgradeCompletion`, `UpgradeTransfer`, `UpgradeRepair`).
The service cuts a file into numbered packets; the terminal keeps them in a map, asks for the
missing ones and assembles the file. The terminal's branch is a class whose methods are proved
against a step function; runs are sequences of arrivals: any packets in any order, repeated,
lost, or damaged frames. The service's sending loop and `CheckPacketComplete` with the loop
around it are a class proved against functions on a link, whose inbox is the sequence of what
each receive brings. `UpgradeTransfer` runs the two together over a line that may alter or
lose each packet.

The service sends one packet at a time and waits for its answer. What it can bring about is
therefore less than what the terminal can take: on the service's own line a lost packet ends
the transfer, and a packet altered in any byte but those of its id, package bit and sequence
number spoils it without a word more (`UpgradeTransfer.TransferWorksExactlyWhen`). An altered
sequence number can mend itself, if it is the number of a packet still to come
(`UpgradeMended.MendedExactlyWhen`). What any alteration of any byte does is
`UpgradeTransfer.SendingWorksExactlyWhen`. The recovery theorems are about the terminal and any
sender that goes on after a loss.

**Terminal parameters** (`Text`, `Parameters`, `ParameterReply`, `ParameterDialogue`,
`ParameterFile`, `IdRequest`). Typed values kept as text, set over the wire, printed, cut
greedily into reply packets, collected by the service, and kept in a file.

**Areas and routes** (`Areas`, `AreaEncoder`, `AreaDecoder`, `AreaStore`, `AreaLaws`,
`AreaTransfer`, `AreaExact`, `AreaLayout`, `AreaMisread`, `AreaFile`, `AreaParser`, `AreaFileLaws`). Wire
format, the terminal's list of each kind as a finite map, and the text file. The four kinds
are one datatype whose shape differs, because the four pieces of source code differ in
nothing else; an optional field is present exactly when the attribute's bit says so.

**Packed decimals** (`Bcd`, `Devices`). Digit strings to bytes and back, the writer that is
meant to drop a leading zero, and the service's search for the device a frame is from.

## Where the code departs from what it is for

The model keeps the code as it is. Each departure is stated by a lemma that says exactly when
the code does what it is for; what such a lemma does not range over stands under "Left out".

- The declared packet total is `len / max + 1` (`service/jt808_service.cc:2052-2053`), one too
  many for a multiple of `max`; a file below one chunk travels without the package bit and
  meets a map that was never made (`terminal/jt808_terminal.cc:738-754`). Together:
  `UpgradeLimits.LosslessTransferWorksExactlyWhen`.
- A resend request is counted one byte for every id though it writes two
  (`terminal/jt808_terminal.cc:465-466`): `ResendWire.RequestArrivesExactlyWhen`, beside
  `ResendWire.MeantRequestArrives` for the request counted as meant.
- A damaged packet's number, as it is read, is put on the list of missing packets before there
  is a list (`terminal/jt808_terminal.cc:747`), and the terminal then awaits that number. Over a
  line that alters any one byte of any packet or loses it, the terminal writes the file exactly
  if every packet arrives whole, and asks for packets exactly if the number it awaits comes
  (`UpgradeAsking.TerminalWorksExactlyWhen`, both sides in
  `UpgradeTransfer.SendingWorksExactlyWhen`). Where numbers are left alone it never comes
  (`UpgradeDamage.DamagedTransferWorksExactlyWhen`, the smallest failing run is
  `UpgradeDamage.FirstPacketAltered`); an altered number is mended exactly if it is that of a
  later packet (`UpgradeMended.MendedExactlyWhen`, the smallest run is
  `UpgradeMended.FirstNumberAltered`).
- `CheckPacketComplete` tests for completion on entry only, and its `break` after a request
  leaves the receiving loop. A transfer is seen to be complete exactly when the counter equals
  the total after sending or at the moment a request is taken
  (`UpgradeCompletion.CompletionSeenExactlyWhen`). The forms a caller can check are
  `UpgradeCompletion.QuietCompletion` for no request and `UpgradeCompletion.OneRequestCompletion`
  for one; the acknowledgements of what is then resent are never compared, so that a repair can
  succeed on both sides and the service still not see it (`UpgradeRepair.RepairSucceedsUnseen`).
- A pass over the packet map serves only the ascending front of the list
  (`service/jt808_service.cc:1994-2019`): `UpgradeDialogue.PassesAreAscendingRuns`, and what the
  service does with a list of any shape, `UpgradeRepair.ServeTakesPasses`.
- A split parameter reply declares `total / 1020 + 1` packets, but the greedy cut may make fewer
  or more (`terminal/jt808_terminal.cc:663-709`): `ParameterDialogue.QueryCompletesExactlyWhen`.
- Rectangles are counted ten bytes short in the header (`service/jt808_service.cc:592`):
  `AreaEncoder.LengthFieldExactlyWhen`; the terminal does not look at that field, and
  `AreaTransfer.SetArrives` holds all the same.
- The polygon and route decoders read the two header bytes twice
  (`terminal/jt808_area_route.cc:634-635`, `:700-701`). No request to append polygons or routes
  is ever stored as it was sent (`AreaMisread.NeverStoredAsSent`), and under no operation are
  the areas read that were sent (`AreaMisread.NeverReadAsSent`); when the request is reported
  as failed is `AreaTransfer.HeaderReadTwice`. For the header read once,
  `AreaTransfer.SetArrives` holds of them too.
- The route parser reads widths and driving times as hexadecimal and tests the wrong bit for
  the speed (`terminal/jt808_area_route.cc:256-271`), and a line of more than 1023 bytes does not
  fit the array it is copied to (`:289`, `:301`): `AreaFileLaws.FileRoundTripExactlyWhen`, which
  covers the formats as written and as meant, and `AreaFileLaws.SixtyCornersAreTooLong`.
- The parameter file cannot carry a semicolon, a newline or a zero byte:
  `ParameterFile.FileRoundTripExactlyWhen`.
- Expanding packed decimals loses a leading zero: `Bcd.RoundTripExactlyWhen`.
- Devices are told apart by six bytes of numbers of any length
  (`Bcd.SameBytesExactlyWhen`, `Bcd.ShortNumbersMeet`), which the service writes to an array it
  does not clear between two devices (`service/jt808_service.cc:785`, `:896`): numbers of nine
  digits and more are found as they should (`Devices.LongNumbersAreFound`), a shorter one exactly
  if it is the first or finds zeros behind it (`Devices.FoundExactlyWhen`,
  `Devices.ShortNumberIsMissed`).
- A parameter's size goes through a byte, so a string of 255 bytes is counted as none
  (`Parameters.CountedExactlyWhen`), and the service's pointer, which moves by the count, leaves
  such a text behind unsent (`Parameters.LongTextIsNotSent`).
- An upgrade that breaks off leaves its session open, and nothing but a written file closes it
  (`terminal/jt808_terminal.cc:848-851`). What it holds stays (`UpgradeHeld.HeldUntilTheEnd`): a
  second upgrade of the same total is mixed with the first and written as one file, which is the
  second one exactly if what is held agrees with it (`UpgradeHeld.SecondUpgrade`,
  `UpgradeHeld.InterruptedThenAnother`).
- A packet whose number has been altered to 0 stops the walk that looks for gaps
  (`terminal/jt808_terminal.cc:776-785`), and every packet is asked for again:
  `IdSets.GapsExactly`.

## Model

| member | source | states |
|---|---|---|
| Bytes.SwapIsNetworkOrder16 | common/jt808_util.cc:31-34 | swapping before a store puts the high byte first, swapping after a load reads it back, and swapping twice is nothing, for every 16-bit value |
| Bytes.SwapStores32 | common/jt808_util.cc:36-42 | the same for storing 32 bits |
| Bytes.SwapLoads32 | common/jt808_util.cc:36-42 | the same for loading 32 bits |
| Bytes.MostSignificantFirst | common/jt808_util.cc:31-42 | of any four bytes, which one stands first in network order and which one in the memory of the host |
| Bytes.XorCancels | common/jt808_util.cc:44-50 | exclusive or with a fixed value is injective, on numbers of any width |
| Bytes.XorBit | common/jt808_util.cc:44-50 | a bit of an exclusive or is set exactly if it differs in the two operands, at any position |
| Framing.BccCheckSum | common/jt808_util.cc:44-50 | the loop over a stretch of an array yields the check byte of that stretch |
| Framing.BccIsParity | common/jt808_util.cc:44-50 | what the check byte is: each of its bits is the parity of the number of bytes that have it, so that the check byte of nothing is zero |
| Framing.BccOfFew | common/jt808_util.cc:44-50 | the check byte of no byte is 0, of one byte that byte, of two their exclusive or |
| Framing.BccSeesOneByte | common/jt808_util.cc:44-50 | changing any one byte of any text changes its check byte |
| Framing.OneAlteredByteIsSeen | terminal/jt808_terminal.cc:741-742 | a content with its check byte in which one byte, the check byte included, is altered never checks |
| Framing.EscapedForm | common/jt808_util.cc:52-73 | an escaped text holds no flag byte, every escape byte in it is followed by one of the two codes, and its length is the length plus the number of special bytes |
| Framing.EscapeCodes | common/jt808_util.cc:52-73 | 7E becomes 7D 02, 7D becomes 7D 01, every other byte stays |
| Framing.UnescapeCodes | common/jt808_util.cc:75-97 | the reverse of the two codes, also where a code begins in the last byte given, and an escape byte before any other byte, which stays |
| Framing.UnescapePlain | common/jt808_util.cc:75-97 | a text without escape bytes is left as it is |
| Framing.UnescapeEscape | common/jt808_util.cc:52-97 | unescaping an escaped text and k bytes of anything behind it gives the text and those k bytes unescaped |
| Framing.EscapeInjective | common/jt808_util.cc:52-73 | different texts have different escaped forms |
| Framing.EscapeInPlace | common/jt808_util.cc:52-73 | the stretch of the array is replaced by its escaped form, the new length is returned, and nothing before or behind changes |
| Framing.ReverseEscapeInPlace | common/jt808_util.cc:75-97 | the same for unescaping, including its look at one byte beyond the given length |
| Framing.UnescapeDelimited | terminal/jt808_terminal.cc:506-506 | a frame of any text followed by zeros unescapes to the text, the closing flag and one zero, the byte too many |
| Framing.FrameLength | service/jt808_service.cc:763-771 | a frame of a content of at most 16+1023 bytes is at most 2082 bytes long |
| Framing.FrameDelimitsItself | service/jt808_service.cc:768-771 | in every frame the flag byte stands at the two ends and nowhere else |
| Framing.SampleFrame | service/jt808_service.cc:763-771 | a whole frame byte by byte: the content 01 7E is sent as 7E 01 7D 02 7F 7E |
| Messages.AttributeFields | common/jt808_protocol.h:99-108 | length and package bit are read back from the attribute word for every length below 1024 |
| Messages.PackageBit | common/jt808_protocol.h:99-108 | the package flag is bit 13 and the length the lower ten bits of any attribute word |
| Messages.ParseDelimited | terminal/jt808_terminal.cc:506-514 | parsing any delimited text restores it behind the flag, gives a size two larger, and the check at size-2 over size-3 bytes passes exactly when the text ends in its own check byte |
| Messages.FrameRoundTrip | service/jt808_service.cc:763-771 | every content of at most 16+1023 bytes, packed and parsed, comes back byte for byte with its check byte behind it, and passes the check |
| Messages.TailIsWire | service/jt808_service.cc:763-771 | with the write pointer at size in a zeroed buffer, the closing flag lands directly behind the escaped check byte |
| Messages.TailCutsShort | service/jt808_service.cc:763-771 | for a size short of the pointer by any amount, exactly where the frame ends, and that the check byte is cut off but for an escape byte |
| Messages.Message.Begin | service/jt808_service.cc:352-362 | after the head of the packer text, pointer and size stand at the 12-byte header and the rest of the buffer is zero |
| Messages.Message.SetPackage | service/jt808_service.cc:471-479 | total and sequence go behind the header, pointer and size move by four and the length does not |
| Messages.Message.CloseFrame | service/jt808_service.cc:766-771 | the frame a packer closes for any pointer and size, in step or not |
| Messages.Message.Finish | service/jt808_service.cc:763-771 | with pointer and size in step, the buffer holds the frame of header, package fields and body, with whatever length was counted |
| Messages.Message.Unwrap | service/jt808_service.cc:798-812 | the buffer after the head of the parser is the parsed message |
| UpgradeWire.PackUpgrade | service/jt808_service.cc:470-501 | the packer's branch yields the frame of the upgrade packet, with package fields exactly when the total exceeds one and a length equal to the body's |
| UpgradeWire.HeaderReadBack | terminal/jt808_terminal.cc:507-525 | from any buffer that carries the content: id at byte 1, length and package bit at byte 3, the phone number at bytes 5 to 10, the flow number at byte 11, total and sequence at bytes 13 and 15 |
| UpgradeWire.BodyReadBack | terminal/jt808_terminal.cc:507-514 | the body stands at byte 17 with package fields and at byte 13 without |
| UpgradeWire.WholeArrives | terminal/jt808_terminal.cc:506-514 | a message without package fields arrives with its id and its body in place, whatever length its header claims |
| UpgradeWire.UpgradeReadBack | terminal/jt808_terminal.cc:792-841 | kind, version and data are read back from any buffer that holds the body, and the announced data lies inside it |
| UpgradeWire.UpgradeBodyLies | service/jt808_service.cc:480-497 | where kind, manufacturer, version length, version, data length and data stand, without the readers of the terminal |
| UpgradeWire.LongestData | terminal/jt808_terminal.cc:836-841 | the longest data a packet without a version can announce that lies inside the buffer |
| UpgradeWire.ChunksCoverFile | service/jt808_service.cc:2060-2073 | the chunks concatenate to the file, none is empty or too long, and there are as many as the quotient rounded up |
| UpgradeWire.ChunkAt | service/jt808_service.cc:2069-2073 | chunk k is the stretch of the file the service copies for it |
| IdSets.GapsAreMissing | terminal/jt808_terminal.cc:776-785 | the walk that steps through the map beside a counter finds exactly the absent ids, ascending |
| IdSets.GapsExactly | terminal/jt808_terminal.cc:776-785 | the walk for any map: a packet kept under number 0 stops it, and then every id is asked for again |
| IdSets.PresentPlusMissing | terminal/jt808_terminal.cc:773-774 | ids held and ids missing add up to the total, so the map is full exactly when nothing is missing |
| IdSets.FillingAGap | terminal/jt808_terminal.cc:761-769 | storing a packet and erasing its id from the list keep the list equal to what is missing |
| IdSets.EraseFirst | terminal/jt808_terminal.cc:761-769 | the erasing loop removes the first occurrence of the id and nothing else |
| IdSets.RemoveFirstIs | terminal/jt808_terminal.cc:761-769 | of an id that is on the list more than once the first occurrence goes |
| IdSets.CollectGaps | terminal/jt808_terminal.cc:776-785 | the collecting loop yields the walk's gaps |
| UpgradeTerminal.Terminal.OnFrame | terminal/jt808_terminal.cc:506-868 | the class, on any frame, does what the step function says to the session and appends exactly its outputs |
| UpgradeTerminal.Terminal.OnUpgradePackage | terminal/jt808_terminal.cc:720-868 | the upgrade branch for any parsed message, the null map and list included |
| UpgradeTerminal.Terminal.OnGoodPackage | terminal/jt808_terminal.cc:750-791 | the branch behind a passed check: insert, acknowledge, erase the id, then request, assemble or wait |
| UpgradeTerminal.Terminal.RequestResend | terminal/jt808_terminal.cc:775-789 | the list is filled with the missing ids when it is empty, and the request carries it |
| UpgradeTerminal.Terminal.WriteFile | terminal/jt808_terminal.cc:792-855 | the file is written from the map, or its kind refused, and the session is given up as the code does |
| UpgradeTerminal.CollectData | terminal/jt808_terminal.cc:830-842 | the bytes written for a map walked in key order, or a read outside the buffer |
| UpgradeTerminal.WrongCheckAnswered | terminal/jt808_terminal.cc:741-749 | in any open session: result 2 with the flow number at byte 11, and the number at byte 15, or 0 without package bit, on the list |
| UpgradeTerminal.RightCheckAnswered | terminal/jt808_terminal.cc:750-758 | in any session: result 0 is the first thing sent |
| UpgradeTerminal.FirstFlowStays | terminal/jt808_terminal.cc:735-738 | the flow number of the packet that opened the session stays, and every request names it and the list as it is kept |
| UpgradeTerminal.KindAndVersionTested | terminal/jt808_terminal.cc:797-828 | what the complete branch makes of kind and version of packet 1 in any session: more than sixteen characters overrun their array, and kinds other than 00, 0C and 34 are refused with result 3 |
| UpgradeHeld.FirstPacketStays | terminal/jt808_terminal.cc:751-756 | after any frame in any open session: a number that is held keeps the packet that came first, and a whole packet with another number is stored |
| UpgradeHeld.WholePacket | terminal/jt808_terminal.cc:750-855 | all that one whole packet does in any open session, by its words and the numbers held: acknowledgement, list, request, file and fault |
| UpgradeHeld.HeldUntilTheEnd | terminal/jt808_terminal.cc:720-868 | over any frames: what is held is held until the session ends |
| UpgradeHeld.SecondUpgrade | terminal/jt808_terminal.cc:720-868 | a second upgrade of the same total in a session the first one left open: the file has the first one's pieces for the numbers held and the second one's for the others, and it is the second file exactly if what is held agrees with it |
| UpgradeHeld.InterruptedThenAnother | terminal/jt808_terminal.cc:720-868 | from a clean terminal, i packets of one upgrade and then another one whole: the first i pieces of the one, and the rest of the other |
| UpgradeJob.DeclaredVersusSent | service/jt808_service.cc:2052-2053 | the declared total equals the packets sent exactly when the last chunk is not full, and else exceeds it by one |
| UpgradeJob.SendableExactlyWhen | service/jt808_service.cc:2041-2067 | which files and versions the theorems about jobs range over |
| UpgradeJob.BodiesAreFull | service/jt808_service.cc:2041-2073 | every packet but the last has a body of exactly 1023 bytes, the last one what is left, and the declared total is the quotient by 1012 less the version's length, and one |
| UpgradeJob.PacketLies | service/jt808_service.cc:470-501 | which bytes of packet k stand where in a parsed buffer, from the id 8108 to the piece of the file, by the file's length and the version's alone |
| UpgradeJob.PacketReadBack | terminal/jt808_terminal.cc:726-739 | what the terminal reads from a buffer that carries packet k of a job |
| UpgradeJob.FrameArrives | service/jt808_service.cc:763-771 | every packet of a sendable job survives framing and parsing, and its check passes |
| UpgradeJob.OneAlteredByteIsDamage | terminal/jt808_terminal.cc:741-742 | a packet with one altered byte is among the damaged arrivals the runs range over |
| UpgradeJob.DamageIsSeen | terminal/jt808_terminal.cc:741-749 | no damaged frame passes the terminal's check |
| UpgradeSafety.FullMapAssembles | terminal/jt808_terminal.cc:836-842 | a map of genuine packets with as many entries as pieces is walked 1 to n and assembles to the pieces in order |
| UpgradeSafety.AssembleGenuine | terminal/jt808_terminal.cc:790-868 | the complete branch on genuine packets writes the very file, version and kind that were sent, or refuses an unknown kind |
| UpgradeSafety.IntactStep | terminal/jt808_terminal.cc:720-868 | an intact packet keeps the map genuine, and any file written is the file sent |
| UpgradeSafety.DamagedStep | terminal/jt808_terminal.cc:741-749 | a damaged frame leaves the map as it was and completes nothing |
| UpgradeSafety.RunIsSafe | terminal/jt808_terminal.cc:720-868 | over every run of intact packets in any order, repeated or lost, and damaged frames, the map only holds genuine packets and whatever is written is the whole file |
| UpgradeRecovery.SmallestProperFile | service/jt808_service.cc:2041-2067 | the recovery theorems are about something: 1013 bytes without a version are two packets, and a clean terminal satisfies the invariant |
| UpgradeRecovery.ListAndMapShareTheIds | terminal/jt808_terminal.cc:773-786 | once a request is out, the list is strictly ascending, holds exactly the ids the map lacks, and is not empty before the file is complete |
| UpgradeRecovery.ProperStep | terminal/jt808_terminal.cc:720-868 | what each intact packet does to map, list and outputs, in every state of the invariant |
| UpgradeRecovery.InvariantOverRuns | terminal/jt808_terminal.cc:751-789 | over every run of intact packets the terminal never faults and every state it reaches satisfies the invariant |
| UpgradeRecovery.QuietUntilTheTrigger | terminal/jt808_terminal.cc:759-773 | until the awaited packet comes, every arrival is acknowledged and nothing else is sent or written |
| UpgradeRecovery.ListedPacketsComplete | terminal/jt808_terminal.cc:759-791 | delivering the requested packets in order completes the file on the last of them and not before |
| UpgradeRecovery.OneRound | terminal/jt808_terminal.cc:759-791 | any arrivals and then the awaited packet end in the whole file, or in a request for exactly what is still missing |
| UpgradeRecovery.RecoveryInOneRound | terminal/jt808_terminal.cc:773-791 | whatever packets but the last are lost, the last one triggers a request for exactly the missing ids in order, and delivering those completes the file |
| UpgradeRecovery.RecoveryConverges | terminal/jt808_terminal.cc:759-791 | if later rounds lose packets too, the file is complete within as many rounds as packets were missing |
| UpgradeLimits.OverDeclaredNeverCompletes | service/jt808_service.cc:2052-2053 | with one packet too many declared, no run whatever ever writes a file |
| UpgradeLimits.SmallFileFaults | terminal/jt808_terminal.cc:738-754 | the only packet of a file below one chunk finds no map |
| UpgradeLimits.ProperFileArrives | service/jt808_service.cc:2060-2099 | in order over a lossless line there is one success for every packet and then the file |
| UpgradeLimits.LosslessTransferWorksExactlyWhen | service/jt808_service.cc:2052-2053 | over a lossless line the file is written exactly when it is longer than 1012 bytes less the version's length and no multiple of that |
| UpgradeLimits.FullPacketNeverArrives | service/jt808_service.cc:2052-2053 | the concrete case: 1012 bytes without a version are one packet, declared as two, and never written |
| UpgradeLimits.FaultsExactlyWhen | terminal/jt808_terminal.cc:738-785 | an arrival leaves the terminal in undefined behaviour exactly when it is an upgrade frame without package bit and no session is open, or when 0xFFFF packets are declared and it empties the list, after which the collecting loop never ends |
| UpgradeLimits.LostPackageBitFaults | terminal/jt808_terminal.cc:738-747 | one altered byte, the package bit of the first packet, is enough for that |
| UpgradeAltered.AlteredStep | terminal/jt808_terminal.cc:506-749 | one altered byte of a packet, wherever it is: with another id nothing happens to the session; without the package bit zero is queued, or a null list is followed; else the number that is read is queued and the error reported under the flow number that is read |
| UpgradeDamage.LineStep | terminal/jt808_terminal.cc:738-789 | over packets sent once and in order, what each whole packet, or one altered without touching id, package bit and sequence number, does to session and outputs: once one was altered, whole packets are only acknowledged |
| UpgradeDamage.DamagedTransferWorksExactlyWhen | terminal/jt808_terminal.cc:738-791 | packets sent once and in order, each whole or altered in one byte that is not of its id, package bit or sequence number, write the file exactly when none is altered; the terminal never asks for one again and ends waiting, with exactly the altered numbers on its list |
| UpgradeDamage.FirstPacketAltered | terminal/jt808_terminal.cc:741-749 | the concrete case: of two packets the first has its kind byte altered, and no file and no request follow |
| UpgradeAsking.TerminalWorksExactlyWhen | terminal/jt808_terminal.cc:720-791 | for every line that alters any one byte of any packet, or loses the packet: a null list is followed exactly if the first packet to arrive has lost its package bit; else the file is written exactly if every packet arrives whole, and packets are asked for exactly if one does not and the awaited number comes, the last one queued or else the last packet |
| UpgradeMended.MendedExactlyWhen | terminal/jt808_terminal.cc:744-791 | with packet k altered in what is read as q and all others whole, the terminal asks for anything exactly if q is a later packet, and then it ends by asking for exactly packet k, which completes the file |
| UpgradeMended.FirstNumberAltered | terminal/jt808_terminal.cc:744-791 | the concrete case: of three packets the first is read as the second, and is asked for again in the end |
| ResendWire.PackResend | terminal/jt808_terminal.cc:454-478 | the branch yields the frame its short size makes, for every list that fits the buffer |
| ResendWire.ReadRequest | service/jt808_service.cc:1058-1069 | the service appends as many ids as the count byte says to its list, from a body that starts four bytes later in a packaged frame |
| ResendWire.RequestedFrom | service/jt808_service.cc:1058-1069 | the count at byte 15 and the ids from byte 16 on, four bytes later with package fields |
| ResendWire.MeantRequestArrives | service/jt808_service.cc:1058-1069 | counted as meant, the service reads the first n mod 256 of n ids, so all of them exactly below 256 |
| ResendWire.RequestHeadArrives | terminal/jt808_terminal.cc:454-467 | as written, for every list: id, counted length, phone number, flow number, the first flow number behind the header and the count are found |
| ResendWire.ShortRequestArrives | terminal/jt808_terminal.cc:465-478 | as counted, the bytes up to the middle of the ids arrive, and then a flag, or an escape byte, a flag, a zero and what the frame holds there |
| ResendWire.RequestArrivesExactlyWhen | terminal/jt808_terminal.cc:465-478 | as counted, the service reads the ids sent, whatever they are, exactly when there is at most one, or when what stands in the frame behind the cut is what was sent: two of which the second ends in the escape byte, 0x7D7E as the third of three, an escape byte at the end of the third and 0x7E00 as the fourth of four, and for longer lists also the rest |
| ResendWire.LongListsAreCut | terminal/jt808_terminal.cc:465-478 | an ascending list of more than four that arrives is even, and has an escape byte and 0x7E00 behind its middle |
| ResendWire.TwoLostPacketsMisread | terminal/jt808_terminal.cc:465-478 | the concrete case: a request for 1 and 2 is read as 1 and 126 |
| UpgradeService.Service.Receive | service/jt808_service.cc:814-824 | one receive: the success counter and the id list after any event |
| UpgradeService.TakeIs | service/jt808_service.cc:814-824 | what any received frame changes: the counter for result 0 to an upgrade packet where a total was declared, the list for a request, nothing else |
| UpgradeService.Service.AwaitAck | service/jt808_service.cc:2081-2092 | the waiting loop goes on to the next acknowledgement of an upgrade packet or the end of the connection |
| UpgradeService.AwaitGoesTo | service/jt808_service.cc:2081-2092 | the wait takes everything up to the first answer to an upgrade packet, whatever its result |
| UpgradeService.AwaitInVain | service/jt808_service.cc:2081-2092 | without one it ends in a closed connection and an unchanged counter |
| UpgradeService.Service.MergePass | service/jt808_service.cc:1994-2019 | one pass over the packet map sends and erases what the merge of map and list says |
| UpgradeService.Service.CheckPacketComplete | service/jt808_service.cc:1970-2024 | completion on entry, and else one receive with a request queued or a merge pass |
| UpgradeService.AnyFrameWillDo | service/jt808_service.cc:1978-2019 | a pass is made after any frame but a request, as after a receive that timed out |
| UpgradeService.Service.FinishUpgrade | service/jt808_service.cc:2100-2102 | the loop of calls: the link it leaves and whether it ends with completion or a closed connection |
| UpgradeService.Service.SendFile | service/jt808_service.cc:2052-2099 | the sending loop declares the total, sends every packet in order and ends with a packet map of all of them |
| UpgradeService.SendsAsAnswered | service/jt808_service.cc:2060-2099 | over any events: the packets are sent in order, one more than there are answers to upgrade packets while there are packets, and the connection stays open exactly if every packet is answered |
| UpgradeService.Service.SendPacket | service/jt808_service.cc:2073-2096 | one packet is packed, stored in the map, sent and waited for |
| UpgradeDialogue.MergeSendsMatched | service/jt808_service.cc:1994-2019 | with every packet acknowledged, a pass sends the matched front of the list in its order and takes exactly that front off |
| UpgradeDialogue.MatchedIsLongestFront | service/jt808_service.cc:1994-2019 | a walk over any map matches the longest strictly ascending front of the list whose ids are in the map |
| UpgradeDialogue.OnePassTakesAscendingFront | service/jt808_service.cc:1994-2019 | the same for the whole map, and a pass makes progress whenever the first id is in it |
| UpgradeDialogue.PassesAreAscendingRuns | service/jt808_service.cc:1994-2019 | the number of passes that empty a list is its number of maximal ascending stretches |
| UpgradeDialogue.SendingCounts | service/jt808_service.cc:2060-2097 | with one success for each packet the counter ends at the number of packets |
| UpgradeDialogue.AllAcknowledged | service/jt808_service.cc:1972-1975 | completion is then seen at once exactly when the last chunk is not full |
| UpgradeDialogue.LosslessDialogue | service/jt808_service.cc:2041-2102 | both sides: the terminal writes the file, and its own responses make the service send everything and see completion |
| UpgradeDialogue.LossIsRepaired | service/jt808_service.cc:1994-2019 | if the terminal's list stands at the service and the packets are acknowledged, one pass resends exactly those packets in order, and they complete the file at the terminal |
| UpgradeDialogue.RequestReachesService | terminal/jt808_terminal.cc:454-467 | the terminal's list reaches the service whole as meant up to 255 ids, and as counted exactly when the cut does no harm, so always for one |
| UpgradeDialogue.RepairGoesUnnoticed | service/jt808_service.cc:1972-2021 | whatever acknowledgements still come and whatever is still to be resent, without a further request a call of CheckPacketComplete ends in a closed connection |
| UpgradeCompletion.ServeExactlyWhen | service/jt808_service.cc:1978-2021 | with nothing to resend, a call leaves the connection open exactly when a request comes; it ends with the first one, acknowledged and its ids on the list |
| UpgradeCompletion.CompletionSeenExactlyWhen | service/jt808_service.cc:2100-2102 | over the whole loop of calls, completion is seen exactly when the counter equals the total after sending, or just when a request is taken |
| UpgradeCompletion.QuietCompletion | service/jt808_service.cc:2100-2102 | without a request, completion is what the counter says when the packets have been sent, whatever still comes |
| UpgradeCompletion.NeverWithoutTotal | service/jt808_service.cc:1972-1975 | where no total was declared the loop of calls never ends as complete |
| UpgradeCompletion.OneRequestCompletion | service/jt808_service.cc:1983-2021 | with one request, the counter is compared as it stands when the request comes; the acknowledgements of the resent packets are never compared |
| UpgradeCompletion.RequestInsideAWait | service/jt808_service.cc:2003-2013 | the concrete case: a request that comes while a resent packet is waited for is neither acknowledged nor served |
| UpgradeTransfer.SendingWorksExactlyWhen | service/jt808_service.cc:2060-2099 | both sides over a line that may alter any one byte of each packet or lose it, when the sending loop has ended: the file has been written, and completion is seen at once, exactly if every packet arrived whole; something has been asked for exactly if an awaited number came; the connection is open exactly if every packet was answered |
| UpgradeTransfer.TransferWorksExactlyWhen | service/jt808_service.cc:2060-2102 | the same with id, package bit and sequence number left alone, up to the end of the loop that waits for completion: the file is written, and completion seen, exactly when every packet arrives whole; the connection stays open exactly when none is lost; the terminal never asks for a packet again |
| UpgradeTransfer.ServiceSends | service/jt808_service.cc:2060-2099 | unless the first packet loses its package bit, the service's side of that run is its sending loop on the answers and requests the terminal gives |
| UpgradeRepair.RepairSucceedsUnseen | service/jt808_service.cc:1970-2024 | both sides of a repair, from the frame of the request on: the service resends exactly the listed packets in order, they complete the file at the terminal, its answers are all counted, and the loop still ends in a closed connection without completion, even if the counter reaches the total by them |
| UpgradeRepair.ServeTakesPasses | service/jt808_service.cc:1978-2021 | for a list of any shape and so many quiet receives with their answers: the service has resent the list in order up to what is left, and the list is empty exactly after more passes than it has descents |
| Text.ReadsBack | terminal/jt808_terminal_parameters.cc:75-76 | printing and scanning invert each other in every base from 2 to 16, whatever follows the number |
| Text.DigitCharacters | terminal/jt808_terminal_parameters.cc:75-76 | the characters of the sixteen digits in both cases, and which characters count as digits |
| Text.DecUnfolds | terminal/jt808_area_route.cc:328-337 | a printed decimal number is the one without its last digit and that digit |
| Text.HexUnfolds | terminal/jt808_area_route.cc:328-337 | the same in hexadecimal |
| Text.DecReadAsHex | terminal/jt808_area_route.cc:256-268 | what %x makes of a number printed with %u |
| Text.MisreadByte | terminal/jt808_area_route.cc:256-257 | a byte printed in decimal and read in hexadecimal is right exactly below ten |
| Text.MisreadWord | terminal/jt808_area_route.cc:264-269 | the same for a word |
| Parameters.PutItem | terminal/jt808_terminal.cc:325-370 | one item of any type and any length: its bytes are written, and size and length grow by a count that has passed through a byte |
| Parameters.CountedExactlyWhen | service/jt808_service.cc:439-452 | that count is right exactly for numbers and for strings of less than 255 bytes |
| Parameters.KindRanges | common/jt808_terminal_parameters.cc:18-48 | the ids of each type, as ranges |
| Parameters.CanonicalExactlyWhen | terminal/jt808_terminal.cc:337-365 | which texts the theorems on parameters range over: printed numbers that fit and strings of at most 254 bytes without a zero |
| Parameters.PayloadOfNumber | service/jt808_service.cc:413-438 | one, two and four bytes of a printed number, most significant first |
| Parameters.PackSet | service/jt808_service.cc:394-452 | the packer's branch for any texts, whole or as one packet of several: the buffer with each item written where the pointer stands, which moves by what the item is counted for, and with strings of less than 255 bytes the frame of the body |
| Parameters.LongTextIsNotSent | service/jt808_service.cc:439-446 | a set request with one string of 255 bytes sends its id, and neither its length nor its text |
| Parameters.PackReply | terminal/jt808_terminal.cc:315-372 | the same for a reply |
| Parameters.ValueRoundTrip | terminal/jt808_terminal_parameters.cc:107-139 | storing the bytes of a canonical text gives that text, for every type |
| Parameters.StoredIs | terminal/jt808_terminal_parameters.cc:107-139 | the text stored for any bytes of each type |
| Parameters.ParameterStore.DealSetParameters | terminal/jt808_terminal.cc:604-631 | the loop's result and map for any bytes: failure on an empty map unless there is nothing to set, else all items applied in order |
| Parameters.ApplyKeepsKeys | terminal/jt808_terminal_parameters.cc:107-139 | no message, well formed or not, adds or removes an id |
| Parameters.SetStores | terminal/jt808_terminal.cc:610-623 | items where they lie in a buffer are stored in order with their texts, those whose id is not there passed over |
| Parameters.ItemInsideExactlyWhen | terminal/jt808_terminal.cc:614-621 | an item is dealt with exactly if it ends within the buffer |
| Parameters.DealReply | service/jt808_service.cc:939-972 | the service's reading loop, for any bytes |
| Parameters.ReadIs | service/jt808_service.cc:948-968 | the text read from any bytes of each type |
| Parameters.ReplyReads | service/jt808_service.cc:939-972 | items that lie in a buffer are collected with exactly their texts, the first of an id prevailing |
| ParameterReply.SplitReply | terminal/jt808_terminal.cc:653-713 | the nested loops yield the greedy packets, the declared total in 16-bit arithmetic and the sequence numbers |
| ParameterReply.DeclaredTotalIs | terminal/jt808_terminal.cc:663-667 | the declared total d of t bytes, in 16 bits: none up to 1020, and else 1020 * (d - 1) <= t < 1020 * d |
| ParameterReply.PartOfFew | terminal/jt808_terminal.cc:315-324 | a total of none or one is not announced, one of two is |
| ParameterReply.ItemSizes | terminal/jt808_terminal.cc:653-662 | the bytes an item of each type is counted for |
| ParameterReply.SplitCovers | terminal/jt808_terminal.cc:673-709 | the packets concatenate to the list, none is empty, and each stays within 1020 bytes |
| ParameterReply.FillIsGreedy | terminal/jt808_terminal.cc:675-687 | a packet is filled up to the first item that would not fit |
| ParameterReply.SplitCountBounds | terminal/jt808_terminal.cc:653-709 | with items of at most 260 bytes there are between ceil(T/1020) and (T-1)/761+1 packets |
| ParameterReply.ReplyFrameArrives | service/jt808_service.cc:927-972 | every reply packet arrives with its flow number, the answered flow number in front of its count, its package fields, and its items |
| ParameterDialogue.SetArrives | terminal/jt808_terminal.cc:604-623 | a framed set message arrives under id 8103 with its count, and stores exactly the texts of its items whose ids are there |
| ParameterDialogue.UpdatedIs | terminal/jt808_terminal_parameters.cc:107-139 | items with different ids leave their texts, every other value and the set of ids as they were |
| ParameterDialogue.PrepareIdList | terminal/jt808_terminal_parameters.cc:87-105 | the ids of a query exactly if all of them are there |
| ParameterDialogue.CollectReplies | service/jt808_service.cc:1115-1145 | the service's waiting loop over any frames: replies are collected, frames of another id ignored |
| ParameterDialogue.OtherFrames | service/jt808_service.cc:1115-1145 | a frame of another id is passed over; a reply adds its items, and the wait goes on as long as total and sequence differ, its own or, without package bit, those before it |
| ParameterDialogue.QueryOutcome | service/jt808_service.cc:1130-1132 | what a query brings in every case: nothing while fewer packets come than declared, else the items of as many packets as declared |
| ParameterDialogue.RepliesAreNumbered | terminal/jt808_terminal.cc:663-709 | every frame of a reply: its flow number, the answered one, and, of a split reply, the total t / 1020 + 1 with a sequence that counts up to it and stays there |
| ParameterDialogue.QueryCompletesExactlyWhen | terminal/jt808_terminal.cc:663-709 | a query for different ids brings all their texts exactly when the greedy cut makes one packet of up to 1020 bytes, and of more as many as the quotient by 1020 and one |
| ParameterDialogue.FullPacketsNeverComplete | terminal/jt808_terminal.cc:663-667 | when every packet is exactly full the service waits for one more |
| ParameterDialogue.EightLongTextsNeverComplete | terminal/jt808_terminal.cc:663-667 | the concrete case: eight strings of 250 bytes make two packets, three are declared, and the service never gets its answer |
| ParameterDialogue.SixLongTextsComplete | terminal/jt808_terminal.cc:663-709 | the concrete case: six strings of 245 bytes make a packet of four and one of two, two are declared, and every text comes |
| ParameterDialogue.ShortAnswerCompletes | terminal/jt808_terminal.cc:663-709 | an answer that fits one packet always completes, with every text |
| ParameterDialogue.SetThenGet | terminal/jt808_terminal.cc:604-713 | setting and then asking: ids and unset values are kept, and a complete answer gives the set text for every id set and the old text for the others |
| ParameterFile.WriteFile | terminal/jt808_terminal_parameters.cc:62-85 | the writing loop's bytes, and -1 for an empty map |
| ParameterFile.SampleLines | terminal/jt808_terminal_parameters.cc:73-77 | two lines byte by byte, one with a padded id and one with a longer id and no text |
| ParameterFile.ReadFile | terminal/jt808_terminal_parameters.cc:37-59 | the reading loop's map for any bytes, and -1 when it stays empty |
| ParameterFile.WhereReadingEnds | terminal/jt808_terminal_parameters.cc:49-54 | an empty line ends the reading, and the last line needs no newline |
| ParameterFile.OtherLines | terminal/jt808_terminal_parameters.cc:49-54 | lines the writer does not write: without a number, without a colon, with something behind the semicolon or behind a zero |
| ParameterFile.LineReadsBack | terminal/jt808_terminal_parameters.cc:49-77 | a line is read back as its id and text, whatever follows, for every 32-bit id |
| ParameterFile.FileRoundTripExactlyWhen | terminal/jt808_terminal_parameters_test.cc:43-51 | writing and reading gives the same map exactly when no text holds a zero, a newline or a semicolon |
| IdRequest.PackIds | service/jt808_service.cc:737-750 | the loop yields the frame of a count byte and the ids, with size and length in step |
| IdRequest.IdsArrive | service/jt808_service.cc:451-462 | every such request of up to 255 ids is parsed as it was sent |
| AreaEncoder.PutArea | service/jt808_service.cc:520-736 | one area or route of any kind: text, pointer and size move by exactly its bytes, the length by ten less for a rectangle |
| AreaEncoder.PutCorners | service/jt808_service.cc:650-659 | the coordinate loop, bytes, size and length |
| AreaEncoder.PutPoints | service/jt808_service.cc:695-730 | the inflection point loop, bytes, size and length |
| AreaEncoder.PackAreas | service/jt808_service.cc:520-736 | the four branches yield the frame of operation, count and areas |
| AreaEncoder.LengthFieldExactlyWhen | service/jt808_service.cc:591-592 | the header gives the body's length exactly when there is no rectangle in it |
| AreaDecoder.DecodeArea | terminal/jt808_area_route.cc:517-545 | the body of the decoders' loop, for any bytes, and where it leaves the data pointer |
| AreaDecoder.DecodeCorners | terminal/jt808_area_route.cc:659-669 | the coordinate loop |
| AreaDecoder.DecodePoints | terminal/jt808_area_route.cc:719-751 | the inflection point loop |
| AreaLayout.CircleStands | terminal/jt808_area_route.cc:517-545 | over the bytes alone, for an attribute t + 2l + 4r: which bytes of a circle mean what, and that it takes 18 + 12t + 3l |
| AreaLayout.RectangleStands | terminal/jt808_area_route.cc:575-609 | the same for a rectangle of 22 + 12t + 3l bytes |
| AreaLayout.PolygonStands | terminal/jt808_area_route.cc:637-669 | the same for a polygon, its count behind period and speed, and every corner |
| AreaLayout.RouteStands | terminal/jt808_area_route.cc:703-751 | the same for a route, which has a period exactly if t is 1 and never a speed, and its sections in a row |
| AreaLayout.PointStands | terminal/jt808_area_route.cc:719-751 | which bytes of a section of road mean what: 18 + 4t + 3l |
| AreaLayout.ProperExactlyWhen | common/jt808_area_route.h:38-70 | which areas the theorems range over: those whose period and speed are there exactly if the attribute says so |
| AreaLayout.ProperPointExactlyWhen | common/jt808_area_route.h:72-81 | the same of sections of road |
| AreaLayout.CircleOfThirtyThreeBytes | terminal/jt808_area_route.cc:517-545 | the concrete case: a circle of attribute 3 has period and speed and ends after 33 bytes |
| AreaDecoder.AreaReadBack | terminal/jt808_area_route.cc:511-751 | every area or route is read back from its bytes, optional fields and lists included, and the pointer ends where they end |
| AreaDecoder.AreasReadBack | terminal/jt808_area_route.cc:511-774 | every list of areas is read back in order |
| AreaStore.AreaList.DealSet | terminal/jt808_area_route.cc:511-774 | the set request for any bytes: the stored list and the result, with the header where each kind looks for it |
| AreaStore.AreaList.Store | terminal/jt808_area_route.cc:546-563 | append at the end; else replace the first area of that id and move it to the end, or change nothing |
| AreaStore.ListsMadeAndGivenUp | terminal/jt808_area_route.cc:543-563 | a missing list is made by the first area of a request, also one that is not stored, and not by a request without areas; a deletion gives an empty list up |
| AreaStore.PutIs | terminal/jt808_area_route.cc:546-563 | operation 1 appends, also an id that is there; any other takes the first area with the id out and puts the new one last, or does nothing |
| AreaStore.AreaList.Erase | terminal/jt808_area_route.cc:787-798 | the first area with the id is erased and found is reported truthfully |
| AreaStore.AreaList.DealDelete | terminal/jt808_terminal.cc:901-910 | a deletion for any bytes, and its result for each kind |
| AreaStore.AreaList.DeleteFromSet | terminal/jt808_area_route.cc:776-907 | every named id is erased, all areas for a count of zero, and an emptied list becomes null |
| AreaLaws.PutStands | terminal/jt808_area_route.cc:546-563 | ids stay unique exactly unless an id that is there is appended; then the list does what the map does, the stored area stands last, every other area keeps its order, and a modification of an unknown id changes nothing |
| AreaLaws.ServeStands | terminal/jt808_area_route.cc:776-907 | the same for one whole request, and no deletion leaves an empty list behind |
| AreaLaws.StoreRefinesMap | terminal/jt808_area_route.cc:511-907 | over every run of requests that appends fresh ids only, the list refines the finite map and areas no one named keep their relative order |
| AreaTransfer.SetArrives | terminal/jt808_area_route.cc:511-774 | a set request, framed and parsed, is stored as it was sent when its header is read where it is |
| AreaTransfer.RequestHeader | common/jt808_protocol.h:51-58 | the id of each kind's request to set and to delete, with phone number, flow number and counted length, ten bytes short for every rectangle, as the terminal finds them |
| AreaTransfer.HeaderReadTwice | terminal/jt808_area_route.cc:634-635 | for polygons and routes the first id's upper bytes are taken for operation and count, and the request fails without effect exactly when the second of that id's four bytes is zero |
| AreaExact.AreasLie | terminal/jt808_area_route.cc:634-774 | whatever list of areas is read from a buffer, its encoding lies there byte for byte, so a list can only be read where it was written |
| AreaMisread.NeverReadAsSent | terminal/jt808_area_route.cc:634-635 | no list of polygons or routes that can be sent is read from its own request, whatever the operation |
| AreaMisread.NeverStoredAsSent | terminal/jt808_area_route.cc:634-774 | no request to append polygons or routes leaves the list it asks for, whatever is sent and whatever was stored |
| AreaTransfer.DeleteArrives | terminal/jt808_area_route.cc:776-907 | a deletion of up to 255 ids, framed and parsed, deletes exactly those |
| AreaTransfer.FramesRefineMap | terminal/jt808_terminal.cc:892-930 | over every run of framed requests that appends fresh ids only, no read leaves the buffer and the list refines the map: circles and rectangles as written, polygons and routes with the header read once |
| AreaFile.GenerateLine | terminal/jt808_area_route.cc:328-475 | the printers' line of an area of any kind |
| AreaFile.CircleLine | terminal/jt808_area_route.cc:328-357 | the fields of a circle's line in their order and base |
| AreaFile.RectangleLine | terminal/jt808_area_route.cc:359-389 | of a rectangle's |
| AreaFile.PolygonLine | terminal/jt808_area_route.cc:392-428 | of a polygon's |
| AreaFile.RouteLine | terminal/jt808_area_route.cc:430-475 | of a route's |
| AreaFile.CornerFields | terminal/jt808_area_route.cc:416-424 | of a corner |
| AreaFile.PointFields | terminal/jt808_area_route.cc:450-469 | of a section of road |
| AreaParser.ReadCorners | terminal/jt808_area_route.cc:193-204 | the parser's coordinate loop, for any fields, with the variable the numbers are scanned into |
| AreaParser.ReadPoints | terminal/jt808_area_route.cc:240-280 | the parser's inflection point loop, for any fields, with the variable the numbers are scanned into |
| AreaParser.PointThrough | terminal/jt808_area_route.cc:243-261 | the fields of a point go through one variable in order, each in its base; one without a number repeats the one before |
| AreaParser.FixedThrough | terminal/jt808_area_route.cc:64-80 | the same for the fields of circles and rectangles |
| AreaParser.OtherFields | terminal/jt808_area_route.cc:64-80 | a field without a number leaves the variable, one that goes on behind its number or exceeds 32 bits is cut |
| AreaParser.SplitFields | terminal/jt808_area_route.cc:302-309 | the strtok_r loop finds the fields that are not empty |
| AreaParser.OddFields | terminal/jt808_area_route.cc:302-309 | empty fields are passed over, and the last field needs no semicolon |
| AreaParser.TimeTakesSeven | terminal/jt808_area_route.cc:58-86 | every printed time writes one byte more than the six of the parser's array |
| AreaParser.ReadFile | terminal/jt808_area_route.cc:286-326 | the reading loop's four lists, for any file; a field without a number keeps the last one read, and a line that overflows its array is undefined |
| AreaFileLaws.MisreadNumber | terminal/jt808_area_route.cc:256-269 | the route parser's hexadecimal reading of a decimal field is right exactly below ten |
| AreaFileLaws.PointParses | terminal/jt808_area_route.cc:243-276 | an inflection point is read back, with all its fields consumed, exactly when it is readable in the given formats, and else never as itself |
| AreaFileLaws.AreaParses | terminal/jt808_area_route.cc:54-284 | a line's fields are read back as the area with none left over; for a route exactly when all its points are readable |
| AreaFileLaws.FieldsOfEnded | terminal/jt808_area_route.cc:302-309 | cutting at the semicolons finds the printed fields again |
| AreaFileLaws.WriteFile | terminal/jt808_area_route.cc:477-509 | the four writing loops yield the lines of the four lists in order |
| AreaFileLaws.LinesRead | terminal/jt808_area_route.cc:286-326 | the lines of any areas are read back in order exactly when all of them are readable and fit the line array |
| AreaFileLaws.LineOfNoKind | terminal/jt808_area_route.cc:301-322 | a line of another number than 1 to 4 adds nothing, and a line of more than 1023 bytes is undefined |
| AreaFileLaws.EmptyAndLastLine | terminal/jt808_area_route.cc:299-310 | a line without fields is undefined, and the last line needs no newline |
| AreaFileLaws.LineWithoutNumber | terminal/jt808_area_route.cc:310-322 | a line whose first field is no number is taken for the kind of the line before |
| AreaFileLaws.FileRoundTripExactlyWhen | terminal/jt808_area_route.cc:286-509 | reading the written file restores all four lists exactly when no line is longer than 1023 bytes and every point of every route is readable: always as meant, as written for widths and driving times below ten and sections whose two bits agree |
| AreaFileLaws.SixtyCornersAreTooLong | terminal/jt808_area_route.cc:289-301 | the concrete case: with a polygon of sixty corners of ten-digit coordinates, which fits a message, the written file is not read back |
| Bcd.BcdFromStringCompress | bcd/bcd.cc:35-54 | the loop's bytes, an odd first digit in a byte of its own, and the zero it stores behind them |
| Bcd.StringFromBcdCompress | bcd/bcd.cc:56-71 | for any bytes, the loop whose pointer goes back to the front while a zero stands there |
| Bcd.StringFromBcdCompressFillingZero | bcd/bcd.cc:73-86 | any byte as two characters |
| Bcd.CompressedIsValid | bcd/bcd.cc:20-54 | every digit string compresses to valid packed decimals of half its length rounded up |
| Bcd.CompressedEven | bcd/bcd.cc:20-54 | every byte of a compressed number by its two digits |
| Bcd.CompressedOdd | bcd/bcd.cc:35-54 | of an odd number of digits the first has a byte of its own |
| Bcd.FilledAt | bcd/bcd.cc:73-86 | every digit of a valid byte |
| Bcd.AnyByteFilled | bcd/bcd.cc:73-86 | the two characters of any byte, packed decimals or not, through a signed char |
| Bcd.SampleExpand | bcd/bcd.cc:56-71 | 1234 and 123 digit by digit |
| Bcd.OddExpand | bcd/bcd.cc:56-71 | bytes that are no packed decimals, and a digit that goes to the front behind a zero byte |
| Bcd.FillThenCompress | bcd/bcd.cc:35-86 | filling and compressing gives back every valid array |
| Bcd.RoundTripExactlyWhen | bcd/bcd.cc:35-71 | compressing and expanding gives back exactly the strings that do not start with a zero, and the single zero |
| Bcd.CompressThenFill | bcd/bcd.cc:35-86 | compressing and filling gives back every digit string, an odd one with a zero in front |
| Bcd.SameBytesExactlyWhen | common/jt808_util.cc:99-103 | two phone numbers of at most eleven digits (service/jt808_util.h:26) are the same six bytes of a header exactly when they agree after an odd one is given a leading zero and both are filled up with zeros behind; numbers of one length exactly when they are equal |
| Bcd.ShortNumbersMeet | common/jt808_util.cc:99-103 | the concrete case: 13 and 1300 are the same six bytes |
| Devices.Register | service/jt808_service.cc:890-909 | the search of a registration over the list of devices, in the array that is not cleared, and its result |
| Devices.RegisteredIs | service/jt808_service.cc:892-909 | result 0 and a code exactly if the device found is not connected, the code its own; 3 for a connected one, 4 for none, 2 without devices |
| Devices.RegistrationIs | service/jt808_service.cc:892-909 | with numbers of nine to eleven digits, the first excepted: the code of the first device with the terminal's twelve digits, unless that one is connected |
| Devices.TakenExactlyWhen | service/jt808_service.cc:896-898 | a device is taken for a terminal exactly if its number agrees as far as it reaches and the bytes left over by the devices before it are the terminal's |
| Devices.FoundExactlyWhen | service/jt808_service.cc:894-898 | where no device before it is taken, a terminal's own device is found exactly if it is the first, has at least nine digits, or finds zeros in the bytes left over |
| Devices.LongNumbersAreFound | service/jt808_service.cc:894-909 | in a list of numbers of nine to eleven digits, the first excepted, the device found is the first one with the terminal's twelve digits, and none if there is none |
| Devices.ShortNumberIsMissed | service/jt808_service.cc:896-898 | the concrete case: behind 13826539851 the device 13 is not found |

## Left out

- Sockets, epoll, the unix command socket, threads, file handles, sleeping and system calls: what is received and sent are sequences; failing sends and files that cannot be opened are not modelled.
- Frames split or joined by the transport: every receive brings one whole frame into a zeroed buffer, of at most 4094 bytes.
- Reads and writes outside a buffer: the source does not check, the model stops with a fault, so nothing is claimed about what follows. One such write is let pass, because nothing reads it: the zero behind the six bytes of a time (terminal/jt808_area_route.cc:58, :83) and of a number of eleven digits (common/jt808_util.cc:100-101).
- The path, the version string and the command line the terminal builds for a finished upgrade (terminal/jt808_terminal.cc:798-866): the output is kind, version and bytes.
- Upgrade and parameter traffic interleaved: both use the same packet_total_num field of the terminal.
- Files of more than 65534 packets, whose 16-bit packet numbers wrap, and upgrade versions longer than the eleven characters a device record holds.
- Acknowledgements as frames: the service's inbox holds what the parser makes of them.
- UpgradeTerminal.Terminal.OnFrame: does nothing on a frame that is no upgrade packet; the source executes a damaged frame whose id has turned into another command without comparing its check byte, which this model does not follow. UpgradeAsking.TerminalWorksExactlyWhen and UpgradeTransfer.SendingWorksExactlyWhen therefore take a packet with an altered id for one that does not come.
- UpgradeTransfer.SendingWorksExactlyWhen: ends with the sending loop; what the service then makes of requests that an altered sequence number has brought about is followed for one request and a list at a time (UpgradeRepair.RepairSucceedsUnseen, UpgradeRepair.ServeTakesPasses), not as one run with the terminal's further answers.
- UpgradeDialogue.LossIsRepaired: takes the list at the service and the acknowledgements as given; UpgradeRepair.RepairSucceedsUnseen has both from the terminal.
- ParameterDialogue.SetThenGet: is stated for canonical values, numbers as they are printed and below 2^31 where atoi reads them and strings of at most 254 bytes without a zero.
- Parameters.PackSet: is stated for bodies of at most 1023 bytes; the service's cut of a large set into several (service/jt808_service.cc:1165-1219) is not modelled.
- The moments at which the terminal writes its parameter and area files: writers and readers are stated on their own.
- Signs, blanks and the 0x prefix, which sscanf and atoi also accept: no printer of the source writes them.
- AreaParser.ReadFile: treats a time that is not twelve digits as undefined; printed files have none. It lets the byte behind time[6] pass (AreaParser.TimeTakesSeven).
- AreaFileLaws.FileRoundTripExactlyWhen: is stated for times that are valid packed decimals, and, as AreaFileLaws.LinesRead, lets the byte behind time[6] pass, which every timed area writes.
- Devices.Register: is stated for numbers that are digits; of a registration it leaves out the manufacturer and the vehicle fields.
- AreaTransfer.FramesRefineMap: is stated for polygons and routes with the header read once; as written they fail as AreaMisread.NeverStoredAsSent says.
- AreaMisread.NeverStoredAsSent: is stated for appending; an update or a modification can leave the list it asks for by doing nothing, as when a modification names no area that is there. AreaMisread.NeverReadAsSent holds for every operation.
- Freed and reused storage, and the aliasing of list elements: lists hold values.
- ParseCommand, the argument handling of the service's requests, and all printing.
- Registration, authentication, position reports, heartbeat, vehicle and terminal control: shallow branches or floating point.
- Passthrough and CAN upload: the two sides do not agree on a format.
