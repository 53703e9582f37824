# Mackerel-68k bootloader: verified receive paths

The bootloader of the Mackerel-68k computers fills RAM in three ways: over the
serial line with YMODEM, over Ethernet from a netboot server, and from a FAT16
volume on an SD card. Each way makes the same claim: the bytes in RAM are the
bytes that were sent, whatever the other side does. This project models the three
paths, each against an environment that is free to misbehave, and proves the
claim. It also covers the SD drivers below the FAT reader, the address-in-address
memory tests and the zeroing loop. Code that updates state in place is modelled
as classes and loops and proved against functions; the theorems are about those
functions.

## Modules

- `Bytes`: `uint8_t`, `uint16_t` and `uint32_t` as ranges of the integers, their
  conversions, and `Splice`, a byte range written in place.
- `Gf2`: polynomials over GF(2), schoolbook multiplication, remainders. It is
  defined without reference to the CRC code.
- `Crc`: the CRC-16 register as its sixteen bits, and what it detects.
- `YmodemSpec`: the receiver as a state machine. A lexer takes one item per turn
  off a tape of bytes and silences; an empty tape is silence for ever.
- `Ymodem`: `ymodem_recv` with its loops and buffers, proved equal to that machine.
- `YmodemSafety`: what every run on every tape keeps, and what that gives when
  the blocks that pass the checks are the sender's own.
- `YmodemRoundTrip`, `YmodemSender`: whole transfers over a bad line and over a
  clean one.
- `YmodemLine`: the same line in terms of the sender's frames and the wrong bits in
  them, completed transfer or not.
- `W5500Chip`: socket 0 of the W5500. The network may add bytes to the ring, or
  close the connection, before every single SPI byte, including between the two
  bytes of a 16-bit register (W5500 datasheet, sections 2.2, 2.3 and 4.2).
- `W5500`, `Netboot`: the SPI driver, the TCP receive loop, the length-prefixed blob.
- `Disk`: the contract of `read_sector`, and a device that fails when its
  environment says so.
- `Fat16Spec`, `Fat16`, `Boot`: the volume, of any sector size, and its FAT cache,
  the file reader, the directory filter and the all-or-nothing load.
- `SdCard`, `SdSpi`, `Sd`: a card that answers at its own pace, and the two drivers
  that meet the contract in `Disk`.
- `MemTest`: memory tests on memory with any wiring, and the zeroing loop.

## What was found in the code

- The header scan of `ymodem_recv` can run past its 1024-byte block buffer. The
  model ends such a run with the outcome `Overrun`; `HeaderOverruns` says exactly for
  which contents of that buffer this happens, and `OverrunIsReached` gives a header
  that gets there. A header as senders write it never does.
- An end of file that line noise makes up can cost the rest of the file without any
  error: `EarlyEndCosts` says exactly when a reported success is the whole file, and
  `EarlyEndIsReached` gives a run that reports success, name and size, and has not one
  byte of it.
- A block is acknowledged only if it was taken, unless it is 255 blocks ahead of the
  one due: such a block has the number of the one before (`AckIsEarned`).
- The FAT cache marks "empty" with sector number 0xFFFFFFFF, and takes an entry from
  one sector. `LookupKeeps` says that an answer is right if and only if the lookup is
  not of that sector while the cache is empty (`Sound`), and the entry does not need
  more than one sector (`Whole`) unless its read fails; `LookupsAreUncached` says it of
  every run. Entries never straddle if and only if the sector size is even
  (`NoStraddle`).
- A byte-addressed SD card is read at a wrapped address from block 2^23 on:
  `ByteAddressExact` gives the exact bound. `firmware/sd.c` sends block numbers to
  every card, so a byte-addressed one reads the wrong block, except for block 0
  (`Sd.Driver.ByteAddressedMiss`).
- RX_RSR can read as zero although neither the earlier nor the later value is
  zero (`TornReadCanBeZero`). The second look after a closing status makes that
  harmless, which `Poll` and `TcpRecv` prove.
- `handler_dtest` divides by zero exactly when it is given one, two or three bytes
  (`DTest`, result `divided`).
- `memtest32` tests nothing, and reports nothing, on a range that reaches the end of
  the address space: its end pointer wraps (`Memtest32`).
- No 16-bit burst gets past the CRC, but a 17-bit one does, at every place of every
  codeword: `SeventeenBitsDoPass`.
  `PassesIffMultiple` describes exactly the damage that does.

## Assumptions

- YMODEM: the buffer is smaller than 2^31 bytes, since the count comes back as a
  32-bit `long`; the callers pass 3 and 8 MB. The three buffers are distinct.
- W5500: a RECV command takes effect when it is written; the closing status shows
  only when everything the peer got across is in the ring; the socket buffer has
  one of the sizes the datasheet allows; a RECV that would release more than has
  arrived, which the driver never issues, is ignored.
- `TcpRecv` has a third result besides true and false. `Waiting` is a peer that
  stays silent with the connection open: the C function then spins for ever.
- Netboot: the announced length fits in RAM behind `addr`; the C code trusts the
  server in this.
- FAT16: `bytes_per_sector` is the sector size of the device, whatever that is, and
  sectors and clusters are not empty. The static FAT buffer takes a sector, as the
  comment beside it asks (firmware/fat16.c:184): with its 1024 bytes this means a
  sector of at most 1024.
- The cache results are about one medium that does not change. The cache is a static
  variable, so it survives a card swap between two boots, and then is not coherent.
- A failed read of one sector leaves the buffer alone (`ReadContract`). Both SD
  drivers are proved to do so. The IDE driver does not, because it checks for errors
  after the transfer (firmware/ide.c:105-115), so the cache results do not apply to it.
- The root directory is read into a buffer of 512 bytes, so `ListFiles` and
  `BootFile` take sectors of at most that size.
- SD card: a response has its top bit clear and a token is never 0xFF, as in SPI mode.
- Memory tests: memory is deterministic, and addresses reach it as whole words.

## Model

| member | source | states |
|---|---|---|
| Crc.Crc16 | firmware/ymodem.c:35-45 | the two nested loops compute the checksum the lemmas below are about |
| Crc.WordValue | firmware/ymodem.c:42 | the register bits are numbers: check bytes read big-endian, feedback 0x1021 |
| Crc.LoadThenStep | firmware/ymodem.c:40-42 | xor-ing a byte in at the top and running eight rounds is the same as feeding its bits one at a time |
| Crc.ChecksumIsRemainder | firmware/ymodem.c:35-45 | for every message the checksum is the remainder of M(x)·x^16 by x^16+x^12+x^5+1, and no other value is |
| Gf2.RemainderUnique | firmware/ymodem.c:35-45 | a message has one remainder of degree below 16 |
| Gf2.RemainderParity | firmware/ymodem.c:35-45 | the remainder has the parity of the message, at every length |
| Crc.StepInjective | firmware/ymodem.c:42 | one round of the register loses nothing |
| Crc.MatchIffZero | firmware/ymodem.c:120 | the check bytes match if and only if the whole codeword leaves the register at zero |
| Crc.ChecksumLinear | firmware/ymodem.c:35-45 | the checksums of two messages add up to the register their difference leaves |
| Crc.PassesIffMultiple | firmware/ymodem.c:120 | a damaged frame passes if and only if its error pattern is a multiple of the generator |
| Crc.DamageIsDetected | firmware/ymodem.c:105-129 | a burst of up to 16 bits, or any odd number of wrong bits, in data and check bytes never passes |
| Crc.SeventeenBitsCanPass | firmware/ymodem.c:120 | the generator itself as error pattern, 17 bits long, passes at every position |
| Crc.SeventeenBitsDoPass | firmware/ymodem.c:120 | for every codeword and every place in it there is such a damaged field, and it passes |
| YmodemSpec.NameEnd | firmware/ymodem.c:148-150 | the name stops at the first NUL or after 100 bytes |
| YmodemSpec.SkipSpaces | firmware/ymodem.c:152-154 | the first byte that is no space, or the end of the buffer |
| YmodemSpec.SkipDigits | firmware/ymodem.c:155-156 | the first byte that is no digit, or the end of the buffer |
| YmodemSpec.CopyLength | firmware/ymodem.c:164-168 | a copy never passes the announced size or the end of the buffer |
| YmodemSpec.Run | firmware/ymodem.c:66-186 | every tape brings the receiver to an end, by events left and then by timeouts left |
| Ymodem.SerialLine.RxMs | firmware/ymodem.c:23-32 | one event of the tape; -1 for a silence or an empty tape |
| Ymodem.Receiver.ReceiveBlock | firmware/ymodem.c:103-121 | accepts exactly the blocks whose number and check bytes agree; the payload lands in the static buffer either way |
| Ymodem.Receiver.ReadHeader | firmware/ymodem.c:148-156 | the in-place name, and the size by the digit loop, or the report that a scan left the block buffer |
| Ymodem.Receiver.StoreBlock | firmware/ymodem.c:164-171 | the trims and the copy loop: what is stored, and that nothing else in the buffer changes |
| Ymodem.Receiver.AcceptBlock | firmware/ymodem.c:131-182 | store, finish, read the header, re-acknowledge or refuse a block that passed |
| Ymodem.Receiver.Turn | firmware/ymodem.c:66-182 | one turn of the loop is one reaction of the state machine, and takes as much of the tape |
| Ymodem.Receiver.Recv | firmware/ymodem.c:47-186 | the whole call ends in the state the machine ends in, with the buffer holding the kept bytes of the blocks taken, and returns the count or one of the two error codes |
| YmodemSafety.TrimsCompose | firmware/ymodem.c:164-171 | trimming block by block keeps what one trim of everything would |
| YmodemSafety.StoreKeeps | firmware/ymodem.c:163-173 | storing a block keeps the buffer equal to the head of all blocks so far |
| YmodemSafety.RunKeeps | firmware/ymodem.c:131-182 | on every tape, the buffer holds exactly the first bytes of the blocks taken in order, min of their length, the announced size and the buffer, the next number is k+1 mod 256, and the rest of the buffer is untouched |
| YmodemSafety.DueBlock | firmware/ymodem.c:131-182 | a genuine block under the expected number, less than 256 away, is the very one due |
| YmodemSafety.RunTracks | firmware/ymodem.c:131-182 | the blocks taken are always a prefix of the sender's, repeats and losses notwithstanding |
| YmodemSafety.FaithfulRun | firmware/ymodem.c:47-186 | if the blocks that pass the checks are the sender's, less than 256 from the one due, the buffer holds the head of the file at the end of every run; and all of it, with name and size, when success is reported and no end of file came early |
| YmodemSafety.EarlyEndCosts | firmware/ymodem.c:82-89 | with ends of file anywhere, a reported success has the whole file if and only if, at the first of them, the header was there and no byte to be kept was still to come |
| YmodemSafety.NothingAfterEnd | firmware/ymodem.c:82-89 | from the first end of file on no header and no data are taken |
| YmodemSafety.AckIsEarned | firmware/ymodem.c:131-181 | once the header is in, a block of the sender's is acknowledged if and only if it is the one due, which is then taken, the one before, or 255 ahead; any other is refused |
| YmodemLine.LexItem | firmware/ymodem.c:66-129 | an unharmed frame, a harmed one with any bytes behind it, one that is short by any number of bytes, a stray byte, a silence, an end of file or a cancel is taken for what it is |
| YmodemLine.LineIsFaithful | firmware/ymodem.c:47-186 | whatever bursts of up to 16 bits, odd numbers of wrong bits, bad block numbers, lost bytes, cuts, losses and repeats the line makes, only the sender's own blocks pass |
| YmodemLine.LineRun | firmware/ymodem.c:47-186 | over every such line the buffer ends up with the head of the file, and success means all of it, with its name and size |
| YmodemLine.EarlyEndIsReached | firmware/ymodem.c:82-139 | header, false end of file, header again: success is reported with name and size, and nothing is in the buffer |
| YmodemSafety.SilenceTimesOut | firmware/ymodem.c:68-79 | pure silence is given up after exactly eleven timeouts, with ten prompts sent, and which ones |
| YmodemSafety.QuietTurn | firmware/ymodem.c:68-79 | a silence is answered by 'C' before the header and after the end of file, by NAK in between, and by giving up after the tenth |
| YmodemSafety.NoSizeBeforeEnd | firmware/ymodem.c:133-139 | a size is reported only at the end of a batch, and then it is the announced one |
| YmodemRoundTrip.DecimalInvertsDigits | firmware/ymodem.c:155-156 | the digit loop inverts decimal printing for every 32-bit size |
| YmodemRoundTrip.DecimalWraps | firmware/ymodem.c:155-156 | for every string of digits the loop is left with their number modulo 2^32 |
| YmodemRoundTrip.ParseOfHeaderBlock | firmware/ymodem.c:140-160 | a header as senders write it parses to its name and size |
| YmodemSafety.ScanEndsInHeader | firmware/ymodem.c:148-156 | a header that ends its own scan parses the same whatever stale bytes of earlier blocks follow it in the buffer |
| YmodemRoundTrip.ScanRunsOff | firmware/ymodem.c:152-156 | the scan leaves the block buffer if and only if only spaces and then digits follow the name to its end |
| YmodemRoundTrip.HeaderOverruns | firmware/ymodem.c:138-162 | for every first header, the run ends in the overrun if the buffer is of that kind and goes on with the header taken if not |
| YmodemRoundTrip.OverrunIsReached | firmware/ymodem.c:152-156 | one letter, NUL and 1022 digits are such a header |
| YmodemRoundTrip.LexBody | firmware/ymodem.c:99-129 | a frame of the right length is a block if it passes both checks and is drained to the next silence otherwise |
| YmodemRoundTrip.BlockIff | firmware/ymodem.c:99-121 | a frame of the right length is taken for its block if and only if the second number byte is 255 minus the first and data and check bytes are a codeword |
| YmodemRoundTrip.SentBytes | firmware/ymodem.c:5-6 | the bytes of a block on the line: 0x01 or 0x02 by its length, number, complement, data, checksum high byte first |
| YmodemRoundTrip.NumberHitIsNaked | firmware/ymodem.c:105-128 | a frame in which one of the two number bytes was changed is answered by a NAK in every state and changes nothing else that matters |
| YmodemRoundTrip.LexShort | firmware/ymodem.c:99-129 | a frame that lacks bytes anywhere, number, data or check bytes, is a damaged block, whatever its bytes are |
| YmodemRoundTrip.DetectableIsRefused | firmware/ymodem.c:105-121 | detectable damage keeps a frame from passing, whatever became of its number bytes |
| YmodemRoundTrip.DamagedFrameIsNaked | firmware/ymodem.c:123-129 | such a frame, with any bytes behind it, is answered by a NAK in every state, with buffer, total and expected number unchanged |
| YmodemRoundTrip.NoiseTurn | firmware/ymodem.c:66-182 | a lost, damaged or short block, any block that is not due, a stray byte, a single CAN or a repeated end of file changes nothing that matters |
| YmodemRoundTrip.DataPhase | firmware/ymodem.c:163-178 | any number of data blocks, any noise before each, are taken in order |
| YmodemRoundTrip.HeaderTurn | firmware/ymodem.c:140-162 | the header is taken, and answered by ACK and 'C' |
| YmodemRoundTrip.AcceptTurn | firmware/ymodem.c:163-173 | the block that is due is taken, and answered by ACK |
| YmodemRoundTrip.EndTurn | firmware/ymodem.c:82-89 | the end of file is answered by ACK and 'C', and block 0 is due |
| YmodemRoundTrip.FinalTurn | firmware/ymodem.c:133-139 | the last header is answered by ACK and ends the call with count and size |
| YmodemRoundTrip.NullHeaderTurn | firmware/ymodem.c:142-147 | an opening header without a name is answered by ACK and ends the call with nothing received |
| YmodemRoundTrip.CancelTurn | firmware/ymodem.c:90-95 | two CANs end the call |
| YmodemRoundTrip.RoundTrip | firmware/ymodem.c:47-186 | every transfer in which each block gets through in the end, repeats of blocks and of the end of file included, delivers the file, its size and its name, for any mix of block sizes |
| YmodemSender.LosslessRoundTrip | firmware/ymodem.c:47-186 | a plain sender on a clean line: every non-empty file below 2^32 bytes and every name of at most 100 bytes come back, up to what the buffer holds |
| W5500Chip.CellsDiffer | firmware/w5500.c:183-186 | bytes less than a ring apart never share a cell |
| W5500Chip.PointerAddressesCell | firmware/w5500.c:183-187 | the free-running 16-bit pointer addresses the right ring cell for ever, wraps included |
| W5500Chip.HappenKeeps | firmware/w5500.c:166-193 | whatever the network does, buffered bytes stay and the chip stays consistent |
| W5500Chip.RecvTakesChunk | firmware/w5500.c:187-188 | RECV after moving RX_RD by a chunk releases exactly that chunk |
| W5500Chip.TornReadIsSafe | firmware/w5500.c:112-117 | an early high byte with a late low byte never exceeds the late value |
| W5500Chip.TornReadCanBeZero | firmware/w5500.c:171-172 | it can be zero though neither value is |
| W5500.ReadAvailable | firmware/w5500.c:171 | RX_RSR as read under arrivals never exceeds what is there, and is exact when nothing arrives |
| W5500.BurstIsStream | firmware/w5500.c:93-103 | a burst at the raw read pointer is the next bytes of the peer's stream, whatever arrives meanwhile |
| W5500.WritePointer | firmware/w5500.c:118-122 | two byte writes set RX_RD and nothing else |
| W5500.Nic.W5Read | firmware/w5500.c:93-103 | the frame header selects address and block, and the data bytes land in place |
| W5500.Nic.W5Write | firmware/w5500.c:82-91 | the same for a write |
| W5500.Nic.Poll | firmware/w5500.c:171-179 | "over" is concluded only when the peer's whole stream has been consumed |
| W5500.Nic.Take | firmware/w5500.c:180-188 | one burst stores the next chunk of the stream and releases it |
| W5500.Nic.TcpRecv | firmware/w5500.c:166-193 | true exactly when the next len bytes of the stream are in place, with no gap or repeat; false only if the stream holds fewer; RX_RD is the start plus all bytes consumed, mod 65536 |
| Netboot.Be32RoundTrip | firmware/netboot.c:36 | the four length bytes decode to the length packed |
| Netboot.LengthIsBigEndian | firmware/netboot.c:36 | the length goes out, and comes in, as a big-endian number |
| Netboot.BlobInvertsPrefix | tools/netboot_server.py:38-42 | what the server packs the board unpacks, and no proper prefix is taken for the whole |
| Netboot.NetbootBlob | firmware/netboot.c:28-44 | success leaves exactly the blob at addr, a connection that ends early gives false, whatever the timing |
| Netboot.NetbootImage | firmware/netboot.c:28-44 | the round trip: what the server packs ends up at addr on success, and a refusal means the connection ended before all of it was across |
| Disk.ManyIsOneByOne | firmware/fat16.c:233-242 | a read of many sectors leaves what that many reads of one leave |
| Disk.ManyIsInTurn | firmware/fat16.h:7 | a successful read of many sectors ends in the buffer that any series of successful single reads of them ends in |
| Disk.FailedOneSectorRead | firmware/fat16.c:193-194 | under the read contract a failed one-sector read changes nothing |
| Disk.Device.ReadSector | firmware/fat16.h:7 | a device with a schedule of failures that meets the contract |
| Fat16Spec.Volume.NoStraddle | firmware/fat16.c:186-189 | no FAT entry straddles its sector if and only if the sector size is even |
| Fat16Spec.Volume.NextIsFatEntry | firmware/fat16.c:186-198 | the next cluster is the little-endian number at byte 2c of the FAT, the sectors behind the reserved ones laid end to end |
| Fat16Spec.BootSector.RootDirSectorsUnique | firmware/fat16.c:221 | the code's count is the one least number of sectors that hold the directory's entries of 32 bytes |
| Fat16Spec.Volume.FirstSectorIsDataSector | firmware/fat16.c:221-227 | the code's sector number is FirstDataSector + (N-2)·SecPerClus of the FAT specification if and only if that fits in 32 bits |
| Fat16Spec.Volume.Layout | firmware/fat16.c:123 | the root directory is right behind the last FAT, and cluster 2 right behind the directory |
| Fat16Spec.Volume.FileBytesIsChainPrefix | firmware/fat16.c:223-284 | what the walk is to deliver is the head of the chain's clusters laid end to end, all of `size` if the chain is long enough |
| Fat16Spec.Volume.WholeClusterRead | firmware/fat16.c:233-242 | the whole-cluster read delivers what sector-by-sector reading does |
| Fat16Spec.EntryInSector | firmware/fat16.c:186-198 | the entry read from the buffer is the one on the disk if and only if one sector is enough for it |
| Fat16Spec.LookupKeeps | firmware/fat16.c:181-200 | a lookup keeps the cache as it started out or equal to the sector it is tagged with, even when the read fails, and says exactly when its answer is right, for every sector size |
| Fat16Spec.LookupsAreUncached | firmware/fat16.c:181-200 | over every sequence of lookups and failures all answers are the ones on the disk, or the end of chain of a failed read, if and only if no lookup is of sector 0xFFFFFFFF while the cache is empty and one sector is enough for each entry read |
| Fat16Spec.HoldingIsServed | firmware/fat16.c:191-196 | with even sectors, once the cache holds a sector, every later answer is right |
| Fat16Spec.FirstLookupRight | firmware/fat16.c:183-196 | the first lookup is right if and only if its sector is not the number that marks the empty cache and is enough for the entry |
| Fat16Spec.WalkIsFile | firmware/fat16.c:223-284 | from a sound start, with even sectors, the clusters the walk visits are the head of the file, and it leaves the chain only at a failed read |
| Fat16.Reader.GetFatEntry | firmware/fat16.c:181-200 | the static cache and buffer do what the lookup function says, for every sector size the buffer takes, without a read if the sector is there |
| Fat16.Reader.ReadTail | firmware/fat16.c:243-270 | the partial last cluster: exactly the bytes there is room for, none after them; without a fault it succeeds if and only if the sectors of those bytes are on the disk |
| Fat16.Reader.ReadFile | firmware/fat16.c:202-292 | for every geometry and state of the cache: the count returned is that many bytes of the clusters the lookups gave, in place, nothing outside is written, and it ends on every FAT after at most ceil(size / cluster) clusters; with even sectors and a sound start the bytes are the file's, and if no read fails it succeeds if and only if the data sectors it needs are on the disk, with the whole file |
| Boot.MatchesIffNamed | firmware/bootloader.c:450-457 | a directory entry is chosen if and only if its eight and three characters are the ones asked for and it is not empty |
| Boot.SlotDecodes | firmware/fat16.h:38-53 | the slot at 32·k decodes to the entry that is encoded there: 8 and 3 name bytes, attributes, cluster at 26, size at 28, low byte first |
| Boot.ListedIff | firmware/fat16.c:136-147 | a slot is listed if and only if its first byte is neither 0x00 nor 0xE5 and bit 4 of byte 11 is clear |
| Boot.LoadNamedFile | firmware/bootloader.c:445-476 | a count is returned only when every byte of the file is at addr, whatever reads failed; it is returned when none does |
| Boot.FirstMatchIsNamed | firmware/fat16.c:130-151 | the first match in the filtered list is the first match in the directory sector |
| Boot.NamedIsFirstMatch | firmware/fat16.c:130-151 | and the other way round |
| Boot.ListFiles | firmware/fat16.c:107-153 | the list is the slots in use that are no directories, in order, of the root directory sector, or of the old buffer if the read failed, which is not noticed |
| Boot.BootFile | firmware/bootloader.c:516-524 | from root directory to RAM: a count means the file of that name in the sector read, all of it, and it is returned when no read fails |
| SdCard.FrameArg | firmware/sd_spi.c:14-22 | the four address bytes of a frame give the address back |
| SdCard.FrameLayout | firmware/sd_spi.c:14-22 | a frame is 0x40 plus the index, the argument as a big-endian number, and the check byte |
| SdCard.ByteAddressExact | firmware/sd_spi.c:109 | the multiplied address reaches its block if and only if the block is below 2^23 |
| SdSpi.Driver.SdCmd | firmware/sd_spi.c:14-28 | sends an idle byte and the frame and polls ten times at most; the response is the card's if it comes by then, 0xFF otherwise |
| SdSpi.Driver.ReadData | firmware/sd_spi.c:31-43 | the block is stored if and only if its token comes in time; the buffer is untouched otherwise |
| SdSpi.Driver.Read | firmware/sd_spi.c:105-119 | stores what the addresses reach, if and only if the card answers every block in time; meets the read contract when the addresses can carry the request |
| Sd.Driver.SendCommand | firmware/sd.c:19-31 | the same without the idle byte |
| Sd.Driver.ReceiveBlock | firmware/sd.c:177-196 | one block of a stream, or an untouched buffer |
| Sd.Driver.Read | firmware/sd.c:157-202 | stores exactly the block the card takes the number for, or leaves the buffer alone; without a buffer nothing is sent |
| Sd.Driver.ReadBlocks | firmware/sd.c:204-261 | meets the read contract from the block the card takes the number for; succeeds if and only if the card sends every block in time; sends CMD18, and CMD12 in the end if the card took it |
| Sd.Driver.BlocksAreReads | firmware/sd.c:157-261 | on a block-addressed card it then leaves what single reads of the same blocks leave |
| MemTest.LostAndKept | firmware/bootloader.c:888-919 | words lost to a later one and distinct cells add up to the words tested |
| MemTest.NothingLostIffInjective | firmware/bootloader.c:888-919 | no word is lost if and only if the wiring is injective on the range |
| MemTest.Memory.ReadsBack | firmware/bootloader.c:904-910 | a word reads back as its own address if and only if no later word has its cell |
| MemTest.Memory.AddressIsPointer | firmware/bootloader.c:893-904 | the pattern of a word below the end pointer is its pointer |
| MemTest.SeedParity | firmware/bootloader.c:848-853 | the generator's values are even and odd in turn |
| MemTest.MissesAreCounted | firmware/bootloader.c:848-861 | the random errors are as many as the reads of overwritten words |
| MemTest.TwoWordsMiss | firmware/bootloader.c:848-861 | two words on one cell: every other random read is one |
| MemTest.Memory.TestRange | firmware/bootloader.c:828-831 | defaults and masks of the two arguments |
| MemTest.Memory.Memtest32 | firmware/bootloader.c:888-919 | reports, in order, exactly the words overwritten by a later one, so none if and only if the wiring is injective; on a range that reaches the end of the address space it tests nothing |
| MemTest.Memory.DTest | firmware/bootloader.c:826-883 | the linear scan counts the same words, the random phase its reads of such words, random errors imply linear ones, PASS means an injective wiring, and one to three bytes divide by zero |
| MemTest.Zero | firmware/bootloader.c:636-664 | the unrolled loops clear exactly the bytes asked for |

## Left out

- Register polling, the UART, SPI masters, bit-banged GPIO and inline assembly: they appear as tapes and as one-byte exchanges.
- Wall-clock time: a read of the serial line either yields a byte or times out.
- `printf`, the progress bar, the cursor, the LEDs, the command loop, `memdump`: user interface.
- `w5500_init`, `w5500_tcp_connect`, `w5500_tcp_close`: set-up and tear-down, they move no data.
- `sd_reset`, `sd_init`, `sd_spi_init`, `sd_spi_print_info`: the addressing mode they find out is given.
- `fat16_find_partition` and the boot sector read: partition start and geometry are given.
- `memtest8`, `memtest16`: a constant pattern; they would only add easy members.
- The IDE driver and `ch376s.c`: the first breaks the read contract, the second is not built.
- Liveness against a peer that stays silent with the connection open, and of a YMODEM transfer whose header acknowledgement is lost: safety and termination only.
- Line noise that hits the first byte of a frame: its payload is then read as bytes between blocks, in which anything may be found. `EarlyEndCosts` covers an end of file found there; a block found there would have to pass both checks.
- YmodemSpec.Run: a header scan that leaves the block buffer ends the run, since what the C code reads from there on is not determined.
- Ymodem.Receiver.ReadHeader: for the same reason it leaves the size at zero in that case.
- Netboot.NetbootBlob: asks that the announced length fits behind `addr`, which the C code does not check.
- Boot.LoadNamedFile: asks that the file fits behind `addr`, which the C code does not check either.
- Boot.BootFile: asks the same of every file the directory buffer may come to list under the name.
- Fat16.Reader.ReadFile: sectors that do not fit the static buffer, as the C code then writes past it.
- MemTest.Memory.DTest: the caches it switches are not modelled.
