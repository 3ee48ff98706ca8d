# Proofs about the interface firmware

A Pico W board serves a configuration access point (DHCP, DNS, a small web page), stores what it is
told in an EEPROM, draws on an OLED display, and reports measurements as JSON. This project models
those parts of the firmware in Dafny, in the form the C and C++ code has (classes and arrays changed
in place where it does that, loops where it loops), and proves what they do. Each method is proved
against a specification function, and the results are lemmas about that function.

`dafny verify dfyconfig.toml` checks everything.

## Modules

| files | what they model |
|---|---|
| `DhcpLease`, `DhcpOptions`, `DhcpServer` | the lease table with its packed expiry, the option search and writers, and the handling of one datagram |
| `DhcpHistory`, `DhcpWire` | all histories of the server, over real time that never wraps, first on the lease table and then on the bytes sent |
| `DhcpStale` | datagrams that end early |
| `DnsMessage`, `DnsServer`, `DnsReply` | a reader after section 4.1 of RFC 1035, the responder, and what that reader finds in its replies |
| `Eeprom`, `Decimal`, `Settings` | the retrying driver on a bus with faults, decimal text, and the fixed layout of the five settings |
| `Oled`, `OledText`, `OledTextRead`, `OledBmp` | the page-packed frame buffer as a set of pixels, glyphs, reading text back, and bitmaps |
| `OledBlocks`, `OledFont`, `OledBmpFile` | fonts and bitmaps written down independently of the drawing code, laid out in bytes, and shown |
| `Rosc` | the ring oscillator's delay codes and the search through them |
| `HttpQuery`, `HttpConfig` | the query string and the configuration protocol |
| `Json`, `Measurement` | a reader after RFC 8259 with escapes and white space, and the nested report |
| `ReplaceAll` | substring replacement |
| `Bytes` | shared types, and copying a datagram into a buffer |

## What the proofs found

Where the code does not do what one would expect of it, the exact condition is proved.

- **EEPROM writes can hang.** `write` never returns when the byte is 0xFF, or when the cell reads
  0xFF and the very first transfer is lost: the verifying read then waits for another value and the
  byte is never sent again. `Eeprom.WriteReturnsIff` says exactly when it returns.
- **So can reads, and with them start-up.** A cell that reads 0xFF is waited for, and a string without a NUL is
  read round the chip (`Eeprom.ReadEndsIff`, `Eeprom.ReadStringReturnsIff`). `Settings.LoadReturnsIff` says
  exactly when loading returns; on a chip as it comes from the factory it does not
  (`Settings.BlankChipNeverLoads`).
- **The save loop compares only the port.** `readString` keeps the terminating NUL, so the three
  string comparisons (main.cpp:148-149) can never hold (`Settings.OnlyThePortIsCompared`), and the first
  pass is always accepted, even when the strings do not load back (`Settings.FirstPassAccepted`).
  `Settings.LoadsBackIff` says exactly when they do. The layout's own comment promises 30 characters
  of password; 50 fit. For the same reason the loop's retry and its watchdog reset are never reached
  (`Settings.Save`).
- **An odd number of PADs hides the DHCP option behind it.** PADs are read as if they had a length,
  unlike section 3.1 of RFC 2132 (`DhcpOptions.LonePadHidesOption` is an input). The search finds every
  option exactly when the PADs in front of the last one come in pairs (`DhcpOptions.FindsAllIff`).
- **The all-zero MAC is not protected**, because it marks a free slot: an address is taken over early in
  some run exactly when it was acknowledged to that MAC (`DhcpHistory.EarlyTakeoverIff`).
- **A client can hold two addresses**: exactly when it asks for a free slot while it holds another
  (`DhcpHistory.OneSlotIff`); `DhcpHistory.SecondClaimTakesTwoSlots` is such a run.
- **An expired lease looks valid again** 2^31 ms after its deadline, for another 2^31 ms
  (`DhcpLease.ExpiredIff`, `DhcpLease.ExpiryForgotten`).
- **A DNS reply can carry stale stack bytes**: exactly when the query's first question does not lie inside
  the received bytes (`DnsReply.ReplyIgnoresStaleBytesIff`); a bare header is such a query
  (`DnsReply.BareHeaderGetsStaleBytes`). The reply still ends inside the buffer.
- **A DHCP datagram that ends early takes its meaning from stale stack bytes**: exactly when its own bytes
  do not settle its type and address (`DhcpStale.UnderstoodIgnoresStaleBytesIff`); a REQUEST cut behind
  its type is one (`DhcpStale.CutRequestTakesStaleAddress`).
- **Bitmaps with a negative size are read outside their data**, if the data is below 256 MB and the image
  has rows and columns at all, counted as unsigned (`OledBmp.NegativeSizeInDataIff`);
  `OledBmp.TopDownImageReadOutside` is such an image. In general the reads stay inside exactly when
  the last one does (`OledBmp.RowsInDataIff`).
- **A report decodes only if its strings need no escape** and its UUID does not begin with '['
  (`Measurement.DecodesIff`).

## What the model takes as given

- A datagram is a byte sequence and a reply is one; what the stack holds before a datagram is copied in is
  an arbitrary parameter. For DHCP that is the 548-byte message and the five bytes behind it, which the
  option search can touch. The clock readings of one call are parameters, one for each turn of the
  slot loop.
- An EEPROM has 256 cells. A transfer succeeds or is lost; a completed read is truthful; the list of coming
  faults is finite, and any transfers may be in it.
- `char` is unsigned, as on ARM. `atoi` is defined only on numbers below 2^31, so the saved port is below
  that; in `HttpConfig` `atoi` is a parameter.
- A `std::map` is iterated in key order and a `std::unordered_map` in any order. The decimal text of a
  measurement's value is opaque.
- Register passwords of the oscillator and its measured frequency are parameters: the SDK is not part
  of this model. The frequency is a function of the two register values.
- A string drawn is given by its characters before the NUL.
- Shifts and masks of single fields are written as division and remainder, except where the bit pattern is the
  point: the frame buffer's bytes and the oscillator's codes are bit-vectors, and `OledBmp.LowBitsCleared`
  proves the stride's exclusive-or equal to the subtraction used for it.

## Model

| member | source | states |
|---|---|---|
| DhcpLease.ExpiredIff | dhcp/dhcpserver.cpp:205-252 | for every grant time and every other time, a lease is judged expired exactly in the 2^31 ms behind the end of the 65,536 ms block its 24 hours end in, counted round the 32-bit clock |
| DhcpLease.ExpirySound | dhcp/dhcpserver.cpp:205-252 | no lease is judged expired during its 86,400,000 ms, and each is from 65,536 ms later until 2^31 ms later, however the tick wraps |
| DhcpLease.ExpiredImpliesLate | dhcp/dhcpserver.cpp:205-206 | a lease judged expired after its grant has run longer than its full time |
| DhcpLease.ExpiryForgotten | dhcp/dhcpserver.cpp:205-252 | a lease that ran out is judged valid again 2^31 + 1 ms after its deadline, for every grant time |
| DhcpLease.DiscoverFrame | dhcp/dhcpserver.cpp:192-212 | a DISCOVER changes no expiry and frees at most one slot: one judged expired, in front of which no slot was free, expired or the client's own |
| DhcpLease.DiscoverSilentIff | dhcp/dhcpserver.cpp:192-217 | a DISCOVER is unanswered exactly when every slot is held, unexpired, by another client |
| DhcpLease.OfferIsGrantable | dhcp/dhcpserver.cpp:192-251 | the slot a DISCOVER offers passes the REQUEST's guard for the same client |
| DhcpLease.OfferIff | dhcp/dhcpserver.cpp:192-218 | a DISCOVER is offered a slot exactly if it is the first with the client's MAC or, when none has it, the first that is six zeros or judged expired at its own clock reading |
| DhcpLease.TableAfterDiscover | dhcp/dhcpserver.cpp:192-212 | slot by slot, a DISCOVER zeroes exactly the MAC of the first open slot, if its lease has run out and the client has no slot up to it |
| DhcpLease.AfterRequestIs | dhcp/dhcpserver.cpp:241-252 | slot by slot, a REQUEST for a slot that is the client's or six zeros is acknowledged and puts the MAC and the packed expiry there; any other is silent and changes nothing |
| DhcpOptions.OptFind | dhcp/dhcpserver.cpp:119-127 | the loop computes the specified search, reads only within reach of the options, and ends on every input |
| DhcpOptions.FindOptIsFirst | dhcp/dhcpserver.cpp:119-127 | on options that a reader after section 2 of RFC 2132 accepts, the search finds the first entry with the code before END, or nothing, if the PADs in front of it are paired and it lies in the searched range |
| DhcpOptions.FindsAllIff | dhcp/dhcpserver.cpp:119-127 | on such options without repeated codes, the search finds every option that is there exactly when the PADs in front of the last option come in pairs |
| DhcpOptions.VisitsAllIff | dhcp/dhcpserver.cpp:119-127 | on options that the reader accepts, the search gets to every option and to END exactly when the PADs come in pairs |
| DhcpOptions.FoundIsVisited | dhcp/dhcpserver.cpp:119-127 | an option is found only where the search gets to, and an option it gets to is found unless its code came earlier |
| DhcpOptions.LonePadHidesOption | dhcp/dhcpserver.cpp:119-127 | concrete options, with one PAD in front of the message type, in which the reader sees the type and the search does not |
| DhcpOptions.OptWriteN | dhcp/dhcpserver.cpp:129-135 | the entry stands at the old pointer, the pointer is behind it, and no other byte changed |
| DhcpOptions.OptWriteU8 | dhcp/dhcpserver.cpp:137-143 | the same for a one-byte value |
| DhcpOptions.OptWriteU32 | dhcp/dhcpserver.cpp:145-154 | the same for a 32-bit value, most significant byte first |
| DhcpServer.Server.constructor | dhcp/dhcpserver.cpp:275-278 | the addresses are kept and all eight slots are zero |
| DhcpServer.Server.ChooseSlot | dhcp/dhcpserver.cpp:192-212 | the loop computes the slot of `DhcpLease.OfferIff` and the table of `DhcpLease.TableAfterDiscover` |
| DhcpServer.Server.Grant | dhcp/dhcpserver.cpp:241-252 | a slot that is the client's or free becomes the client's with the packed expiry of now; any other slot stays as it is and nothing is granted |
| DhcpServer.Server.FindRequestedSlot | dhcp/dhcpserver.cpp:224-240 | the requested address names a slot exactly when its first three bytes are the server's and its last is 16 to 23 |
| DhcpServer.Server.FindType | dhcp/dhcpserver.cpp:183-190 | the message type is the byte behind the option's length |
| DhcpServer.Server.Dispatch | dhcp/dhcpserver.cpp:190-264 | table and answer are those of the reaction to the message the bytes stand for |
| DhcpServer.Server.Process | dhcp/dhcpserver.cpp:156-273 | for every datagram and stale stack: the table reacts to the message understood, and the reply, if any, is 274 bytes, the request's header with opcode and address replaced, then bytes that read as exactly the six options meant |
| DhcpServer.Server.Compose | dhcp/dhcpserver.cpp:218-271 | the reply to a chosen slot is written over the request |
| DhcpServer.Server.WriteOptions | dhcp/dhcpserver.cpp:266-271 | what is written reads back as message type, server id, mask, router, DNS server and lease time, and ends at byte 274 |
| Bytes.CopyIn | dhcp/dhcpserver.cpp:171 | the datagram, cut to the room there is, replaces the front of the stack bytes |
| DhcpServer.PutAddress | dhcp/dhcpserver.cpp:178 | the four address bytes are replaced and no others |
| DhcpServer.ReplyOptionsFound | dhcp/dhcpserver.cpp:119-127 | the server's own search, run on a reply and whatever follows it, finds each of the six values written |
| DhcpHistory.SlotStep | dhcp/dhcpserver.cpp:190-264 | one message leaves a slot alone, reclaims it from another client when judged expired, or grants it when its guard holds |
| DhcpHistory.HeldUntilLate | dhcp/dhcpserver.cpp:191-259 | over every run, an acknowledged slot is still held by its client on a lease no older than the acknowledgement, or more than 86,400,000 ms have passed |
| DhcpHistory.NoEarlyReassignment | dhcp/dhcpserver.cpp:191-259 | over every run with time not going back, an address acknowledged to a non-zero MAC is acknowledged to no other until strictly more than 86,400,000 ms later |
| DhcpHistory.EarlyTakeoverIff | dhcp/dhcpserver.cpp:191-259 | some run acknowledges an address to a second client within 86,400,000 ms exactly when the first client's MAC is all-zero |
| DhcpHistory.OneSlotInDisciplinedRuns | dhcp/dhcpserver.cpp:192-252 | in every run of clients that request only their latest offer, each non-zero MAC holds at most one slot, the one offered last, whatever was reclaimed in between |
| DhcpHistory.OneSlotStep | dhcp/dhcpserver.cpp:192-252 | a message keeps "one slot for each MAC" exactly when it is not a REQUEST for a free slot by a client that holds one |
| DhcpHistory.OneSlotIff | dhcp/dhcpserver.cpp:192-252 | in any run, no client ever holds two slots exactly when no client claims a free slot while holding one |
| DhcpHistory.SecondClaimTakesTwoSlots | dhcp/dhcpserver.cpp:223-252 | two REQUESTs without an offer, for two free addresses: the client holds both slots |
| DhcpHistory.OfferHonoured | dhcp/dhcpserver.cpp:191-259 | a REQUEST for the address offered is acknowledged with it, however late, unless another client was acknowledged it in between; other slots do not change |
| DhcpHistory.ExpiredLeaseIsOffered | dhcp/dhcpserver.cpp:192-217 | while some lease ran out between 65,536 ms and 2^31 ms ago, no DISCOVER goes unanswered |
| DhcpHistory.HolderWasAcked | dhcp/dhcpserver.cpp:191-259 | over every run, whoever holds a slot was acknowledged it by the last event to acknowledge that slot's address, and that event wrote the slot's expiry |
| DhcpHistory.SilenceMeansAllTaken | dhcp/dhcpserver.cpp:192-217 | a DISCOVER goes unanswered only if each address was last acknowledged to another client, on a lease that did not run out between 65,536 ms and 2^31 ms ago |
| DhcpWire.Exchange | dhcp/dhcpserver.cpp:156-282 | a freshly initialised server, handed any datagrams over any stale memory, sends what the run says |
| DhcpWire.AnswerOnWire | dhcp/dhcpserver.cpp:156-273 | reply bytes that read as an offer or acknowledgement of an address to a client are one in the lease table's history, for that client and address |
| DhcpWire.AddressExclusiveOnWire | dhcp/dhcpserver.cpp:156-273 | over every run, on the bytes sent: an address acknowledged to a non-zero MAC is acknowledged to no other MAC until more than 1000 ms for each second of the lease time read in the first acknowledgement |
| DhcpWire.LeaseTimeOnWire | dhcp/dhcpserver.cpp:252-270 | every reply tells a lease time of 86,400 seconds |
| DhcpWire.ReplyOnWire | dhcp/dhcpserver.cpp:156-273 | every byte of every reply: opcode 2, the address of one of the slots 16 to 23, the request's own bytes elsewhere up to 240, then the six options with their literal codes; nothing shorter than 243 bytes is answered |
| DhcpWire.RequestUnderstood | dhcp/dhcpserver.cpp:165-240 | a REQUEST for one of the eight addresses, in which no odd run of PADs stands in front of its type or address, is understood as such, whatever the memory held before |
| DhcpWire.DiscoverUnderstood | dhcp/dhcpserver.cpp:165-191 | the same for a DISCOVER |
| DhcpWire.OfferHonouredOnWire | dhcp/dhcpserver.cpp:156-273 | on the bytes sent: a client that requests the address it was offered gets exactly that address acknowledged, unless another client was acknowledged it in between |
| DhcpWire.DiscoverAnsweredOnWire | dhcp/dhcpserver.cpp:156-273 | on the bytes sent: a client that discovers is offered an address if the last acknowledgement of some address, if there is one, went to the client itself or was of a lease that ran out between 65,536 ms and 2^31 ms ago |
| DhcpWire.OfferOnWireIs | dhcp/dhcpserver.cpp:156-273 | on the bytes sent: the address offered to a DISCOVER is that of the slot of `DhcpLease.OfferIff`, in both directions |
| DhcpWire.AckOnWireIff | dhcp/dhcpserver.cpp:156-273 | on the bytes sent: a REQUEST for one of the eight addresses is acknowledged with it exactly if its slot is the client's or free, and else not answered |
| DhcpWire.OthersIgnored | dhcp/dhcpserver.cpp:190-264 | a REQUEST for an address outside the server's network or outside 16 to 23, and a message of any type but 1 and 3, mean nothing to the server |
| DhcpWire.LastAckOnWire | dhcp/dhcpserver.cpp:156-273 | the last acknowledgement of an address in the lease table's history is the last one on the wire |
| DhcpStale.UnderstoodIgnoresStaleBytesIff | dhcp/dhcpserver.cpp:165-240 | a datagram means the same whatever the memory held before exactly when its own bytes settle its type and, for a REQUEST, the address; for every datagram long enough to be looked at |
| DhcpStale.CutRequestTakesStaleAddress | dhcp/dhcpserver.cpp:165-240 | a REQUEST of 243 bytes that ends behind its type asks for nothing over some memory and for the first address over another |
| DnsServer.AnswerStart | dns/dnsserver.cpp:176-187 | a query that is answered has its answer between bytes 16 and 271, so that 16 more bytes fit in 300 |
| DnsServer.WalkBound | dns/dnsserver.cpp:153-173 | the walk over any bytes stops at most 63 bytes behind them |
| DnsServer.WalkLabels | dns/dnsserver.cpp:153-173 | the loop computes the specified walk, ends on every input, and reads only received bytes |
| DnsServer.FindAnswerStart | dns/dnsserver.cpp:109-184 | the checks of length, flags, question count and question length compute where the answer goes, or that there is none; which datagrams pass is `DnsReply.RepliedIff` |
| DnsServer.Server.Process | dns/dnsserver.cpp:101-219 | for every datagram and stale stack, the reply is the specified one, or none, and at most 287 bytes long |
| DnsServer.Server.WriteAnswer | dns/dnsserver.cpp:186-205 | the sixteen bytes of the answer stand at the pointer and no other byte changed |
| DnsServer.WriteHeader | dns/dnsserver.cpp:207-214 | the ten header bytes behind the id are the fixed ones and no other byte changed |
| DnsReply.WalkedName | dns/dnsserver.cpp:153-173 | on a name the walk accepts, a reader after section 4.1.4 of RFC 1035 stops where the walk stops |
| DnsReply.ReplyAnswersQuestion | dns/dnsserver.cpp:153-218 | for every answered query with its first question inside the received bytes, the reply reads as the same id, flags 0x8480, that one question, and one A/IN record of TTL 60 whose pointer leads to the question's name and whose data is the server's address |
| DnsReply.AnsweredIff | dns/dnsserver.cpp:130-181 | a message with clear response bit, zero opcode bits, a question count that is not 0 and a readable question is answered exactly when its name takes as many octets as its labels do, that is, when it is written without compression |
| DnsReply.RepliedIff | dns/dnsserver.cpp:109-181 | exactly which datagrams are answered: of the first 300 bytes, the response bit is clear, the opcode bits are 0, the question count is not 0, and behind the header stands a run of labels of 1 to 63 octets, ended by a zero octet or the end, of at most 255 octets |
| DnsReply.ReplyUnanswered | dns/dnsserver.cpp:130-135 | no reply of the server is itself answered |
| DnsReply.QuestionInsideIff | dns/dnsserver.cpp:153-184 | the answer to a query starts within the received bytes exactly when its first question lies inside them |
| DnsReply.ReplyIgnoresStaleBytesIff | dns/dnsserver.cpp:105-218 | the reply to an answered query depends on the query alone exactly when its first question lies inside the received bytes; these are the queries of `ReplyAnswersQuestion` |
| DnsReply.BareHeaderGetsStaleBytes | dns/dnsserver.cpp:105-218 | a concrete query of twelve bytes: the reply has 32 bytes, and four of them are whatever the stack held |
| Eeprom.WriteStores | eeprom/eeprom.cpp:9-37 | for every fault pattern, when a write has returned, its cell (address mod 256) holds the byte and every other cell is unchanged |
| Eeprom.WriteHangs | eeprom/eeprom.cpp:9-62 | a write of 0xFF, or one that verifies a cell which reads 0xFF, takes for ever |
| Eeprom.WriteReturnsIff | eeprom/eeprom.cpp:9-62 | with finitely many faults, a write returns exactly when the byte is not 0xFF and its cell does not read 0xFF or the first transfer succeeds |
| Eeprom.WriteFaults | eeprom/eeprom.cpp:9-37 | however many transfers a write takes, the faults left when it has returned are the same |
| Eeprom.ReadEndsIff | eeprom/eeprom.cpp:39-62 | with finitely many faults, a loop that reads a cell until it sees a byte it waits for ends exactly when the cell holds such a byte: any but 0xFF for `read`, 0 or 1 for `readBoolean` |
| Eeprom.ReadStringReturnsIff | eeprom/eeprom.cpp:83-103 | with finitely many faults, `readString` returns exactly when a NUL comes within 256 cells and no cell in front of it reads 0xFF; else it reads round the chip for ever or waits at that cell |
| Eeprom.SafeStore | eeprom/eeprom.cpp:69-81 | every write of a string returns if no byte of it is 0xFF and either no transfer fails or no cell that it goes to reads 0xFF |
| Eeprom.Driver.Read | eeprom/eeprom.cpp:39-62 | whenever it returns, the loop returns the cell, after the first attempt that succeeds |
| Eeprom.Driver.Write | eeprom/eeprom.cpp:9-37 | the loop ends with exactly its own cell changed to the byte, by a measure on the faults left |
| Eeprom.Driver.WriteString | eeprom/eeprom.cpp:69-81 | whenever every one of its writes returns, the bytes and a NUL are stored one behind the other and the address behind them is returned |
| Eeprom.Driver.ReadString | eeprom/eeprom.cpp:83-103 | whenever it returns, the bytes from the address up to the first NUL are returned, the NUL included |
| Eeprom.Driver.WriteBoolean | eeprom/eeprom.cpp:123-125 | the cell becomes 1 or 0 and no other changes |
| Eeprom.Driver.ReadBoolean | eeprom/eeprom.cpp:127-136 | whenever it returns, the result tells whether the cell is 1 |
| Decimal.AtoiOfPrint | main.cpp:136-141 | a number's decimal text, with any non-digit behind it, reads back as the number |
| Decimal.PortLength | main.cpp:136 | a 32-bit number's text has at most ten digits |
| Settings.LoadedAfterSave | main.cpp:132-141 | over any previous contents, exactly what reading gives after one pass of writes: a field too long for its slot continues with the field behind it |
| Settings.SavedCell | main.cpp:132-136 | every cell after a pass with strings that fit: the flag at 0, the strings at 1, 18, 69 and 89 with a NUL behind each, and all other cells as before |
| Settings.LoadsBackIff | main.cpp:132-141 | all five settings load back exactly when ssid, password and hostname have at most 16, 50 and 19 characters or run into a next field that happens to continue them |
| Settings.LongHostnameRunsIntoPort | main.cpp:135-140 | every hostname of 20 characters reads back with the port's digits behind it |
| Settings.OnlyThePortIsCompared | main.cpp:148-149 | the check that ends the loop holds exactly when the port reads back |
| Settings.FirstPassAccepted | main.cpp:128-154 | the check holds after the first pass of writes over any contents |
| Settings.SafeSave | main.cpp:132-136 | every write of a pass returns if no transfer fails or no cell that the pass writes reads 0xFF, whatever the other cells hold |
| Settings.SavedNoBlank | main.cpp:132-136 | after a pass, no cell that it wrote reads 0xFF |
| Settings.ErasedChipCanBeSaved | main.cpp:357-362 | on a chip whose first 128 cells were erased, every write of a pass returns whatever transfers fail, if the settings end within those cells |
| Settings.WriteAll | main.cpp:132-136 | whenever every one of its writes returns, one pass gives the specified memory |
| Settings.Save | main.cpp:128-154 | the loop ends in its first pass, with the memory that pass leaves; its retry and its watchdog reset are never reached |
| Settings.LoadReturnsIff | main.cpp:372-386 | with finitely many faults, the load sequence returns exactly when the flag cell holds 0, or holds 1 and each of the four strings ends |
| Settings.BlankChipNeverLoads | main.cpp:372 | on a chip whose cells all read 0xFF, start-up never gets past the flag, even without faults |
| Settings.SavedCanLoad | main.cpp:132-386 | after a pass of writes, loading returns |
| Settings.Load | main.cpp:372-386 | whenever it returns, flag and fields are read as the memory holds them |
| Settings.SaveThenLoad | main.cpp:128-386 | saving and loading on one chip returns the port saved and the fields as they read |
| Oled.AddressInjective | oled/oled_display.cpp:85-95 | two pixels of a screen share a byte only in the same column and page |
| Oled.AddressOnto | oled/oled_display.cpp:85-95 | every bit of the buffer is the bit of a screen pixel |
| Oled.AllPixelsFitIff | oled/oled_display.cpp:3-12 | every pixel's byte lies in the buffer exactly when the height is a multiple of 8 |
| Oled.PixelsDetermineBuffer | oled/oled_display.cpp:85-95 | two buffers with the same lit pixels are equal |
| Oled.LitInPage | oled/oled_display.cpp:85-95 | bit k of the byte width * p + x is the pixel in column x, k rows below the top of page p |
| Oled.BitsAssembled | oled/oled_display.cpp:85-95 | a byte is the sum of 2^k over its set bits |
| Oled.Display.Clear | oled/oled_display.cpp:81-83 | no pixel is lit |
| Oled.Display.DrawPixel | oled/oled_display.cpp:91-95 | exactly that pixel, if it is on screen, is lit in addition |
| Oled.Display.ClearPixel | oled/oled_display.cpp:85-89 | exactly that pixel, if it is on screen, is dark and the others are as they were |
| Oled.Display.DrawSquare | oled/oled_display.cpp:119-124 | exactly the on-screen pixels of the rectangle, taken round the 32-bit coordinate range, are lit in addition |
| OledText.PartInFont | oled/oled_display.cpp:138-141 | every byte read for a character lies in the font |
| OledText.DrawPart | oled/oled_display.cpp:140-146 | one byte of a glyph lights exactly the scaled squares of its eight bits |
| OledText.DrawChar | oled/oled_display.cpp:133-151 | exactly the on-screen pixels of the scaled glyph bits are lit in addition; none for a character the font lacks |
| OledText.DrawString | oled/oled_display.cpp:153-157 | exactly the on-screen pixels of all characters' scaled glyph bits are lit in addition, the characters placed at multiples of (width + spacing) * scale |
| OledTextRead.GlyphBoxesDisjointIff | oled/oled_display.cpp:153-157 | the boxes of two characters share no column exactly when their distance round the coordinate range is at least a box |
| OledTextRead.GlyphBoxesDisjoint | oled/oled_display.cpp:153-157 | the boxes of a text that does not wrap are pairwise disjoint |
| OledTextRead.TextReadsBack | oled/oled_display.cpp:133-157 | if no glyph reaches the end of the coordinate range, every pixel of the cell of one glyph bit is inked exactly when that bit is set, whether or not the whole text is on screen |
| OledTextRead.TextInkIff | oled/oled_display.cpp:133-157 | the text inks a pixel exactly when it lies in the cell of a set glyph bit |
| OledFont.GlyphBitIff | oled/oled_display.cpp:133-151 | in a font written down as glyphs of columns of rows and laid out behind height, width, spacing, first and last character, the loops read exactly bit `row` of column `col` of the character's glyph |
| OledFont.TextShowsGlyphs | oled/oled_display.cpp:133-157 | text in such a font lights a pixel exactly when it lies in a square of side `scale` at x + k * (width + spacing) * scale + col * scale and y + row * scale for a bit set in the k-th character's glyph |
| OledFont.EncodedIsFont | oled/font.h:4-9 | a font laid out like this has the data of all its characters |
| OledBmp.BitInData | oled/oled_display.cpp:208-221 | every stored bit that is read lies in the data, if the last one does |
| OledBmp.LowBitsCleared | oled/oled_display.cpp:209-210 | the exclusive-or trick rounds down to a multiple of four |
| OledBmp.FindBlack | oled/oled_display.cpp:199-206 | the index of the first black palette entry, or what the variable held |
| OledBmp.BytesPerLine | oled/oled_display.cpp:208-210 | a row takes 4 * ceil(width / 32) bytes for a width that is not negative, and what the expression gives for a negative one |
| OledBmp.StrideRounded | oled/oled_display.cpp:208-210 | rounding the bytes begun up to four is 4 * ceil(width / 32) |
| OledBmp.DrawRow | oled/oled_display.cpp:217-220 | one stored row lights exactly the pixels whose bit is the black index |
| OledBmp.ShowRows | oled/oled_display.cpp:212-222 | the outer loop, downward for a positive height and upward else, draws every stored row once and ends |
| OledBmp.ShowImage | oled/oled_display.cpp:181-223 | a monochrome uncompressed image, of whatever sizes, whose reads lie in the data lights exactly the on-screen pixels whose bit is the black index in addition, through a loop that ends; any other image changes nothing |
| OledBmp.BmpReadsBack | oled/oled_display.cpp:212-222 | a pixel is inked exactly when it lies in the image, taken round the 32-bit coordinates, and the bit stored for it is the black index: in row height - 1 - y for a positive height, else in row y |
| OledBmp.DrawableIff | oled/oled_display.cpp:182-196 | an image is drawn exactly if it has 54 bytes, the bit count at 28 is 1 and the compression at 30 is 0 |
| OledBmpFile.EncodedInData | oled/oled_display.cpp:181-222 | a bitmap laid out as a file, its lines bottom-up in packed and padded rows, is drawable and read only inside its data |
| OledBmpFile.ImageShowsBitmap | oled/oled_display.cpp:181-222 | drawing such a file at an offset lights a pixel exactly when it is a black pixel of the bitmap, whichever colour the palette begins with |
| OledBmp.NegativeSizeInDataIff | oled/oled_display.cpp:214-221 | in data below 256 MB, the loops stay within the data of an image with a negative size exactly when it has no rows or no columns, counted as unsigned |
| OledBmp.TopDownImageReadOutside | oled/oled_display.cpp:214-221 | a complete image of one column and height -1 is drawable, its one row lies in its 66 bytes, and the loops read behind them |
| OledBmp.RowsInDataIff | oled/oled_display.cpp:212-222 | every stored bit that the loops read lies in the data exactly when the last one does |
| Rosc.NextIsCarried | hardware/rosc.c:16-18 | the bit trick adds one to the octal digits, carrying over sevens |
| Rosc.NextCodeIsSuccessor | hardware/rosc.c:14-18 | a step of a valid code gives a larger valid code of octal value one more, and 0x77777777, of value 8^8 - 1, gives 0x80000000 |
| Rosc.ValueInjective | hardware/rosc.c:14-18 | codes with the same octal value are equal |
| Rosc.NthValue | hardware/rosc.c:23 | the code after n steps from 0 is valid and has the value n |
| Rosc.EveryCodeOnce | hardware/rosc.c:20-31 | each of the 8^8 valid codes is met at exactly one step, its octal value |
| Rosc.RegistersHoldCode | hardware/rosc.c:38-41 | the code can be read back from the two registers |
| Rosc.RegistersHoldPassword | hardware/rosc.c:38-41 | both registers hold the password in their upper halves |
| Rosc.Oscillator.SetFreq | hardware/rosc.c:38-41 | the registers hold the code |
| Rosc.Oscillator.FindFreq | hardware/rosc.c:20-31 | the search ends with the first code in octal order whose frequency is in the band still set and the frequency that the counter reports for the registers returned, or with 0 when none of the 8^8 codes is in the band |
| Rosc.Oscillator.Search | hardware/rosc.c:23-30 | the same for the loop alone |
| Rosc.Oscillator.Try | hardware/rosc.c:24-28 | one turn finds the code in the band or adds it to those missed |
| Rosc.Advance | hardware/rosc.c:23 | the next code is the one of the next value, or the mark above all codes |
| HttpQuery.EnterNext | http_server/server.h:124-134 | one turn enters the segment up to the next '&', split at its first '=', or nothing without one |
| HttpQuery.ParseGetQuery | http_server/server.h:119-140 | the loop computes the last-wins fold over the '&'-separated segments |
| HttpQuery.ParseUndoesJoin | http_server/server.h:119-140 | parsing undoes joining, for keys without delimiters and values without '&', the last value of a key winning |
| HttpQuery.PairSurvivesIff | http_server/server.h:122-137 | a pair sent alone comes back alone exactly when its key has no delimiter and its value no '&' |
| HttpConfig.Server.TakeOne | http_server/server.h:157-175 | one pair sets the setting of its key and counts, or does neither |
| HttpConfig.Server.TakeParams | http_server/server.h:151-176 | whatever the iteration order, each setting has its key's value, and the count is at least four exactly when all four keys are there |
| HttpConfig.PrintInto | http_server/server.h:147-184 | what fits of the page and a NUL are in the buffer, and the page's length is returned |
| HttpConfig.Server.ServerContent | http_server/server.h:142-187 | the new state is the one that `HttpConfig.FormDelivers` and `HttpConfig.OthersKeep` describe; the setup path gets the page and its length, any other path 0 and an unchanged buffer |
| HttpConfig.FormDelivers | http_server/server.h:142-187 | a form of plain pairs sent to a path that begins with /setup sets ssid, password, hostname and port each to the last value of its literal key, or leaves it, and sets the kill flag exactly if all four keys occur |
| HttpConfig.OthersKeep | http_server/server.h:142-187 | any other path, or no parameters, changes nothing; a connection changes only whether the configuration is complete |
| HttpConfig.ExampleForm | http_server/server.h:142-187 | `ssid=net&port=80` sets ssid to net and port to the number 80 and nothing else |
| HttpConfig.VisitsDeliver | http_server/server.h:142-317 | after any forms, pages and connections, each setting is what was sent last for its literal key, and the configuration is complete exactly when a connection was accepted after a form with all four keys |
| HttpConfig.Server.TcpServerAccept | http_server/server.h:286-317 | the new state is the protocol's next one for this connection |
| HttpConfig.KilledIff | http_server/server.h:178-181 | in every run, the kill flag is set exactly when some single request carried all four keys |
| HttpConfig.CompleteIff | http_server/server.h:286-317 | in every run, configuration is complete exactly when a connection was accepted after a single request with all four keys |
| HttpConfig.SettingsAreLastDelivered | http_server/server.h:154-176 | in every run, each setting holds the value delivered last for its key |
| HttpConfig.CompleteMeansDelivered | http_server/server.h:142-317 | once complete, every setting was delivered |
| Measurement.WriteEntry | domain/InterfaceMeasurement.cpp:76-87 | key and value are appended, the value quoted unless it begins with '[' and that is allowed |
| Measurement.WriteEntries | domain/InterfaceMeasurement.cpp:73-94 | the loop writes all entries with commas between them only |
| Measurement.SerializeMeasurement | domain/CurrentMeasurement.cpp:7-38 | the text of the object that `Measurement.MeasurementReads` looks up |
| Measurement.SerializeList | domain/InterfaceMeasurement.cpp:56-67 | the text is the printed array of the measurements in order |
| Measurement.Serialize | domain/InterfaceMeasurement.cpp:47-97 | the text of the whole report |
| Measurement.ReportLength | domain/InterfaceMeasurement.cpp:71-96 | the text is the shortest text of the object of UUID, list and status, or two characters less when the UUID begins with '[' |
| Measurement.DecodesIff | domain/InterfaceMeasurement.cpp:47-97 | a reader after RFC 8259, with escapes and white space, gets the same UUID, status and ordered list back exactly when no string holds a quote, backslash or control character and the UUID does not begin with '[' |
| Measurement.ReportReads | domain/InterfaceMeasurement.cpp:47-97 | looked up by key in what a reader of the text returns: the UUID, the status by its literal text, and for each measurement in order its name, its type by its literal text, and its printed value |
| Measurement.MeasurementReads | domain/CurrentMeasurement.cpp:7-38 | looked up by key in what a reader of one measurement's text returns: its name, its type by its literal text, and its printed value |
| Measurement.MeasurementText | domain/CurrentMeasurement.cpp:7-38 | the characters of one measurement's text: the keys name, type and value with their quoted values in this order |
| Measurement.ReportInjective | domain/InterfaceMeasurement.cpp:47-97 | different reports stand for different values |
| ReplaceAll.SplitThenJoin | utils/utils.cpp:245-249 | cutting a string at the leftmost non-overlapping occurrences loses nothing |
| ReplaceAll.JoinThenSplit | utils/utils.cpp:245-249 | that cut is unique |
| ReplaceAll.ReplacedPieces | utils/utils.cpp:245-249 | replacing puts the new text exactly where the leftmost occurrences were |
| ReplaceAll.ReplacedLength | utils/utils.cpp:245-249 | the result is longer by the number of occurrences times the difference in length |
| ReplaceAll.ReplaceNext | utils/utils.cpp:246-248 | one turn keeps the final result and shortens the unprocessed rest by at least the pattern |
| ReplaceAll.Replace | utils/utils.cpp:242-250 | the loop ends with every leftmost non-overlapping occurrence replaced, also when the new text holds the pattern |

## Left out

- DhcpOptions.FindOptIsFirst: for one code alone the condition is sufficient only: behind an odd run of PADs the search may land on an entry by accident. `DhcpOptions.FindsAllIff` is exact for all options of a list together.
- DhcpOptions.FindsAllIff: lists in which a code comes twice, or whose END lies behind the searched range, are not covered; a repeated option may be jumped over unnoticed.
- DhcpWire.RequestUnderstood: messages in which an odd run of PADs stands in front of the type or the address are not covered; the server may still find those options by accident.
- DhcpWire.DiscoverUnderstood: the same.
- Eeprom.Driver.Write: stated for the calls that return, since a Dafny method must end; `Eeprom.WriteReturnsIff` says which do.
- Eeprom.Driver.Read: stated for the calls that return; `Eeprom.ReadEndsIff` says which do.
- Eeprom.Driver.ReadBoolean: the same.
- Eeprom.Driver.ReadString: stated for the calls that return; `Eeprom.ReadStringReturnsIff` says which do.
- Settings.Load: stated for the starts that get through it; `Settings.LoadReturnsIff` says which do.
- Settings.LoadsBackIff: strings that run past the last cell and wrap round to the first are not modelled; a request is cut to 127 bytes (http_server/server.h:204).
- Settings.Save: stated for the passes whose every write returns, in the same sense as for `Eeprom.Driver.Write`.
- OledBmp.ShowImage: rows or palette entries that would be read outside the data are excluded; such reads have no meaning in the original.
- Measurement.DecodesIff: the reader knows no numbers, literals or surrogate escapes, which the report does not use.
- OledText.DrawString: fonts shorter than their header says are excluded.
- HttpConfig.Server.ServerContent: the page's text is a parameter, and holds no conversions for the C library's formatting, as the original's does not.
- ReplaceAll.Replace: returns the new string instead of changing its argument; aliasing of the three strings is not modelled, and `std::string::find` is a function.
- Datagram reception and sending, packet buffers (which the success paths of DHCP and DNS do not free), sockets, TCP callbacks other than accept, and splitting a request into path and parameters (http_server/server.h:207-222).
- NACKs: the server sends none; the places where it should are silent, as in the code.
- `draw_line`, `draw_empty_square` and the display's commands: floating-point slopes and register writes.
- `eeprom::readString` with a size: not used when saving or loading.
- UART history, sleep, clocks, Wi-Fi connection, TLS requests, and the main loop: drivers over interrupts and registers.
