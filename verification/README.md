# Arduino charging and radio libraries: a verified model

This project models the parts of the repository whose behaviour is hardest to see from
the code, and proves what they are relied on for. Each Dafny module follows one piece:

- **BLE attribute server** (`BleLinkedList`, `AttributeTable`, `Gatt`, `GattRegistry`, `GattRelease`, `AttDiscovery`,
  `AttPaging`, `AttClient`, `AttInformation`, `AttExchange`, `AttValues`, `Att`, `AttLongWrite`): registration lays services,
  characteristics and descriptors into a table; requests are answered from the table within the MTU; long writes are
  queued. The standard is the Bluetooth Core Specification, Vol 3 Part F sections 3.4.3, 3.4.4 and 3.4.6 and Vol 3 Part G
  sections 4.4.1, 4.4.2, 4.6.1, 4.7.1, 4.8.3, 4.9.4.
- **HCI transport** (`HciFraming`, `HciAcl`, `HciCredits`): the octet-wise packet parser, the packets that requests and
  responses travel in, and the flow control towards the controller (Bluetooth Core Specification, Vol 4 Part E section 4.1).
- **Flash persistence** (`Nvm`, `FlashStorage`, `Eeprom`, `Ota`): NOR cells behind a page buffer, a record in reserved
  rows, an emulated EEPROM, and the staging and copying of a sketch image.
- **WiFi101 receive path** (`WiFiSocket`): all eleven sockets over the one buffer that the chip lends, a host buffer for
  each, re-arming of `recv`.
- **Charging controller** (`Charging`) and **codecs** (`Base64` with `SixBits`, section 4 of RFC 4648, and `GsmHex`).
- `Bytes` holds octets, 16-bit fields and record lists that the others share.

Objects whose methods update fields are classes, loops are loops, and buffers are arrays; each such method is tied to a
function of the old state, and what that function guarantees over all inputs and all runs is proved in lemmas and in
run-level methods. Clocks, hardware and peers are parameters: an nvm controller, a chip with a script of arrivals and of
failing transfers, a modem with a script of answers, a controller that reports completed packets.

The main results are `GattRegistry.RegisterThenDiscover` (whatever services are registered, a client discovers each of
them and each of their characteristics once if and only if the lengths of their UUIDs and the MTU let all records arrive,
which is so for every table up to an MTU of 253 and for short lists at any), `AttClient.DiscoverByUuid` and
`AttInformation.DiscoverTypes`, `GattRelease.RegisterThenClear`,
`AttLongWrite.WriteLongThenRead` and `AttLongWrite.WriteRequests`, `HciFraming.PollStream`, `HciCredits.NeverOverrun` with
`HciCredits.StuckExactly`, `FlashStorage.WriteThenRead`, `Eeprom.Run`, `Ota.Update` with `Ota.InstalledFaithful`,
`WiFiSocket.Run`, `Charging.Run` with `Charging.WindsDown`, `Base64.RoundTrip` and `GsmHex.GsmClient.Write` with
`GsmHex.Run`.

## Where the code does less than it promises

The model keeps the code's behaviour; these are proved with exact conditions or visible in the contracts.

- `sendAclPkt` takes the length of a PDU as one octet and announces the length of the packet in one octet again: a PDU
  arrives whole, and what goes out is its packet, if and only if it has at most 251 octets (`HciAcl.WholeExactly`,
  `HciAcl.OutgoingPacket`); one of 252 to 255 octets announces 0 to 3 and does not arrive (`HciAcl.LengthWraps`). Discovery
  therefore gets all records if and only if none of its responses loses every record on the way, which the lengths of the
  records and the MTU decide (`AttPaging.AllArrive`, `AttClient.DiscoverServices`, `AttClient.DiscoverCharacteristics`). It
  always succeeds up to an MTU of 253 (`AttPaging.ArriveUpTo253`) and for at most 249 octets of records at any
  (`AttPaging.FewArrive`); for every MTU above 253 it fails on some table (`AttPaging.NoneOf254`,
  `AttClient.DiscoveryCutShort`). A search for services by their UUID always succeeds up to an MTU of 252 and loses 63 ranges
  from 253 on (`AttPaging.RangesArrive`, `AttPaging.RangesLost`). A long value is read back if and only if it is not
  empty, which is answered by an Invalid Offset error, and the MTU is at most 251 or the value has at most 250 octets
  (`AttValues.ReadLongValue`).
- The other way a PDU stays inside the receive buffer if and only if it has at most 249 octets (`HciAcl.IncomingFits`).
- A characteristic keeps the length of its value in one octet, and one of fixed length shows its full size with what stood
  behind the octets written: a long write comes back if and only if it is not empty, its length is the one shown (its own
  below 256, or the size in one octet), and it can be read at all (`AttValues.SplitWriteStored`,
  `AttLongWrite.WriteLongThenRead`).
- The range check of Read, Read Blob and Prepare Write is right if and only if the handle is not the one right after the last
  attribute (`AttDiscovery.RangeCheckRight`); the handlers are modelled for every other handle, in range or not.
- A refused Prepare Write claims the queue if and only if the queue was idle and the handle can be written
  (`AttValues.RefusedClaims`); until it is executed every other handle is turned away (`AttValues.ClaimTurnsAway`,
  `AttValues.RefusedPartTurnsAway`).
- Find Information takes its format from the UUID of a service or characteristic even where it writes a two-octet type, and
  cuts the UUID of a value to two octets: a client learns the handles and types of the slots in a response if and only if no
  service or characteristic among them has a UUID of 16 octets (`AttDiscovery.InfoReadRight`); of
  such a slot it learns the handle and the first two octets of the type (`AttDiscovery.EntryCut`).
- Read By Type by a characteristic's UUID answers with the handle of the first slot in the range: that is the handle of the
  value if and only if the range begins with the slot of the value (`AttDiscovery.ValueHandleAnswered`,
  `AttDiscovery.DeclarationAnswered`). It hands the value out whatever the properties of
  the characteristic (`AttDiscovery.PropertiesIgnored`), where Read and Read Blob refuse a value without the read property and
  answer the same whatever it is (`AttValues.ValueAnswered`, `AttValues.UnreadableHidden`). Find By Type Value errors carry the
  response opcode (`AttDiscovery.FindByTypeReq`).
- Clearing the table releases a characteristic once for each of its two slots, though it was retained once, and a
  characteristic never retains the configuration descriptor that it makes for itself. `GattRelease.RegisterThenClear` says
  of every object by whom else it is held when it is deleted and when it is released again after that: a service goes if and
  only if nobody else holds it; a characteristic whose service goes is deleted even if one other holds it; and a
  configuration descriptor is deleted while its characteristic goes on listing it (`GattRelease.ConfigurationGoesFirst`).
- An HCI packet without payload takes the first octet of the next one (`HciFraming.PacketDispatched`,
  `HciFraming.EmptyPacketSwallows`), and a packet stays inside the receive buffer just up to 258 octets.
- A report of zero completed packets clears the whole count (`HciCredits.CreditedSubtracts`), which breaks the bound just
  when the controller holds a packet (`HciCredits.EmptyReportUncovers`). Packets that the controller
  flushes on a disconnection never give their credits back: a run gets stuck if and only if the packets flushed in it amount
  to all that the controller can hold (`HciCredits.StuckExactly`; `HciCredits.FlushLosesCredit` is such a run), and then no
  send is ever let through again (`HciCredits.StuckForever`).
- Erasing a size of zero erases a row although nothing is reserved (`FlashStorage.ErasedIsReserved`).
- `isValid` stays false after a commit that found only octets of 0xFF written (`Eeprom.BlankWritesUnmarked`).
- An image whose last page holds one to three octets loses them, unless they are 0xFF (`Ota.InstalledFaithful`).
- While any WiFi101 socket has octets left in the chip's buffer, no event reaches any other
  (`WiFiSocket.WiFiSocketClass.HandleEvents`).
- A GSM client over SSL that is asked whether it is connected after the end was announced gives up the octets not yet read;
  only that and `stop` lose any (`GsmHex.GsmClient.Connected`, `GsmHex.Run`).
- The amps of the charger pass through 16 bits: they are the most that the wattage and the C rate allow as long as the
  quotient of wattage and voltage fits (`Charging.AmpsLargest`), and beyond that start again from zero (`Charging.AmpsWrap`).
- The clamp of a voltage row is repeated without the test of its threshold, so rows for voltages not yet reached cut back
  as well (`Charging.ThresholdsKept`, `Charging.IdleRowBitesBelowItsThreshold`). A whole call respects the thresholds if and
  only if no such row bites or the rest of the call hides it, as it does outside the voltage range, at the end voltage for a
  wattage within three ramps, and in one corner of the station limit (`Charging.CallKeepsThresholds`). The cold table declares
  32 rows and has 28; the model takes as many rows as the loop visits.

## Model

| member | source | states |
|---|---|---|
| `BleLinkedList.LinkedList.Add` | libraries/ArduinoBLE/src/utility/BLELinkedList.h:60-75 | the list holds the item behind the earlier ones; the chain stays acyclic and ends in the new node |
| `BleLinkedList.LinkedList.Get` | libraries/ArduinoBLE/src/utility/BLELinkedList.h:77-90 | the item at the index, the default past the end |
| `BleLinkedList.LinkedList.Clear` | libraries/ArduinoBLE/src/utility/BLELinkedList.h:92-107 | empties the list and releases each node once |
| `BleLinkedList.Run` | libraries/ArduinoBLE/src/utility/BLELinkedList.h:60-107 | any interleaving of additions, lookups and clears answers as a sequence does and leaves what it leaves there |
| `Gatt.LocalCharacteristic.StoreValue` | libraries/ArduinoBLE/src/local/BLELocalCharacteristic.cpp:106-113 | the buffer takes as many octets as the one-octet length says; a fixed-length value shows its full size |
| `Gatt.ServiceKeepsPlaced` | libraries/ArduinoBLE/src/utility/GATT.cpp:124-151 | one more service keeps the layout: contiguous service ranges, two slots for a characteristic, descriptor handle = index + 1 |
| `Gatt.Table.AddCharacteristic` | libraries/ArduinoBLE/src/utility/GATT.cpp:131-148 | appends the two slots and the descriptors and sets their handles |
| `Gatt.Table.AddService` | libraries/ArduinoBLE/src/utility/GATT.cpp:124-151 | the table grows by exactly the slots of the service and stays valid, retains counted; all objects learn their handles |
| `Gatt.Table.ClearAttributes` | libraries/ArduinoBLE/src/utility/GATT.cpp:153-164 | empties the table; every slot's object is released in turn, and where a count comes to zero its parts are as well |
| `Gatt.Table.SlotsOfEach` | libraries/ArduinoBLE/src/utility/GATT.cpp:124-164 | services and descriptors stand in one slot, a characteristic in exactly the slots of its handle and the next |
| `Gatt.Table.WriteValue` | libraries/ArduinoBLE/src/local/BLELocalCharacteristic.cpp:217-226 | both slots of the characteristic show the new value, it is marked written, no other slot and no handle changes |
| `Gatt.ShownWellLaid` | libraries/ArduinoBLE/src/utility/GATT.cpp:124-151 | objects placed by registration show a well laid out table |
| `GattRegistry.ServiceAdds` | libraries/ArduinoBLE/src/utility/GATT.cpp:124-151 | a registered service adds one entry to the services and its characteristics, in order, to the characteristics |
| `GattRegistry.RegisterAll` | libraries/ArduinoBLE/src/utility/GATT.cpp:124-151 | after any sequence of registrations the table holds the slots of those services and nothing else |
| `GattRegistry.RegisterThenDiscover` | libraries/ArduinoBLE/src/utility/ATT.cpp:436-711 | for any services and MTU, discovery finds every service in order with its range and UUID, and in each range that service's characteristics and no others, if and only if the UUID lengths and the MTU let all records arrive; otherwise the first ones |
| `GattRegistry.DiscoverableUpTo253` | libraries/ArduinoBLE/src/utility/HCI.cpp:335-361 | up to an MTU of 253 any services do |
| `GattRegistry.FewDiscoverable` | libraries/ArduinoBLE/src/utility/HCI.cpp:335-361 | and at any MTU those whose lists have at most 249 octets each |
| `GattRelease.CharReleased` | libraries/ArduinoBLE/src/utility/GATT.cpp:153-164 | two releases of a characteristic, one of each descriptor, and one more of each if the characteristic is deleted at either slot |
| `GattRelease.ServicesReleased` | libraries/ArduinoBLE/src/utility/GATT.cpp:153-164 | for services that share no objects, the releases of each and of its parts in the whole run |
| `GattRelease.RegisterThenClear` | libraries/ArduinoBLE/src/local/BLELocalService.cpp:32-43 | any registrations, then clearing: which objects are deleted and which are released after that, exactly, by who else holds them |
| `GattRelease.ConfigurationGoesFirst` | libraries/ArduinoBLE/src/local/BLELocalCharacteristic.cpp:35-74 | a configuration descriptor is deleted while its characteristic stays |
| `AttributeTable.HandleInOneService` | libraries/ArduinoBLE/src/utility/GATT.cpp:124-151 | service ranges are disjoint and cover all handles |
| `AttributeTable.ServicesExactlyOnce` | libraries/ArduinoBLE/src/utility/ATT.cpp:456-495 | the list of services names each service slot of a range once, ascending, and nothing else |
| `AttributeTable.CharsExactlyOnce` | libraries/ArduinoBLE/src/utility/ATT.cpp:625-703 | the list of characteristics names declarations only, ascending, with properties, UUID and value handle = declaration + 1 |
| `AttributeTable.CharsAllFound` | libraries/ArduinoBLE/src/utility/ATT.cpp:625-703 | and every declaration of the range is in it |
| `AttributeTable.ServicesResume` | libraries/ArduinoBLE/src/utility/ATT.cpp:456-495 | going on after the end of any service found skips none and repeats none |
| `AttributeTable.CharsResume` | libraries/ArduinoBLE/src/utility/ATT.cpp:625-703 | the same after a declaration found |
| `AttributeTable.ServiceRecordsRead` | libraries/ArduinoBLE/src/utility/ATT.cpp:456-495 | records parsed as a client does give start, end and UUID back |
| `AttributeTable.CharRecordsRead` | libraries/ArduinoBLE/src/utility/ATT.cpp:650-684 | records parsed as a client does give declaration, properties, value handle and UUID back |
| `AttributeTable.NamedExactly` | libraries/ArduinoBLE/src/utility/ATT.cpp:400-421 | the services called by a UUID are just those of the list that have it |
| `AttributeTable.RangeRecordsRead` | libraries/ArduinoBLE/src/utility/ATT.cpp:400-421 | the ranges listed for a UUID, parsed at octets 0 and 2, are the starts and ends of just those services, in order |
| `AttDiscovery.ReadByGroupReq` | libraries/ArduinoBLE/src/utility/ATT.cpp:436-502 | the longest run of matching services with one UUID size that fits the MTU, or the right error; never longer than the MTU |
| `AttDiscovery.ReadByTypeReq` | libraries/ArduinoBLE/src/utility/ATT.cpp:605-711 | the same for declarations in spite of the double slot; for another type the first value with that UUID, cut to the MTU |
| `AttDiscovery.FindByTypeReq` | libraries/ArduinoBLE/src/utility/ATT.cpp:383-434 | the ranges of the services with the given UUID, as many as fit and nothing behind them, or the right error; `AttributeTable.RangeRecordsRead` says what each of them reads as |
| `AttDiscovery.FindInfoReq` | libraries/ArduinoBLE/src/utility/ATT.cpp:320-381 | the entries of the longest run of slots of one format that fits the MTU, an error exactly when the range holds nothing |
| `AttDiscovery.InfoReadRight` | libraries/ArduinoBLE/src/utility/ATT.cpp:339-373 | a client reads the handles and types of the slots taken if and only if no service or characteristic among them has a 16-octet UUID |
| `AttDiscovery.EntryCut` | libraries/ArduinoBLE/src/utility/ATT.cpp:339-373 | of a slot with such a UUID a client gets the handle and the first two octets of the type |
| `AttDiscovery.PutOrCut` | libraries/ArduinoBLE/src/utility/ATT.cpp:472-494 | the look-ahead and the same-size rule: a record is appended whole or not at all, and a stop is justified |
| `AttDiscovery.TryDeclaration` | libraries/ArduinoBLE/src/utility/ATT.cpp:639-684 | a turn of the loop over declarations skips value slots and loses no declaration |
| `AttDiscovery.FilledIsReply` | libraries/ArduinoBLE/src/utility/ATT.cpp:436-502 | a filled buffer reads back as a maximal batch of records |
| `AttDiscovery.ValueHandleAnswered` | libraries/ArduinoBLE/src/utility/ATT.cpp:690-703 | a search by a characteristic's UUID answers with the handle of a value if and only if the range begins with it |
| `AttDiscovery.DeclarationAnswered` | libraries/ArduinoBLE/src/utility/ATT.cpp:690-703 | a table and a search whose answer is the handle of the declaration |
| `AttDiscovery.PropertiesIgnored` | libraries/ArduinoBLE/src/utility/ATT.cpp:690-703 | what a search by UUID answers does not depend on the properties, so it hands out values without the read property |
| `AttDiscovery.RangeCheckRight` | libraries/ArduinoBLE/src/utility/ATT.cpp:521-524 | the range check turns exactly the handles outside the table away, unless the handle is the one right after the last attribute |
| `AttClient.DiscoverServices` | libraries/ArduinoBLE/src/utility/ATT.cpp:436-502 | asking again from last end handle + 1 terminates with the front of the list of services, and with all of it if and only if the record lengths and the MTU let all arrive |
| `AttClient.DiscoverCharacteristics` | libraries/ArduinoBLE/src/utility/ATT.cpp:605-711 | the same for the characteristics of a range, asking again from last declaration + 1 |
| `AttClient.NextServices` | libraries/ArduinoBLE/src/utility/ATT.cpp:436-502 | one request gets the first of the services left, just as many as arrive, and fails if none do |
| `AttClient.ServicesLeft` | libraries/ArduinoBLE/src/utility/ATT.cpp:436-502 | what is left behind such a page is what the next request asks for |
| `AttClient.NextChars` | libraries/ArduinoBLE/src/utility/ATT.cpp:605-711 | the same for the characteristics of a range |
| `AttClient.CharsLeft` | libraries/ArduinoBLE/src/utility/ATT.cpp:605-711 | and for what is left behind such a page |
| `AttClient.DiscoverByUuid` | libraries/ArduinoBLE/src/utility/ATT.cpp:383-434 | asking again from last end + 1 gets the ranges of all services with a UUID, in order, and of no others, if and only if they arrive, always up to an MTU of 252; otherwise the first ones |
| `AttClient.NextNamed` | libraries/ArduinoBLE/src/utility/ATT.cpp:383-434 | one such request gets the first of the ranges left, just as many as arrive |
| `AttClient.NamedLeft` | libraries/ArduinoBLE/src/utility/ATT.cpp:383-434 | what is left behind such a page is what the next request asks for |
| `AttInformation.DiscoverTypes` | libraries/ArduinoBLE/src/utility/ATT.cpp:320-381 | asking again from the last handle + 1 gets handle and type of every attribute of the range, in order, if and only if the records arrive, always up to an MTU of 253; otherwise the first ones |
| `AttInformation.NextTypes` | libraries/ArduinoBLE/src/utility/ATT.cpp:320-381 | one such request gets the first of the handles and types left, just as many as arrive |
| `AttInformation.InfoBatch` | libraries/ArduinoBLE/src/utility/ATT.cpp:334-373 | what a response takes is the longest batch of handles and types of one length that fits |
| `AttExchange.AskGroups` | libraries/ArduinoBLE/src/utility/ATT.cpp:436-502 | the octets of a service request and of its reply, for a server with one characteristic |
| `AttExchange.AskRanges` | libraries/ArduinoBLE/src/utility/ATT.cpp:383-434 | the same for a search by UUID |
| `AttExchange.AskDeclarations` | libraries/ArduinoBLE/src/utility/ATT.cpp:605-711 | for characteristic declarations |
| `AttExchange.AskTypes` | libraries/ArduinoBLE/src/utility/ATT.cpp:320-381 | for handles and types |
| `AttExchange.AskValue` | libraries/ArduinoBLE/src/utility/ATT.cpp:690-703 | for a value |
| `AttExchange.AskNothing` | libraries/ArduinoBLE/src/utility/ATT.cpp:320-502 | the errors of a server with nothing, octet by octet |
| `AttClient.ListReading` | libraries/ArduinoBLE/src/utility/HCI.cpp:335-361 | what a client makes of a list response after its way through the transport: the end, as many of the first records as its length in one octet leaves, or nothing |
| `AttPaging.BatchCount` | libraries/ArduinoBLE/src/utility/ATT.cpp:436-502 | the longest batch of records is decided by the lengths of the records and the MTU |
| `AttPaging.ArriveUpTo253` | libraries/ArduinoBLE/src/utility/HCI.cpp:335-361 | up to an MTU of 253 all records of any list arrive |
| `AttPaging.FewArrive` | libraries/ArduinoBLE/src/utility/HCI.cpp:335-361 | records of at most 249 octets together arrive at any MTU |
| `AttPaging.RangesArrive` | libraries/ArduinoBLE/src/utility/HCI.cpp:335-361 | ranges of services found by UUID arrive up to an MTU of 252 |
| `AttPaging.RangesLost` | libraries/ArduinoBLE/src/utility/HCI.cpp:335-361 | 63 of them do not from an MTU of 253 on |
| `AttPaging.NoneOf254` | libraries/ArduinoBLE/src/utility/HCI.cpp:335-361 | a list whose first response has 254 octets does not, at any MTU from 254 on |
| `AttClient.DiscoveryCutShort` | libraries/ArduinoBLE/src/utility/HCI.cpp:335-361 | so for every MTU from 254 on discovery fails on some table, of services and of characteristics |
| `AttValues.ReadOrReadBlobReq` | libraries/ArduinoBLE/src/utility/ATT.cpp:504-603 | the reply is the one of the attribute at the handle, or the error of each refused case, and never longer than the MTU; the next rows say what such a reply reads as |
| `AttValues.ServiceAnswered` | libraries/ArduinoBLE/src/utility/ATT.cpp:535-546 | reading a service gives its UUID, octet for octet, or the error at an offset |
| `AttValues.CharacteristicAnswered` | libraries/ArduinoBLE/src/utility/ATT.cpp:547-566 | reading a declaration gives, parsed as a client does, its properties, value handle and UUID, or the error at an offset |
| `AttValues.ValueAnswered` | libraries/ArduinoBLE/src/utility/ATT.cpp:568-600 | a value without the read property is refused with error 2; of any other and of a descriptor the octets from the offset on come, as many as fit, or error 7 behind the end |
| `AttValues.UnreadableHidden` | libraries/ArduinoBLE/src/utility/ATT.cpp:504-603 | two tables that differ only in a value without the read property get the same reply to any Read or Read Blob |
| `AttValues.ReadLongValue` | libraries/ArduinoBLE/src/utility/ATT.cpp:504-603 | Read, then Read Blob at accumulated offsets, terminates with the front of the value, and with all of it if and only if it is nonempty and either the MTU is at most 251 or the value has at most 250 octets |
| `AttValues.RefusedClaims` | libraries/ArduinoBLE/src/utility/ATT.cpp:826-853 | exactly when a refused part claims the idle queue, and exactly when a part for an idle queue is refused |
| `AttValues.ClaimTurnsAway` | libraries/ArduinoBLE/src/utility/ATT.cpp:826-842 | a queue held for one handle refuses every part for another and stays as it is |
| `AttValues.RefusedPartTurnsAway` | libraries/ArduinoBLE/src/utility/ATT.cpp:826-853 | a table and two requests: the refused first one makes the second one refused as well |
| `AttValues.Refusals` | libraries/ArduinoBLE/src/utility/ATT.cpp:797-857 | which Prepare Write is refused with which error code, exactly, and that all others are accepted |
| `AttValues.HeldWritable` | libraries/ArduinoBLE/src/utility/ATT.cpp:797-857 | in every run of Prepare Writes the queue is only ever held for a value with the write property |
| `AttValues.UnwritableKept` | libraries/ArduinoBLE/src/utility/ATT.cpp:797-897 | a characteristic without the write property keeps its value in every run of Prepare Writes and an Execute Write |
| `AttValues.QueueHoldsAccepted` | libraries/ArduinoBLE/src/utility/ATT.cpp:797-868 | after any run of Prepare Writes to any handles the queue holds the accepted parts in order |
| `AttValues.SplitWriteAccepted` | libraries/ArduinoBLE/src/utility/ATT.cpp:797-868 | a value that fits is never refused, in whatever consecutive parts it comes |
| `AttValues.ExecuteKeepsLayout` | libraries/ArduinoBLE/src/utility/ATT.cpp:870-897 | executing a queue keeps the table well laid out |
| `AttValues.LongWriteStored` | libraries/ArduinoBLE/src/utility/ATT.cpp:797-897 | whatever else was asked of the queue, executing it stores the accepted parts in its characteristic, of fixed length or not, and changes nothing else |
| `AttValues.SplitWriteStored` | libraries/ArduinoBLE/src/utility/ATT.cpp:797-897 | any split of a fitting value is shown whole if and only if it is shorter than 256 octets or, for fixed length, as long as the size in one octet |
| `AttValues.KeptWhole` | libraries/ArduinoBLE/src/local/BLELocalCharacteristic.cpp:106-113 | what a characteristic shows of a value is the value just under that condition |
| `Att.AttServer.PrepWriteReq` | libraries/ArduinoBLE/src/utility/ATT.cpp:797-868 | echoes an accepted part, reports the right error otherwise, and moves the queue as specified |
| `Att.AttServer.ExecWriteReq` | libraries/ArduinoBLE/src/utility/ATT.cpp:870-897 | flag 1 from the connected client writes the queue to its characteristic, fixed length or not; the queue is idle afterwards |
| `Att.AttServer.HandleNotify` | libraries/ArduinoBLE/src/utility/ATT.cpp:239-261 | a notification of at most MTU octets with the front of the value, when connected |
| `Att.AttServer.WriteCharacteristic` | libraries/ArduinoBLE/src/local/BLELocalCharacteristic.cpp:106-132 | stores the value and indicates or notifies it to exactly a subscribed, connected client |
| `Att.AttServer.ToldRead` | libraries/ArduinoBLE/src/utility/ATT.cpp:239-292 | what a client reads from that: indication or notification by the subscription bits, the value handle, and the first min(MTU - 3, length) octets of the value |
| `AttLongWrite.WriteRequests` | libraries/ArduinoBLE/src/utility/ATT.cpp:797-897 | any Prepare Writes, refused ones in between, and an Execute Write: the characteristic that got the queue, of fixed length or not, stores the accepted parts, nothing else changes, and no value without the write property does |
| `AttLongWrite.WriteLong` | libraries/ArduinoBLE/src/utility/ATT.cpp:797-897 | Prepare Writes in any split and an Execute Write store the value and change no other attribute |
| `AttLongWrite.WriteLongThenRead` | libraries/ArduinoBLE/src/utility/ATT.cpp:504-897 | a long read returns what a long write wrote, for every split and characteristic, if and only if it is not empty, its length is the one shown in one octet, and either the MTU is at most 251 or it has at most 250 octets |
| `HciFraming.Hci.Receive` | libraries/ArduinoBLE/src/utility/HCI.cpp:106-153 | one octet moves buffer and dispatched packets as specified, inside the buffer |
| `HciFraming.Hci.Poll` | libraries/ArduinoBLE/src/utility/HCI.cpp:96-158 | a poll feeds the available octets in order |
| `HciFraming.FeedConcat` | libraries/ArduinoBLE/src/utility/HCI.cpp:96-158 | two polls do what one poll with both chunks does |
| `HciFraming.PacketDispatched` | libraries/ArduinoBLE/src/utility/HCI.cpp:111-145 | a packet is dispatched by its own last octet if and only if it has a payload |
| `HciFraming.EmptyPacketSwallows` | libraries/ArduinoBLE/src/utility/HCI.cpp:111-145 | a packet without payload is dispatched with the next octet of the stream in it |
| `HciFraming.PacketFits` | libraries/ArduinoBLE/src/utility/HCI.cpp:106-153 | a packet stays inside the 258-octet buffer if and only if it is no longer than that |
| `HciFraming.StreamFramed` | libraries/ArduinoBLE/src/utility/HCI.cpp:96-158 | packets with stray octets between them are dispatched once each, in order, inside the buffer |
| `HciFraming.PollStream` | libraries/ArduinoBLE/src/utility/HCI.cpp:96-158 | the same however the stream is cut into polls |
| `HciAcl.SendAclPkt` | libraries/ArduinoBLE/src/utility/HCI.cpp:335-361 | the octets put out for a PDU, both its lengths passed through one octet |
| `HciAcl.OutgoingArrives` | libraries/ArduinoBLE/src/utility/HCI.cpp:335-361 | what a receiver makes of them, for a PDU of any length |
| `HciAcl.WholeExactly` | libraries/ArduinoBLE/src/utility/HCI.cpp:335-361 | a PDU arrives whole if and only if it has at most 251 octets |
| `HciAcl.LengthWraps` | libraries/ArduinoBLE/src/utility/HCI.cpp:335-361 | one of 252 to 255 octets announces 0 to 3 octets and does not arrive |
| `HciAcl.ReadRequestOut` | libraries/ArduinoBLE/src/utility/HCI.cpp:335-361 | the packets of a request and of an event, octet by octet |
| `HciAcl.OutgoingPacket` | libraries/ArduinoBLE/src/utility/HCI.cpp:335-361 | what is put out is the ACL packet of the PDU if and only if that has at most 251 octets |
| `HciAcl.IncomingFits` | libraries/ArduinoBLE/src/utility/HCI.cpp:106-153 | an incoming PDU stays inside the receive buffer if and only if it has at most 249 octets |
| `HciCredits.CreditedSubtracts` | libraries/ArduinoBLE/src/utility/HCI.cpp:438-445 | a report takes its count off if and only if it counts at least one packet or none is pending |
| `HciCredits.AllSubtracted` | libraries/ArduinoBLE/src/utility/HCI.cpp:476-484 | the counts of an event come off together, down to zero, and everything does if one of them is zero |
| `HciCredits.Host.HandleNumCompEvent` | libraries/ArduinoBLE/src/utility/HCI.cpp:476-484 | an event applies the count of every connection handle in turn, as read from its octets |
| `HciCredits.EventRead` | libraries/ArduinoBLE/src/utility/HCI.cpp:476-484 | what is read from an event is what the controller put there, handle by handle |
| `HciCredits.TwoCompleted` | libraries/ArduinoBLE/src/utility/HCI.cpp:476-484 | the octets of an event for one connection |
| `HciCredits.Host.TrySend` | libraries/ArduinoBLE/src/utility/HCI.cpp:335-361 | a send is let through and counted exactly below the controller's limit |
| `HciCredits.TakeStep` | libraries/ArduinoBLE/src/utility/HCI.cpp:335-361 | the host's methods take exactly the host's steps of the system, and a send is refused just when no such step exists |
| `HciCredits.StepKeepsCovered` | libraries/ArduinoBLE/src/utility/HCI.cpp:335-361 | every step keeps packets held plus reports under way within the count; only a flush widens the gap, by the packets it drops |
| `HciCredits.NeverOverrun` | libraries/ArduinoBLE/src/utility/HCI.cpp:335-361 | in every run, sends nested in any way, packets held <= pending <= limit |
| `HciCredits.CountExact` | libraries/ArduinoBLE/src/utility/HCI.cpp:438-445 | over every run the count is packets held, packets reported and packets ever flushed |
| `HciCredits.StuckExactly` | libraries/ArduinoBLE/src/utility/HCI.cpp:335-361 | a run can proceed if and only if the packets flushed in it are fewer than the controller can hold |
| `HciCredits.Proceeds` | libraries/ArduinoBLE/src/utility/HCI.cpp:335-361 | and then a waiting send has a continuation that lets it through |
| `HciCredits.NoDeadlock` | libraries/ArduinoBLE/src/utility/HCI.cpp:335-361 | without flushes a run can proceed if and only if the controller can hold a packet at all |
| `HciCredits.StuckForever` | libraries/ArduinoBLE/src/utility/HCI.cpp:335-361 | from a stuck system no continuation lets a send through |
| `HciCredits.FlushLosesCredit` | libraries/ArduinoBLE/src/utility/HCI.cpp:447-466 | a run whose flushes amount to the limit, with a send waiting for ever |
| `HciCredits.EmptyReportUncovers` | libraries/ArduinoBLE/src/utility/HCI.cpp:438-445 | a report of zero packets would break the bound whenever the controller holds a packet |
| `FlashStorage.ErasedIsReserved` | libraries/FlashStorage/src/FlashStorage.h:28-36 | an erase covers exactly the reservation, unless the size is zero |
| `FlashStorage.Flash.Erase` | libraries/FlashStorage/src/FlashStorage.cpp:79-95 | exactly the rows of the size become blank |
| `FlashStorage.Flash.Write` | libraries/FlashStorage/src/FlashStorage.cpp:48-77 | cells of the rounded size lose bits to the data, page by page, and no other cell changes |
| `FlashStorage.Storage.Write` | libraries/FlashStorage/src/FlashStorage.h:63-65 | whatever was there: record, blank rest of the reservation, nothing changed outside |
| `FlashStorage.WriteThenRead` | libraries/FlashStorage/src/FlashStorage.h:63-72 | a record written is the record read |
| `Eeprom.EepromClass.Init` | libraries/FlashStorage/src/FlashAsEEPROM.cpp:50-57 | memory becomes what was saved, or 0xFF when nothing was |
| `Eeprom.EepromClass.Update` | libraries/FlashStorage/src/FlashAsEEPROM.cpp:36-48 | one cell of the current contents changes; dirty exactly when its value did |
| `Eeprom.EepromClass.Commit` | libraries/FlashStorage/src/FlashAsEEPROM.cpp:65-72 | afterwards a restart would find the current contents |
| `Eeprom.EepromClass.IsValid` | libraries/FlashStorage/src/FlashAsEEPROM.cpp:59-63 | reports the validity octet of the current contents, changing none of them |
| `Eeprom.MarkedExactly` | libraries/FlashStorage/src/FlashAsEEPROM.cpp:59-72 | valid exactly when some commit found a changed cell |
| `Eeprom.BlankWritesUnmarked` | libraries/FlashStorage/src/FlashAsEEPROM.cpp:36-72 | writing 0xFF to a new EEPROM and committing does not make it valid |
| `Eeprom.Run` | libraries/FlashStorage/src/FlashAsEEPROM.cpp:30-72 | over any reads, writes, commits and restarts it answers what a plain persistent array answers |
| `Ota.InternalStorage.Open` | libraries/WiFi101OTA/src/InternalStorage.cpp:65-76 | blank staging region, nothing taken yet |
| `Ota.InternalStorage.Write` | libraries/WiFi101OTA/src/InternalStorage.cpp:78-94 | one octet more of the image is taken, full words are stored, full pages programmed |
| `Ota.InternalStorage.Close` | libraries/WiFi101OTA/src/InternalStorage.cpp:96-101 | padding terminates on a page boundary with no partial word, unless it begins on one |
| `Ota.CopyFlash` | libraries/WiFi101OTA/src/InternalStorage.cpp:47-62 | the destination becomes the source, and the source stays as it was |
| `Ota.InstalledFaithful` | libraries/WiFi101OTA/src/InternalStorage.cpp:78-101 | the image arrives whole if and only if its last page holds no octet, at least a word, or only 0xFF |
| `Ota.InstalledFront` | libraries/WiFi101OTA/src/InternalStorage.cpp:78-101 | whatever the image, all its full pages arrive, and what follows its end is blank |
| `Ota.WholeWordsInstalled` | libraries/WiFi101OTA/src/InternalStorage.cpp:78-101 | so does every image of whole words |
| `Ota.StagedIsInstalled` | libraries/WiFi101OTA/src/InternalStorage.cpp:96-101 | after closing, the staging region holds the installed form of the image |
| `Ota.Update` | libraries/WiFi101OTA/src/InternalStorage.cpp:36-118 | open, writes, close and apply: both regions hold the installed form, all other cells are unchanged |
| `WiFiSocket.WiFiSocketClass.FillRecvBuffer` | libraries/WiFi101/src/utility/WiFiSocket.cpp:494-520 | moves octets from chip to host without losing or repeating any; gives the chip buffer back when it is drained; all other sockets stay sound |
| `WiFiSocket.WiFiSocketClass.HandleEvent` | libraries/WiFi101/src/utility/WiFiSocket.cpp:446-481 | an event of any socket keeps the invariants of all: received octets queue behind the unread ones of theirs, a socket whose connection has ended is closed and free, and an offered connection remembers its listener |
| `WiFiSocket.WiFiSocketClass.HandleEvents` | libraries/WiFi101/src/driver/source/m2m_hif.c:630-661 | all events in turn until the chip raises no more; none is raised for any socket while the chip's buffer is lent to one |
| `WiFiSocket.WiFiSocketClass.CopyOut` | libraries/WiFi101/src/utility/WiFiSocket.cpp:235-257 | the read loop terminates with the next octets, all of them unless a transfer fails |
| `WiFiSocket.WiFiSocketClass.Read` | libraries/WiFi101/src/utility/WiFiSocket.cpp:215-269 | the next unread octets, all asked for unless a transfer fails; nothing only if nothing is unread; arms the next receive exactly when nothing is left |
| `WiFiSocket.WiFiSocketClass.Peek` | libraries/WiFi101/src/utility/WiFiSocket.cpp:194-213 | the octet that the next read delivers, nothing consumed |
| `WiFiSocket.WiFiSocketClass.Available` | libraries/WiFi101/src/utility/WiFiSocket.cpp:183-192 | the number of octets arrived and not consumed |
| `WiFiSocket.WiFiSocketClass.Close` | libraries/WiFi101/src/utility/WiFiSocket.cpp:335-361 | leaves service and gives the chip buffer back just when this socket holds it |
| `WiFiSocket.WiFiSocketClass.TakeAccepted` | libraries/WiFi101/src/utility/WiFiSocket.cpp:372-388 | the first connection offered to the listening socket is found and enters service, with a receive outstanding |
| `WiFiSocket.WiFiSocketClass.Join` | libraries/WiFi101/src/utility/WiFiSocket.cpp:78-160 | connect and bind, with the events of other sockets while waiting; a TCP socket that is only bound gets no receive |
| `WiFiSocket.WiFiSocketClass.StartListening` | libraries/WiFi101/src/utility/WiFiSocket.cpp:109-130 | a bound TCP socket listens or is idle again, without losing an octet of any socket |
| `WiFiSocket.Run` | libraries/WiFi101/src/utility/WiFiSocket.cpp:62-520 | in every run of all sockets together, what was read on the present connection of each is the front of what the chip sent there, and unless the application closes the socket only unread octets are missing, none after the peer has ended, and then the socket is closed and free; at most one socket holds the chip buffer, and each is released once |
| `Charging.Charger.CutBackByVoltage` | libraries/DIGINOW_SUPERCHARGER/SC.h:86-108 | every voltage row clamps, whatever its threshold |
| `Charging.Charger.SetChargingAmps` | libraries/DIGINOW_SUPERCHARGER/SC.h:79-190 | wattage and amps move as specified |
| `Charging.ClampedWithin` | libraries/DIGINOW_SUPERCHARGER/SC.h:86-160 | the clamp passes no limit, and is the wattage itself or one of the limits |
| `Charging.ClampedIsLeast` | libraries/DIGINOW_SUPERCHARGER/SC.h:86-160 | the clamp is within a bound exactly when the wattage or some limit is |
| `Charging.LimitsOfTables` | libraries/DIGINOW_SUPERCHARGER/SC.h:86-160 | the limits are exactly those of the rows in force |
| `Charging.AmpsCovered` | libraries/DIGINOW_SUPERCHARGER/SC.h:179-189 | amps times chargers times volts stay within the wattage, and within the C rate when that is the cap |
| `Charging.AmpsLargest` | libraries/DIGINOW_SUPERCHARGER/SC.h:179-189 | and they are the largest that do, as long as the wattage over the voltage fits into 16 bits |
| `Charging.AmpsWrap` | libraries/DIGINOW_SUPERCHARGER/SC.h:179-189 | beyond 16 bits the amps start again |
| `Charging.RowAmps` | libraries/DIGINOW_SUPERCHARGER/SC.h:86-160 | a row lets through the amps of its C rate, and of the battery's when that is the cap |
| `Charging.RowWatts` | libraries/DIGINOW_SUPERCHARGER/SC.h:86-160 | its limit is within a bound exactly when the station is or all the amps that it lets through are |
| `Charging.NextAtMost` | libraries/DIGINOW_SUPERCHARGER/SC.h:79-190 | the wattage of a call is within a bound exactly when the ramp, a voltage row, a cold row from its threshold down or a hot row from its threshold up says so, with three ramps of room at the end voltage |
| `Charging.StationCuts` | libraries/DIGINOW_SUPERCHARGER/SC.h:170-178 | a wattage above the station falls to 6 W per charger below it |
| `Charging.Envelope` | libraries/DIGINOW_SUPERCHARGER/SC.h:79-190 | station limit, draw, C rate, at most one ramp up, and the limit of every row in force |
| `Charging.Run` | libraries/DIGINOW_SUPERCHARGER/SC.h:79-190 | the envelope after every call of any sequence of voltages, temperatures and settings, with the amps the largest it allows |
| `Charging.OrderFree` | libraries/DIGINOW_SUPERCHARGER/SC.h:86-160 | neither the order nor the repetition of rows matters |
| `Charging.TemperatureNeverHelps` | libraries/DIGINOW_SUPERCHARGER/SC.h:109-160 | a colder or a hotter pack never charges faster |
| `Charging.StepsDown` | libraries/DIGINOW_SUPERCHARGER/SC.h:162-169 | at the end voltage a call lowers the wattage by two ramps or stops, in spite of the ramp up |
| `Charging.WindsDown` | libraries/DIGINOW_SUPERCHARGER/SC.h:82-169 | zero after w / (2 ramps) + 1 calls, and it stays there |
| `Charging.ChargesUp` | libraries/DIGINOW_SUPERCHARGER/SC.h:79-179 | steady inputs bring the wattage ramp by ramp to the plateau and hold it |
| `Charging.ThresholdsKept` | libraries/DIGINOW_SUPERCHARGER/SC.h:86-108 | the clamps respect the voltage thresholds if and only if no row of a voltage not yet reached bites |
| `Charging.IntendedIsHigher` | libraries/DIGINOW_SUPERCHARGER/SC.h:86-108 | the rows of voltages not yet reached can only lower the wattage |
| `Charging.CallKeepsThresholds` | libraries/DIGINOW_SUPERCHARGER/SC.h:79-190 | a whole call respects the thresholds if and only if no such row bites, or one of three conditions on the inputs hides it |
| `Charging.IdleRowBitesBelowItsThreshold` | libraries/DIGINOW_SUPERCHARGER/VOLTAGE_TABLE_0_BASIC.h:9-17 | from rest at a steady 100.0 V the basic table holds the wattage at 960 W, for every number of calls, where it is meant to let 6600 W through |
| `Base64.Base64Encode` | libraries/WiFi101OTA/src/WiFi101OTA.cpp:35-68 | the stepping loop computes the encoding of section 4 of RFC 4648 |
| `Base64.DigitsOfOctets` | libraries/WiFi101OTA/src/WiFi101OTA.cpp:43-63 | the masks and shifts are the six-bit digits of the 24-bit group |
| `SixBits.UpperBits` | libraries/WiFi101OTA/src/WiFi101OTA.cpp:46-49 | the bits of two octets that meet in the second digit are a remainder and a quotient |
| `SixBits.LowerBits` | libraries/WiFi101OTA/src/WiFi101OTA.cpp:51-53 | and so are those in the third |
| `Base64.Shape` | libraries/WiFi101OTA/src/WiFi101OTA.cpp:35-68 | length 4 * ceil(n / 3), alphabet digits, then exactly the padding |
| `Base64.RoundTrip` | libraries/WiFi101OTA/src/WiFi101OTA.cpp:35-68 | a reference decoder returns the input, for every string of octets |
| `Base64.Vectors` | libraries/WiFi101OTA/src/WiFi101OTA.cpp:35-68 | the vectors of section 10 of RFC 4648 |
| `Base64.DifferentInputsDiffer` | libraries/WiFi101OTA/src/WiFi101OTA.cpp:35-68 | distinct inputs encode differently |
| `GsmHex.HexRoundTrip` | libraries/MKRGSM/src/utility/GSMSocketBuffer.cpp:77-96 | the socket buffer's decoding inverts the client's encoding, digit for digit |
| `GsmHex.HexSpells` | libraries/MKRGSM/src/GSMClient.cpp:301-309 | the two hexadecimal digits of every octet, high one first |
| `GsmHex.DecimalSpells` | libraries/MKRGSM/src/GSMClient.cpp:295-298 | the decimal digits of a number |
| `GsmHex.CommandRead` | libraries/MKRGSM/src/GSMClient.cpp:292-309 | a write command names the socket and carries the octets and the count that its text says |
| `GsmHex.CommandsCarry` | libraries/MKRGSM/src/GSMClient.cpp:285-322 | the commands for a buffer, decoded and joined, are the buffer, at most 256 octets each, all for the socket |
| `GsmHex.GsmClient.Write` | libraries/MKRGSM/src/GSMClient.cpp:271-325 | exactly the commands for the octets reported written went out and were acknowledged, and on a failure one more; a complete write carries the buffer |
| `GsmHex.WriteAll` | libraries/MKRGSM/src/GSMClient.cpp:256-330 | complete writes between beginWrite and endWrite carry all their buffers, one behind the other; writes that are all acknowledged are complete |
| `GsmHex.ResponseRead` | libraries/MKRGSM/src/utility/GSMSocketBuffer.cpp:68-96 | an answer is taken apart and decoded to its octets |
| `GsmHex.SocketBuffer.Available` | libraries/MKRGSM/src/utility/GSMSocketBuffer.cpp:52-103 | only an empty buffer asks for more, exactly one answer, and loses nothing; the number of octets then unread |
| `GsmHex.SocketBuffer.Read` | libraries/MKRGSM/src/utility/GSMSocketBuffer.cpp:114-131 | the next octets in order |
| `GsmHex.GsmClient.Read` | libraries/MKRGSM/src/GSMClient.cpp:355-372 | all octets asked for, the next ones in order, or fewer and then nothing is left unread; none after the connection ended |
| `GsmHex.GsmClient.Available` | libraries/MKRGSM/src/GSMClient.cpp:385-405 | the number of unread octets when the modem is ready and the socket stays open, which it does unless the query that an empty buffer makes goes unanswered |
| `GsmHex.ReadOut` | libraries/MKRGSM/src/GSMClient.cpp:355-405 | reading as long as the modem answers delivers all octets of its answers, in order |
| `GsmHex.GsmClient.Connected` | libraries/MKRGSM/src/GSMClient.cpp:332-348 | the answer, and exactly when it gives up octets: over SSL, once the end has been announced |
| `GsmHex.Run` | libraries/MKRGSM/src/GSMClient.cpp:332-448 | in every run what was read and what was given up are together the front of what arrived, and all of it after a ready read of more than the buffer holds; the rest is unread while the socket is open and empty after the modem ended it; octets are given up only by stop, or over SSL by asking after the announced end |

## Left out

- AttDiscovery.ReadByTypeReq: the branch for the client configuration descriptor is missing, because its condition (a
  descriptor whose type is 0x2902) never holds.
- AttValues.ReadOrReadBlobReq: not for the handle right after the last attribute, where the code follows a null pointer.
- Att.AttServer.PrepWriteReq: not for that handle either, and only for packets no longer than the MTU, as the peer has to send them.
- AttInformation.DiscoverTypes: for ranges without long service and characteristic UUIDs; with one the client reads that page
  wrong, as `AttDiscovery.InfoReadRight` says.
- AttValues.UnreadableHidden: not for the handle right after the last attribute.
- AttLongWrite.WriteRequests: requests are no longer than the MTU and the receive buffer allow.
- AttLongWrite.WriteLong: likewise the parts.
- AttLongWrite.WriteLongThenRead: likewise.
- GattRelease.RegisterThenClear: a second release of a deleted object is recorded and has no further effect; how often the
  parts of an object are retained is taken as `Retaining` says.
- Att.AttServer.WriteCharacteristic: a client that gets an indication confirms it before it asks for anything else and stays
  connected; the requests that the handler would take while it waits are left out.
- HciFraming.Hci.Poll: requires that the octets stay inside the buffer, which the code does not check; the lemmas say when they do.
- Charging.Charger.SetChargingAmps: 32-bit overflow is excluded by a condition on the settings, as are a voltage of zero and no chargers.
- Charging.Envelope: needs at least one voltage row, as all tables of the repository have; without one the last cut of the method can wrap around.
- Ota.Update: begins with a clear page buffer, which the code takes for granted.
- GsmHex.SocketBuffer.Read: not when the buffer is empty and the modem leaves the query without an answer, where the code copies
  a length of -1; the client has looked before.
- Attribute, characteristic and descriptor lists are held as sequences inside `Gatt`; `BleLinkedList` proves the list class to be one.
- The request handlers take the table as a value, `Gatt.Table.Shown()`, instead of following attribute pointers.
- The loop of Read By Type is split in two, one for declarations and one for any other type.
- Connection bookkeeping, MTU exchange, plain writes, subscriptions through the client configuration descriptor (a descriptor's
  value is constant here), event handlers and advertising are not modelled.
- Packet handlers of the HCI parser are entries in a log; polls nested in handlers appear as interleaved steps in the credit model only.
- Flash has 64-octet pages, 256-octet rows and, for the update, 256 KiB; the interrupt lock and the final reset are not modelled.
- WiFi101 sending, addresses and the driver below `hif_receive` are not modelled; which free socket the driver picks, how
  often a waiting call looks for events and whether its answer comes in time are parameters, and an answer that comes later
  is left out, as is closing or rebinding a socket while its own request waits.
- The heartbeat message of the charger and the sketches that set its inputs are not modelled.
- Waiting loops of the GSM client are a parameter that says whether the modem was ready; of the unsolicited result
  codes only the announced end of the connection is modelled.
- Modem answers carry upper-case hexadecimal digits and at most the 512 octets asked for; an answer without quotes is not modelled.
- UART, SPI, timers, TimerOne, EEPROMex, the CAN controllers, the GSM, GPRS and SMS state machines, WiFiNINA commands and mDNS
  would add bit packing and long but shallow sequences.
