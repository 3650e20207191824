# Verified models of the game server's data paths

Four parts of the server are modelled and proved here, each in the shape of its source:
stream readers, rings and stores are classes whose methods change their fields and run
their loops; what they compute is a function, and the theorems are about that function.

- **CSV reader** (`Tokenizer`, `CsvParser`, `CsvTable`). `std::getline` over a stream with
  its two error bits, the cell loop, and the line loop whose `int` width fixes on the first
  non-empty row. `getline` treats its separator as a terminator, so "a" and "a," are the
  same row, and a row that ends in an empty cell loses that cell. This is what makes the
  spacer lines `,,,,,` of the shipped six-column tables disappear: they read as five cells
  and are dropped.
- **Character statistics** (`CharacterStats`). A byte-keyed map of 32-bit quantities with
  overwrite, wrapping add, clear and an ordered listing that shows unknown ids as a dummy.
- **Packets on the wire** (`RingBuffer`, `PacketCipher`, `PacketStream`, `NetworkSession`).
  The ring buffer over one memory block, the in-place packet cipher, the framing of a
  packet, and the loop that cuts a session's received bytes back into packets.
- **Inventory** (`Inventory`, `ItemTables`, `UserInventories` and the `Inventory...` modules of
  laws). A user's tables of numbered slots, one per kind of item, with their free-slot
  bookkeeping; adding and removing by quantity; and the row updates sent to the database,
  where the rows of all kinds share one table.

`Words` holds the machine words (bytes and 32-bit numbers are integer ranges; sums are cut
down explicitly, and exclusive or is defined bit by bit). `OrderedKeys` is the key order of
`std::map`.

Source files with Korean comments (the ring buffer, the session and server files, the
inventory) are stored in code page 949 rather than UTF-8; the line numbers below count
their newlines as they are.

Two notions recur. A CSV table is *canonical* when it is some empty rows followed by rows
of one width, with no ',' and no newline in any cell. An item table is *valid* for a set
of database rows when it mirrors them, no slot number serves two items, free slots are
marked and counted, and the next slot to use is the lowest free one. A user is valid when
each kind's table is valid for the rows of that kind and no row exceeds its item's maximum.

The inventory code does not always keep its books, and the theorems say exactly when it
does, in terms of what can be read off the tables before the call.

- An add is accepted one piece too far. With no slot left over for the rest, even when the
  rest is 0, the last slot taken is overwritten: a slot's worth of items is lost, the count
  of free slots runs below 0, and the database meets a row that is there (`AddGains`,
  `AddExact`, `AddClashes`, `ExactFillClashes`).
- A topped-up slot is assumed to hold the remainder of the item's total; the total comes out
  right exactly when it does (`AddInStep`; three ordinary adds break it, `ThreeAddsMakeFive`).
- After a removal from a full table the next slot is free only under a condition on which
  slots the quantity empties (`RemoveInStep`, `Emptied`).
- Every kind numbers its slots from 1, but the database keys its rows by user and slot
  number alone. An add goes through exactly when, besides having slots to spare, it takes
  no number that another kind uses (`UserAdd`). The first item of one kind and the first of
  another that a new user is given always collide (`SecondKindClashes`).

Inside those conditions nothing is ever lost or made, for all kinds of a user together
(`Ledger`). A row update is refused when it inserts a number that is there or changes one
that is not; that (nickname, sequence) is a key is an assumption, since the database's
definition is not in the repository. What happens in memory does not depend on it.

## Model

| member | source | states |
|---|---|---|
| Tokenizer.CharStream.constructor | 라이브러리/CCsvParser.cpp:45 | a new stream has the whole text unread |
| Tokenizer.CharStream.GetLine | 라이브러리/CCsvParser.cpp:48 | one `getline` fails on nothing unread, and otherwise takes the characters before the first separator and swallows it; the unread text shrinks at each success |
| Tokenizer.SplitStep | 라이브러리/CCsvParser.cpp:48-51 | the recursive split follows one `getline` at a time |
| Tokenizer.PrintAfterSplit | 라이브러리/CCsvParser.cpp:48-51 | printing the pieces of any text, each terminated, gives the text with its last piece terminated |
| Tokenizer.SplitAfterPrint | 라이브러리/CCsvParser.cpp:48-51 | reading terminated pieces gives them back, for every list of separator-free pieces |
| Tokenizer.SplitImage | 라이브러리/CCsvParser.cpp:48-51 | a list of pieces can be read exactly when no piece holds the separator |
| Tokenizer.SplitKernel | 라이브러리/CCsvParser.cpp:48-51 | two texts read the same exactly when they differ at most in a final terminator |
| Tokenizer.SplitConcat | 라이브러리/CCsvParser.cpp:28 | cutting a text after a separator cuts the list of its pieces |
| Tokenizer.SplitComposition | 라이브러리/CCsvParser.cpp:48-51 | the pieces of x, separator, y are those of x and separator followed by those of y |
| Tokenizer.SplitAfterJoin | 라이브러리/CCsvParser.cpp:48-51 | a row printed with separators between cells comes back, except that an empty last cell is lost |
| Tokenizer.PiecesAreSeparators | 라이브러리/CCsvParser.cpp:48-51 | the number of cells is the number of separators of the terminated line, and is 0 only for the empty line |
| CsvParser.CsvFile.ParseLine | 라이브러리/CCsvParser.cpp:42-54 | the cell loop computes the split of the line at ',' |
| CsvParser.CsvFile.Parse | 라이브러리/CCsvParser.cpp:15-39 | the line loop with its mutable `int` width computes the recursive selection, for every file; a file that does not open gives no rows |
| CsvParser.ToInt | 라이브러리/CCsvParser.cpp:32 | the width assignment keeps the low 32 bits as a signed number |
| CsvParser.ToSize | 라이브러리/CCsvParser.cpp:33 | the comparison promotes the width to 64 bits unsigned |
| CsvParser.NarrowPushed | 라이브러리/CCsvParser.cpp:31-34 | with rows of fewer than 2^31 cells the machine widths do not matter |
| CsvParser.FirstRowKept | 라이브러리/CCsvParser.cpp:31-34 | before a width is set, a row is kept exactly when its size fits the `int` |
| CsvTable.SelectedConcat | 라이브러리/CCsvParser.cpp:28-35 | selecting from two stretches of rows is selecting from the first and going on with the width reached |
| CsvTable.WidthState | 라이브러리/CCsvParser.cpp:31-32 | a set width never changes, and it is still 0 exactly when every row so far was empty |
| CsvTable.Resume | 라이브러리/CCsvParser.cpp:28-35 | reading may stop after any complete line and resume with the width reached |
| CsvTable.FinalNewline | 라이브러리/CCsvParser.cpp:28 | the newline at the end of the file is optional |
| CsvTable.SelectionIsDeclarative | 라이브러리/CCsvParser.cpp:28-35 | the streaming loop keeps, in order, exactly the leading empty rows and the rows as wide as the first non-empty one |
| CsvTable.AllBlank | 라이브러리/CCsvParser.cpp:30-34 | a file of blank lines reads as that many empty rows |
| CsvTable.KeptByCommaCount | 라이브러리/CCsvParser.cpp:30-34 | once the width is c, a line is kept exactly when its terminated form has c commas |
| CsvTable.ParsedIsCanonical | 라이브러리/CCsvParser.cpp:15-54 | every file reads as a canonical table |
| CsvTable.ParsedAfterPrint | 라이브러리/CCsvParser.cpp:15-54 | every canonical table survives printing with terminators and reading |
| CsvTable.ParsedImage | 라이브러리/CCsvParser.cpp:15-54 | a table can be read from some file exactly when it is canonical |
| CsvTable.NormalForm | 라이브러리/CCsvParser.cpp:15-54 | printing what was read is a normal form: it reads the same, and two files read the same exactly when their normal forms are equal |
| CsvTable.JoinedRoundTrip | 라이브러리/CCsvParser.cpp:28-35 | a rectangular comma-joined table comes back exactly when no row ends in an empty cell |
| CsvTable.JoinedFullFirst | 라이브러리/CCsvParser.cpp:28-35 | when its first row ends in text, exactly the rows that end in text come back |
| CsvTable.JoinedBlankFirst | 라이브러리/CCsvParser.cpp:28-35 | when its first row ends in an empty cell, the last column is lost and exactly the rows where it was empty come back |
| CsvTable.JoinedOneColumn | 라이브러리/CCsvParser.cpp:28-35 | in one column, leading empty cells come back as empty rows and later ones are dropped |
| CharacterStats.CStats.SetStats | 게임서버/컨텐츠/구조체/CharacterStats.cpp:3-6 | overwrites one id and changes nothing else |
| CharacterStats.CStats.AddStats | 게임서버/컨텐츠/구조체/CharacterStats.cpp:8-12 | adds to one id, which counts from 0 when missing, and returns the new 32-bit total |
| CharacterStats.CStats.GetStats | 게임서버/컨텐츠/구조체/CharacterStats.cpp:15-30 | ids 1 to 4 give the id, its quantity and "str", "dex", "int" or "luk", or miss when not held; any other id gives 0, 0 and no name |
| CharacterStats.EntryMisses | 게임서버/컨텐츠/구조체/CharacterStats.cpp:17-30 | a lookup misses exactly for a known id that is not held |
| CharacterStats.CStats.GetStatsList | 게임서버/컨텐츠/구조체/CharacterStats.cpp:32-42 | the list is built in key order and no lookup in it misses |
| CharacterStats.CStats.Size | 게임서버/컨텐츠/구조체/CharacterStats.cpp:44-47 | the number of ids held |
| CharacterStats.CStats.Clear | 게임서버/컨텐츠/구조체/CharacterStats.cpp:50-53 | nothing is held afterwards |
| CharacterStats.History | 게임서버/컨텐츠/구조체/CharacterStats.cpp:3-12 | after any calls on a new store an id is held exactly when it was set or added since the last clear, and its value is its last set value since then, or 0, plus all later adds, modulo 2^32 |
| CharacterStats.ClearForgets | 게임서버/컨텐츠/구조체/CharacterStats.cpp:50-53 | nothing before the last clear matters |
| CharacterStats.AddsCommute | 게임서버/컨텐츠/구조체/CharacterStats.cpp:8-12 | any reordering of adds gives the same store |
| CharacterStats.AddsMerge | 게임서버/컨텐츠/구조체/CharacterStats.cpp:8-12 | adds to one id are one add of their sum modulo 2^32 |
| CharacterStats.AddsExact | 게임서버/컨텐츠/구조체/CharacterStats.cpp:8-12 | the total is the exact sum exactly when that stays below 2^32 |
| CharacterStats.ListingAgrees | 게임서버/컨텐츠/구조체/CharacterStats.cpp:15-47 | one entry per key, the i-th for the i-th smallest key, with id, quantity and name for the known ids and the dummy for others |
| CharacterStats.InKeys | 게임서버/컨텐츠/구조체/CharacterStats.cpp:36-39 | the keys walked are exactly the ids held |
| CharacterStats.ListingAscends | 게임서버/컨텐츠/구조체/CharacterStats.cpp:32-42 | with only known ids, the listed ids ascend strictly |
| CharacterStats.RestoredIsSurviving | 게임서버/컨텐츠/구조체/CharacterStats.cpp:3-42 | replaying the list into a cleared store restores the known ids, and id 0 with value 0 if any other id was held |
| CharacterStats.SaveRestoreLossless | 게임서버/컨텐츠/구조체/CharacterStats.cpp:3-42 | that is the original store exactly when nothing but the known ids and possibly id 0 with value 0 was held |
| CharacterStats.SaveRestoreTwice | 게임서버/컨텐츠/구조체/CharacterStats.cpp:3-42 | a second save and restore changes nothing |
| RingBuffer.SerialRingBuffer.constructor | 라이브러리/SerialRingBuffer.cpp:25-35 | an empty ring with one cell of the block behind the header left unused |
| RingBuffer.SerialRingBuffer.GetUseSize | 라이브러리/SerialRingBuffer.cpp:47-60 | the number of bytes held, on either side of the wrap |
| RingBuffer.SerialRingBuffer.GetFreeSize | 라이브러리/SerialRingBuffer.cpp:62-79 | what is left of the capacity |
| RingBuffer.SerialRingBuffer.DirectEnqueueSize | 라이브러리/SerialRingBuffer.cpp:322-342 | the free cells in one stretch from the rear: all of them, or those up to the end of the block |
| RingBuffer.SerialRingBuffer.DirectDequeueSize | 라이브러리/SerialRingBuffer.cpp:344-356 | the bytes in one stretch from the front |
| RingBuffer.SerialRingBuffer.Enqueue | 라이브러리/SerialRingBuffer.cpp:81-117 | appends as many of the bytes as fit, wrapping when needed, and leaves the header alone |
| RingBuffer.SerialRingBuffer.Dequeue | 라이브러리/SerialRingBuffer.cpp:119-159 | hands out the oldest bytes, at most those asked for, and removes exactly them |
| RingBuffer.SerialRingBuffer.Peek | 라이브러리/SerialRingBuffer.cpp:206-236 | hands out the oldest bytes and keeps them |
| RingBuffer.SerialRingBuffer.MoveFront | 라이브러리/SerialRingBuffer.cpp:274-298 | gives up the oldest bytes |
| RingBuffer.SerialRingBuffer.MoveRear | 라이브러리/SerialRingBuffer.cpp:300-320 | takes the next free cells into the contents as they are |
| RingBuffer.SerialRingBuffer.Receive | 게임서버/네트워크/CWanServerRoom2.cpp:816-830 | bytes received into the two offered blocks are the next free cells, in order |
| RingBuffer.SerialRingBuffer.SetWanHeader | 라이브러리/SerialRingBuffer.cpp:420-437 | the header is written once; later headers are ignored |
| RingBuffer.SerialRingBuffer.Encode | 라이브러리/SerialRingBuffer.cpp:358-383 | checksum and payload are enciphered in place, once, and nothing else changes; `EncryptedBytes` gives the bytes |
| RingBuffer.SerialRingBuffer.Decode | 라이브러리/SerialRingBuffer.cpp:385-418 | they are deciphered in place, and the answer is whether the checksum is the payload's sum; `SumConcat` and `SumOfOne` fix the sum |
| RingBuffer.SerialRingBuffer.Clear | 라이브러리/SerialRingBuffer.cpp:238-247 | an empty ring that may be sealed again |
| Words.XorAt | 라이브러리/SerialRingBuffer.cpp:374-375 | bit j of an exclusive or is the sum of the two bits j modulo 2 |
| PacketCipher.EncryptedBytes | 라이브러리/SerialRingBuffer.cpp:365-378 | bytes are the encryption of others exactly when they and some middle states follow the two chains: each is, bit by bit, the exclusive or of the byte, the state before plus the key byte plus the position from 1, both states 0 at the start |
| PacketCipher.SumOfOne | 라이브러리/SerialRingBuffer.cpp:406-411 | the sum of one byte is that byte, and of none 0 |
| PacketCipher.SumConcat | 라이브러리/SerialRingBuffer.cpp:406-411 | sums of byte strings add up modulo 256 |
| PacketCipher.OneByteChangesSum | 라이브러리/SerialRingBuffer.cpp:406-415 | two payloads of one length that differ in exactly one byte have different checksums |
| PacketCipher.CipherRoundTrip | 라이브러리/SerialRingBuffer.cpp:371-404 | deciphering undoes enciphering and enciphering undoes deciphering, for all bytes and keys |
| PacketCipher.DecryptIsLocal | 라이브러리/SerialRingBuffer.cpp:395-404 | a deciphered byte is determined by its own cipher byte and the two before it |
| PacketCipher.DamageIsLocal | 라이브러리/SerialRingBuffer.cpp:395-404 | one damaged cipher byte changes no deciphered byte before it or more than two after it |
| PacketStream.Seal | 게임서버/네트워크/CWanServerRoom2.cpp:346-348 | header, checksum and cipher turn a packet into its frame, whose first bytes are the code, the length with its low byte first, and the random byte; a packet sealed before stays as it was, and one taken from a session keeps its header and is enciphered again |
| PacketStream.HeaderBytes | 게임서버/네트워크/CWanServerRoom2.h:47-72 | the five header bytes in arithmetic |
| PacketStream.SentOnUnchanged | 라이브러리/SerialRingBuffer.cpp:358-418 | a packet taken from a session and sent on unread goes out as the very bytes it came in as |
| PacketStream.LengthOfHeader | 게임서버/네트워크/CWanServerRoom2.h:60-63 | the two length bytes give the payload's length back |
| PacketStream.TurnInNumbers | 게임서버/네트워크/CWanServerRoom2.cpp:737-810 | one turn of the message loop for any bytes, branch by branch, in numbers: five header bytes, the code, a length from 1 to 16378 read low byte first, room, the whole payload, its checksum |
| PacketStream.WrongByteDrops | 라이브러리/SerialRingBuffer.cpp:406-415 | one wrong deciphered payload byte beside a right checksum disconnects |
| PacketStream.DamagedEndDrops | 게임서버/네트워크/CWanServerRoom2.cpp:794-801 | whatever the last byte of a frame is changed to on the way, the session is dropped |
| PacketStream.FrameIsDelivered | 게임서버/네트워크/CWanServerRoom2.cpp:737-809 | a whole frame at the head of the received bytes delivers exactly its payload and leaves the rest |
| PacketStream.PartialFrameWaits | 게임서버/네트워크/CWanServerRoom2.cpp:738-810 | an unfinished frame is left untouched |
| PacketStream.PrefixIsDelivered | 게임서버/네트워크/CWanServerRoom2.cpp:733-814 | whatever prefix of the sent frames has arrived, exactly the packets whole in it are delivered, in order, as far as the message queue has room; the session is dropped exactly when the header of one frame too many has arrived with a byte behind it |
| PacketStream.ProcessInPieces | 게임서버/네트워크/CWanServerRoom2.cpp:733-814 | processing bytes as they arrive comes to the same as processing them at once |
| PacketStream.DropPersists | 게임서버/네트워크/CWanServerRoom2.cpp:746-802 | what leads to a disconnect still does with more bytes behind it, with the same packets delivered before |
| PacketStream.FeedIsProcess | 게임서버/네트워크/CWanServerRoom2.cpp:1312-1324 | for any bytes, damaged or not, and any cut into receives, the session delivers the same packets and is dropped alike as if it had processed them at once |
| PacketStream.FeedEnds | 게임서버/네트워크/CWanServerRoom2.cpp:1298-1310 | a receive of no bytes disconnects and delivers nothing more |
| PacketStream.FeedIsFaithful | 게임서버/네트워크/CWanServerRoom2.cpp:1312-1324 | however the sent bytes are cut into receives, exactly the packets arrived whole are delivered, in order, up to the queue's room, and the session is dropped exactly when there is one too many |
| PacketStream.WindowStaysOpen | 게임서버/네트워크/CWanServerRoom2.cpp:816-830 | while every frame fits the session's receive ring, the ring is never full |
| PacketStream.FitsSnoc | 게임서버/네트워크/CWanServerRoom2.cpp:821-828 | after any receives, one more can complete exactly when its bytes fit beside those left |
| PacketStream.LongPacketStalls | 게임서버/네트워크/CWanServerRoom2.cpp:754-759 | a packet that the header check admits but whose frame is longer than the ring is never delivered, nor anything behind it; the ring is full exactly when as much of it has arrived as the ring holds, and then no receive of bytes can complete |
| PacketStream.DeliveredIffFits | 게임서버/네트워크/Session.h:27 | a stream can be delivered in full through the ring, its queue having room, exactly when no payload exceeds 6389 bytes |
| NetworkSession.Session.constructor | 게임서버/네트워크/Session.h:27-43 | a session with empty queues, a receive ring of 6394 bytes and room for 799 packets |
| NetworkSession.Session.OnReceive | 게임서버/네트워크/CWanServerRoom2.cpp:1298-1324 | a completed receive hands its bytes to the processing of everything received so far, disconnected or not; one of no bytes disconnects |
| NetworkSession.Session.NetworkMessageProc | 게임서버/네트워크/CWanServerRoom2.cpp:733-814 | the loop over the ring computes the recursive processing: packets queued, bytes left, disconnect |
| NetworkSession.Session.NextMessage | 게임서버/네트워크/CWanServerRoom2.cpp:737-810 | one turn of it, branch by branch |
| ItemTables.ItemTable.constructor | 게임서버/컨텐츠/클래스/Inventory.h:28-32 | 128 free slots, the first of them next, and no items |
| ItemTables.ItemTable.Clear | 게임서버/컨텐츠/클래스/Inventory.h:34-40 | back to the state of a new table |
| ItemTables.ItemTable.GetItemQuantity | 게임서버/컨텐츠/클래스/Inventory.cpp:249-263 | the sum over the item's slots modulo 2^32 |
| ItemTables.ItemTable.IsAddItem | 게임서버/컨텐츠/클래스/Inventory.cpp:265-270 | whether the free slots and the open one seem to have room |
| ItemTables.ItemTable.GetNextSlotSeq | 게임서버/컨텐츠/클래스/Inventory.cpp:319-336 | takes the next slot and moves on to the next free one above it, or stays when there is none |
| ItemTables.ItemTable.InsertSlot | 게임서버/컨텐츠/클래스/Inventory.cpp:348-356 | stores a quantity in the slot taken |
| ItemTables.ItemTable.AddItem | 게임서버/컨텐츠/클래스/Inventory.cpp:108-193 | the loops compute the add as a function: refusal, the new table and the updates |
| ItemTables.ItemTable.DeleteSlot | 게임서버/컨텐츠/클래스/Inventory.cpp:358-366 | frees a slot; the next slot is the smaller of the two numbers |
| ItemTables.ItemTable.RemoveItem | 게임서버/컨텐츠/클래스/Inventory.cpp:195-247 | the loop from the last slot and the erasing after it compute the removal as a function |
| ItemTables.ItemTable.SetItem | 게임서버/컨텐츠/클래스/Inventory.cpp:293-312 | loads one row |
| UserInventories.UserInventory.constructor | 게임서버/컨텐츠/클래스/Inventory.cpp:50-53 | five empty tables |
| UserInventories.UserInventory.Clear | 게임서버/컨텐츠/클래스/Inventory.cpp:55-62 | empties every table but the first, which the loop skips |
| UserInventories.UserInventory.AddItem | 게임서버/컨텐츠/클래스/Inventory.cpp:108-193 | an add changes the table of its kind and no other |
| UserInventories.UserInventory.RemoveItem | 게임서버/컨텐츠/클래스/Inventory.cpp:195-247 | so does a removal |
| UserInventories.UserInventory.SetItem | 게임서버/컨텐츠/클래스/Inventory.cpp:293-312 | so does loading a row |
| InventoryBooks.TakenBooks | 게임서버/컨텐츠/클래스/Inventory.cpp:319-336 | taking a slot of a valid table that is not full keeps the count and finds the lowest free slot |
| InventoryBooks.InsertedKeeps | 게임서버/컨텐츠/클래스/Inventory.cpp:348-356 | an inserted row goes to a slot number the database does not have, and the table stays valid |
| InventoryBooks.InsertedAllKeeps | 게임서버/컨텐츠/클래스/Inventory.cpp:121-135 | with a slot to spare the inserting loop keeps the table valid, the database follows, and the item gains exactly the count |
| InventoryFilling.FillingGains | 게임서버/컨텐츠/클래스/Inventory.cpp:121-135 | what the inserting loop does in memory for every count: the item's gain in closed form, other items untouched; without a slot to spare no slot is free afterwards and the free-slot count is below 0 |
| InventoryFilling.FillingSlots | 게임서버/컨텐츠/클래스/Inventory.cpp:121-135 | with a slot to spare the loop names exactly the lowest free slot numbers, as many as it fills |
| InventoryFilling.FillingLayout | 게임서버/컨텐츠/클래스/Inventory.cpp:121-135 | the loop's updates one by one for every count: full slots and then the rest, into the free slots in order, and once there are none into the one taken last |
| InventoryBooks.InsertedAllClashes | 게임서버/컨텐츠/클래스/Inventory.cpp:121-135 | without a slot to spare it inserts a row whose number is there already, in any database that has the table's rows |
| InventoryAdding.AddAccepts | 게임서버/컨텐츠/클래스/Inventory.cpp:113-192 | exactly which adds are accepted, however large the quantity asked for, and that an open slot is always found when one is needed |
| InventoryAdding.AddInNumbers | 게임서버/컨텐츠/클래스/Inventory.cpp:113-192 | acceptance and promise worked out from the free slots, the maximum and the total |
| InventoryAdding.CanAddMeaning | 게임서버/컨텐츠/클래스/Inventory.cpp:265-270 | an accepted add is always promised, and an add is promised and then refused exactly when the held slots are all full and it exceeds the free slots by at most one slot |
| InventoryAdding.AddInStep | 게임서버/컨텐츠/클래스/Inventory.cpp:108-193 | with slots to spare the database follows and the table stays valid; the item gains exactly what was added if and only if no open slot is needed, or it has room for everything, or it held the remainder of the total |
| InventoryAdding.AddGains | 게임서버/컨텐츠/클래스/Inventory.cpp:108-193 | every accepted add changes the total by an amount known before the call, and no other item; without slots to spare it leaves no slot free and the free-slot count below 0 |
| InventoryAdding.AddExact | 게임서버/컨텐츠/클래스/Inventory.cpp:108-193 | for every accepted add, exactly when the item gains what was asked for |
| InventoryAdding.AddClashes | 게임서버/컨텐츠/클래스/Inventory.cpp:108-193 | without slots to spare the updates cannot be carried out |
| InventoryAdding.AddNames | 게임서버/컨텐츠/클래스/Inventory.cpp:108-193 | the slot numbers an add names are the lowest free ones and perhaps one the item has |
| InventoryAdding.AddUpdates | 게임서버/컨텐츠/클래스/Inventory.cpp:108-193 | what an accepted add sends: the loop's updates alone when the total fills whole slots, otherwise first a change of the lowest slot that is not full, to the 32-bit sum or to the maximum, and then the loop's for what the remainder of the total says is over |
| InventoryAdding.PackedRemainder | 게임서버/컨텐츠/클래스/Inventory.cpp:142-169 | when every other slot is full, the open slot does hold the remainder |
| InventoryRemoving.RemoveAccepts | 게임서버/컨텐츠/클래스/Inventory.cpp:199-246 | a removal never gives out more than is held; it gives out anything up to that while no slot exceeds the maximum, and in general whole multiples of 2^32 of the total do not count |
| InventoryRemoving.DrainedFrees | 게임서버/컨텐츠/클래스/Inventory.cpp:207-231 | the loop from the last slot frees exactly the slots whose quantities, summed from the last slot down, the amount asked for covers |
| InventoryRemoving.DrainedUpdates | 게임서버/컨텐츠/클래스/Inventory.cpp:207-231 | the loop's updates one by one, from the last slot down: they go as far as the amount reaches, and each empties its slot or leaves what is not taken |
| InventoryRemoving.RemoveInStep | 게임서버/컨텐츠/클래스/Inventory.cpp:195-247 | exactly the amount asked for leaves, from this item only, and the database follows; the next slot is the lowest free one exactly when the table was not full, the amount empties no slot, or it empties one at or below the next slot |
| InventoryRemoving.NextAfterFreeing | 게임서버/컨텐츠/클래스/Inventory.cpp:358-366 | the same for any freed slots |
| InventoryRuns.LoadedKeeps | 게임서버/컨텐츠/클래스/Inventory.cpp:293-312 | a row loaded into a free slot keeps the table valid |
| InventoryRuns.LoadedLast | 게임서버/컨텐츠/클래스/Inventory.cpp:299-311 | a row loaded into the last free slot leaves `next` on that slot |
| InventoryRuns.ValidIsUnique | 게임서버/컨텐츠/클래스/Inventory.h:20-41 | a valid table is determined by its database rows, up to the next slot of a full one |
| InventoryRuns.SafeCall | 게임서버/컨텐츠/클래스/Inventory.cpp:108-247 | a call inside the conditions keeps its table valid, its rows in step, and every total of the table exact |
| InventoryRuns.MemoryFollowsUpdates | 게임서버/컨텐츠/클래스/Inventory.cpp:108-247 | in memory every call does to its item's slots what its updates say, in order, and nothing to other items, whether or not the database can follow |
| InventoryRuns.TakenNextClashes | 게임서버/컨텐츠/클래스/Inventory.cpp:348-356 | with the next slot taken, the next inserted row meets one that is there; in memory two items share the slot, which no rows can mirror, or the quantity it held is lost |
| InventoryRuns.FullThenFreedClashes | 게임서버/컨텐츠/클래스/Inventory.cpp:319-366 | taking the last free slot and freeing one above it makes the next insert hit the slot just taken |
| InventoryRuns.ExactFillClashes | 게임서버/컨텐츠/클래스/Inventory.cpp:114-136 | filling the free slots of any table exactly is accepted, loses one slot's worth, leaves 2^32 - 1 as the count of free slots, and is refused by the database |
| InventoryRuns.ThreeAddsMakeFive | 게임서버/컨텐츠/클래스/Inventory.cpp:142-187 | adds of 10, 5 and 12 pieces at 10 to a slot leave 32 held |
| InventoryUsers.ReplayedAmong | 게임서버/컨텐츠/전역함수/Query.cpp:292-334 | updates that suit one table's rows are carried out among other rows, and leave those alone, exactly when they name no number of another row |
| InventoryUsers.UserCountable | 게임서버/컨텐츠/클래스/Inventory.cpp:249-263 | the totals of a valid user fit 32 bits |
| InventoryUsers.UserAdd | 게임서버/컨텐츠/클래스/Inventory.cpp:108-193 | an accepted add of a user goes through exactly when its table has slots to spare and no other kind uses a number it takes; it then leaves the other kinds' rows alone and the user valid |
| InventoryUsers.UserRemove | 게임서버/컨텐츠/클래스/Inventory.cpp:195-247 | an accepted removal always goes through and leaves the other kinds' rows alone; the user stays valid exactly when the next slot stays the lowest free one |
| InventoryUsers.UserCall | 게임서버/컨텐츠/클래스/Inventory.cpp:108-247 | a call inside the conditions keeps the user valid, the database in step, and every total exact |
| InventoryUsers.Ledger | 게임서버/컨텐츠/클래스/Inventory.cpp:108-247 | over any run of such calls, on any kinds, the one database accepts every update and mirrors all tables, and each item's total is what it was plus all accepted adds minus all accepted removals |
| InventoryUsers.Reload | 게임서버/컨텐츠/클래스/필드/Lobby.cpp:242-250 | loading the saved rows of all kinds in any order into a new user rebuilds every table; in a kind with all 128 slots taken the next slot is that of the kind's last row in the list |
| InventoryUsers.SecondKindClashes | 게임서버/컨텐츠/클래스/Inventory.cpp:348-356 | whatever a new user is given of two kinds, the database refuses the second |
| InventoryUsers.TokenThenBoxClashes | 게임서버/컨텐츠/클래스/StoreManager.cpp:110-118 | one token and one box, as the item list has them, are enough |

## Left out

- File opening, the error message and text-mode translation: a file is its translated character sequence, or absent; a string longer than `max_size` is not modelled.
- Quoting and newlines inside cells: the reader does not implement them.
- The loaders that turn CSV rows into items and products: number parsing and two map inserts.
- RingBuffer.SerialRingBuffer.MoveFront: is stated for moves within the contents, and MoveRear for moves within the free cells; the source checks neither, and its callers stay inside.
- RingBuffer.SerialRingBuffer.Decode: is stated for a payload in one stretch, as a fresh packet holds it, and so is sealing; the source would read past the block otherwise.
- Dequeuing into a string, and the typed packet operators: fixed-width copies over `Enqueue` and `Dequeue`.
- Locks, reference counts and the packet pool: calls are taken one at a time, and a packet taken from the pool starts empty.
- What the operating system makes of a receive into a full ring: the source offers it two empty blocks, and treats a completion of no bytes as the end of the connection.
- The room thread that empties the message queue: a stream is processed with the room there is.
- NetworkSession.Session.OnReceive: the queue of packet pointers is a sequence of payloads with the ring's capacity in pointers.
- ItemTables.ItemTable.AddItem: requires that an open slot exists when one is needed; the source returns no value otherwise. `AddAccepts` proves that it exists in every valid table whose total fits 32 bits. A maximum of 0, by which the source divides, is excluded.
- InventoryAdding.AddAccepts: is stated, with the other laws of adding, for a held total and a whole-table capacity that fit 32 bits; `UserCountable` proves the first for valid users, and the functions and methods wrap as the source does.
- What the server does when the database refuses a transaction: the tables in memory are not rolled back, and runs go on from valid users only.
- A user's money, and the list of items sent to the client.
- SQL text and the database itself: a row update acts on a map by slot number, and one that would duplicate or miss a row fails.
- Token and money prices in the store, rooms, logins, friends and the console client.
